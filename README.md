# Library catalogue data layer

A model of the data layer of `library_cli.py`, a command-line catalogue for a
small library. The program keeps three SQLite tables: Authors (AuthorID,
name, birth year), Books (BookID, title, publication year, AuthorID) and
Borrows (BorrowID, BookID, borrower, date borrowed, return date). A book is
Available or Borrowed; that state is not stored but derived from the
Borrow rows of the book whose return date is still null.

The model is one `Store` class (module `Library`) whose three fields are the
three tables, as maps from id to row. Each operation of the program's menu
that changes the tables is a method of the store. It takes the arguments the
program reads and parses from the terminal, and takes "today" and the
current year as parameters where the program asks the clock. It returns
`Ok` and applies its whole change, or returns the kind of error the program
reports and changes nothing. The read-back each operation performs after
its commit is stated as the method's postcondition.

Every method keeps the store's invariant `Valid()`: names and titles are not
empty, years are not negative, every Borrow row names a borrower and refers
to an existing book. Above all, no book has more than one outstanding
borrow. Returned Borrow rows are never changed again (`ReturnsKept`).

The three listings of the menu are pure functions (modules `Views` and
`BorrowViews`). The book list is a left join with the authors, ordered by
title. The author list is ordered by name. The borrow list is an inner join
of Borrows with Books, newest borrow first. It shows either the outstanding
borrows or the whole history. Text is compared by code points
(`Ordering.TextLess`). That is SQLite's default BINARY collation on UTF-8
text. SQL leaves the order of rows with equal sort keys open. The model
chooses to break such ties by id, ascending. Each listing is then the only
sequence of its rows in that order (`*ListUnique`).

Modules: `Ordering` (text order, selection sort of a
set of ids by a strict total order, uniqueness of sorted sequences),
`Catalog` (rows, errors, invariants), `Library` (the store), `Views` and
`BorrowViews` (the listings), `Scenarios` (client runs proved from the
contracts alone).

## Model

| member | source | states |
|---|---|---|
| Library.Store.AddBook | library_cli.py:85-161 | An empty title, or a publication year outside 0..current year + 10, is a validation error; an AuthorID with no author row is a reference error; it succeeds exactly when none of these holds, and then inserts exactly one book with a fresh positive id and the given values; on failure nothing changes |
| Library.Store.UpdateBookTitle | library_cli.py:194-230 | An unknown BookID is not-found and an empty title is a validation error; otherwise only that book's title changes, to the new title |
| Library.Store.DeleteBook | library_cli.py:239-270 | Fails exactly when the BookID is unknown; otherwise removes the book and exactly the Borrow rows that refer to it (the cascade the confirmation prompt promises, assumed of the schema), and leaves every other row unchanged |
| Library.Store.AddAuthor | library_cli.py:283-318 | Fails with a validation error exactly when the name is empty or a given birth year lies outside 0..current year; otherwise inserts one author with a fresh positive id |
| Library.Store.UpdateAuthor | library_cli.py:347-393 | Unknown AuthorID is not-found; a given birth year outside 0..current year is a validation error; otherwise only that author changes, an omitted or empty name and an omitted year keeping their old values |
| Library.Store.DeleteAuthor | library_cli.py:402-438 | Fails exactly when the AuthorID is unknown; otherwise removes only that author, reports how many books refer to it, and leaves the books and borrows untouched |
| Library.Store.BorrowBook | library_cli.py:451-493 | Empty borrower is a validation error, unknown book not-found; for a known book and a named borrower it succeeds exactly when the book has no outstanding borrow, adding one open Borrow row dated today; a conflict reports the borrower of the outstanding row; at most one outstanding borrow per book is kept |
| Library.Store.ReturnBook | library_cli.py:502-538 | Succeeds exactly when the BorrowID names an outstanding borrow, and then only sets that row's return date to today; an unknown or already returned borrow is not-found and changes nothing; returned rows are never rewritten |
| Catalog.OpenBorrowOf | library_cli.py:471-476 | Finds a book's outstanding borrow exactly when the book is borrowed, and it is the only one |
| Catalog.FreshIdExists | library_cli.py:141-144 | Every table has a positive id no row uses, so an insert can always be given a new id |
| Catalog.UpperBoundExists | library_cli.py:141-144 | Every finite set of ids has a positive bound above all of them |
| Views.ListBooks | library_cli.py:166-187 | One row per book, each with the book's title and year and the author's name, or "Unknown Author" when the book has no author, the author row is gone or the name is empty; rows ordered by title, then BookID |
| Views.BookListUnique | library_cli.py:169-174 | Any sequence of all BookIDs ordered by (title, BookID) is the book list's order |
| Views.ListAuthors | library_cli.py:326-342 | One row per author with all its columns, ordered by name, then AuthorID |
| Views.AuthorListUnique | library_cli.py:329 | Any sequence of all AuthorIDs ordered by (name, AuthorID) is the author list's order |
| BorrowViews.ListBorrows | library_cli.py:547-562 | One row per Borrow row whose book exists (only the open ones when outstanding only is asked), with the book's title, borrower and dates, newest borrow first, then by BorrowID |
| BorrowViews.BorrowListUnique | library_cli.py:556-561 | Any sequence of the listed BorrowIDs ordered by (date desc, BorrowID) is the borrow list's order |
| BorrowViews.OutstandingIsOpenHistory | library_cli.py:549-562 | The outstanding list is exactly the full history with the returned rows taken out, in the same order |
| Ordering.TextLessIrreflexive | library_cli.py:173 | No text sorts before itself |
| Ordering.TextLessTransitive | library_cli.py:173 | The text order is transitive |
| Ordering.TextLessTotal | library_cli.py:173 | Of two different texts one sorts before the other |
| Ordering.SortBy | library_cli.py:173 | Lists a finite set of ids once each, in the order of a strict total order |
| Ordering.SortedUnique | library_cli.py:173 | Two sequences with the same members, both ordered by the same strict total order, are equal |
| Ordering.LeastExists | library_cli.py:173 | A non-empty set under a strict total order has a least member |
| Scenarios.BorrowReturnCycle | library_cli.py:451-538 | A book lent to Alice cannot be lent to Bob, the refusal naming Alice; Alice's return succeeds, and then Bob can borrow it |
| Scenarios.AuthorRoundTrip | library_cli.py:283-393 | An added author is listed once, under the AuthorID it was given, with the values given; updating only the birth year keeps the name |
| Scenarios.DeleteClearsHistory | library_cli.py:239-270 | Deleting a borrowed book leaves an empty borrow history |

## Left out

- Terminal I/O: the menu, prompts, messages, table layout (column widths, truncation with "...", "Unknown" years, totals) and the parsing of typed numbers (a non-number is a `ValueError` in the program; here arguments arrive already parsed).
- Whitespace stripping of typed text: the methods receive text already stripped.
- The yes/no confirmation before deletes: the delete methods model the confirmed case; a cancelled delete changes nothing.
- The clock: `date.today()` is passed in as `today` (a day number whose order is the order of ISO date strings) and `currentYear`.
- Connection set-up, schema checks and the connection self-test (`create_connection`, `verify_database_structure`, `test_database_connection`, `main_menu`): they are not part of this model.
- SQL, commit and `sqlite3.Error` failures: each operation is all or nothing, and the read-back after the commit always agrees with the postcondition, so the program's "verification failed" branches are not reachable in the model.
- Library.Store.AddBook: the "add a new author" choice is modelled as a client calling `AddAuthor` and then `AddBook` with the new id. The program does not check the id typed in on that path and leaves the check to the database's foreign key. The model checks every given AuthorID, which is the outcome when foreign keys are enforced. An "invalid choice" is the same as no author.
- Library.Store.AddBook, AddAuthor, BorrowBook: the new id is any positive id not in the table, not necessarily SQLite's next rowid.
- Library.Store.DeleteAuthor: the program issues only `DELETE FROM Authors` (library_cli.py:425-426); what the database then does with the books that refer to the author depends on the schema's foreign key, and the schema is not part of this model. Leaving those books with their AuthorID, which then refers to no author, is the model's own choice; the book list shows them with "Unknown Author", and the Books-to-Authors reference is therefore not part of the invariant. With foreign keys on (library_cli.py:35) and no ON DELETE clause, the program would instead refuse to delete an author who has books (a database error, nothing changed); with ON DELETE SET NULL those books would lose their AuthorID. The model captures neither.
- Library.Store.DeleteBook: the program issues only `DELETE FROM Books` (library_cli.py:257). That the book's Borrow rows go with it is what the confirmation prompt promises (library_cli.py:254), and it holds only if the schema, which is not part of this model, declares ON DELETE CASCADE on the Borrows foreign key. The model assumes that cascade.
- Library.Store: every method requires `Valid()`, and the only constructor builds an empty store. The program opens an existing database file (library_cli.py:25-33) whose rows none of its checks vet; the model assumes that file already satisfies `Catalog.Consistent`.
- Library.Store.ReturnBook: the program's lookup joins the Borrow row with its book; the model keeps that condition, which the invariant makes always true.
- Catalog.Consistent: it does not carry the upper year bounds (current year, current year + 10), because they depend on the date of entry; only the lower bound 0 is an invariant.
- Years are unbounded integers; SQLite's 64-bit integer limits are not modelled.
- Ties in `ORDER BY`: the database does not promise an order for rows with equal sort keys; the model fixes it to ascending id.
