/** The catalogue's data layer: one store holding the Authors, Books and
    Borrows tables, with one method per operation of the command-line
    program. Each method takes the arguments the program has already read
    and parsed, and "today" and the current year where the program asks
    the clock. Each either applies its whole change and returns `Ok`, or
    changes nothing and returns the kind of error the program reports.
    The program's read-back after every commit is stated here as the
    method's postcondition.
 */
module Library {
  import opened Catalog

  class Store {
    var authors: map<int, Author>
    var books: map<int, Book>
    var borrows: map<int, Borrow>

    ghost predicate Valid()
      reads this
    {
      Consistent(authors, books, borrows)
    }

    /** An empty catalogue. */
    constructor ()
      ensures Valid()
      ensures authors == map[] && books == map[] && borrows == map[]
    {
      authors, books, borrows := map[], map[], map[];
    }

    // --- Book operations ---

    /** Inserts a book. Fails without inserting when the title is empty, a
        given publication year is out of range, or a given author does not
        exist. */
    method AddBook(title: string, pubYear: Option<int>, authorId: Option<int>, currentYear: int)
      returns (r: Result<int>)
      requires Valid()
      modifies this
      ensures Valid()
      ensures authors == old(authors) && borrows == old(borrows)
      ensures title == "" ==> r == Err(ValidationError)
      ensures title != "" && pubYear.Some? && !PublicationYearInRange(pubYear.value, currentYear) ==>
                r == Err(ValidationError)
      ensures title != "" && (pubYear.Some? ==> PublicationYearInRange(pubYear.value, currentYear))
              && authorId.Some? && authorId.value !in authors ==>
                r == Err(ReferenceError)
      ensures r.Ok? <==> title != "" && (pubYear.Some? ==> PublicationYearInRange(pubYear.value, currentYear))
                         && (authorId.Some? ==> authorId.value in authors)
      ensures r.Err? ==> books == old(books)
      ensures r.Ok? ==> r.value > 0 && r.value !in old(books)
                        && books == old(books)[r.value := Book(title, pubYear, authorId)]
    {
      if title == "" {
        return Err(ValidationError);
      }
      if pubYear.Some? && !PublicationYearInRange(pubYear.value, currentYear) {
        return Err(ValidationError);
      }
      if authorId.Some? && authorId.value !in authors {
        return Err(ReferenceError);
      }
      FreshIdExists(books.Keys);
      var id :| id > 0 && id !in books;
      books := books[id := Book(title, pubYear, authorId)];
      r := Ok(id);
    }

    /** Replaces the title of an existing book. */
    method UpdateBookTitle(id: int, newTitle: string) returns (r: Result<()>)
      requires Valid()
      modifies this
      ensures Valid()
      ensures authors == old(authors) && borrows == old(borrows)
      ensures id !in old(books) ==> r == Err(NotFoundError)
      ensures id in old(books) && newTitle == "" ==> r == Err(ValidationError)
      ensures r.Ok? <==> id in old(books) && newTitle != ""
      ensures r.Err? ==> books == old(books)
      ensures r.Ok? ==> id in old(books) && books == old(books)[id := old(books)[id].(title := newTitle)]
    {
      if id !in books {
        return Err(NotFoundError);
      }
      if newTitle == "" {
        return Err(ValidationError);
      }
      books := books[id := books[id].(title := newTitle)];
      r := Ok(());
    }

    /** Deletes a book together with every Borrow row that refers to it. */
    method DeleteBook(id: int) returns (r: Result<()>)
      requires Valid()
      modifies this
      ensures Valid()
      ensures authors == old(authors)
      ensures r.Err? <==> id !in old(books)
      ensures r.Err? ==> r.error == NotFoundError && books == old(books) && borrows == old(borrows)
      ensures r.Ok? ==> books == old(books) - {id}
      ensures r.Ok? ==> forall b :: b in borrows <==> b in old(borrows) && old(borrows)[b].bookId != id
      ensures forall b :: b in borrows ==> borrows[b] == old(borrows)[b]
      ensures ReturnsKept(old(borrows), borrows)
    {
      if id !in books {
        return Err(NotFoundError);
      }
      books := books - {id};
      borrows := map b | b in borrows && borrows[b].bookId != id :: borrows[b];
      r := Ok(());
    }

    // --- Author operations ---

    /** Inserts an author. Fails without inserting when the name is empty
        or a given birth year is out of range. */
    method AddAuthor(name: string, birthYear: Option<int>, currentYear: int) returns (r: Result<int>)
      requires Valid()
      modifies this
      ensures Valid()
      ensures books == old(books) && borrows == old(borrows)
      ensures r.Err? <==> name == "" || (birthYear.Some? && !BirthYearInRange(birthYear.value, currentYear))
      ensures r.Err? ==> r.error == ValidationError && authors == old(authors)
      ensures r.Ok? ==> r.value > 0 && r.value !in old(authors)
                        && authors == old(authors)[r.value := Author(name, birthYear)]
    {
      if name == "" {
        return Err(ValidationError);
      }
      if birthYear.Some? && !BirthYearInRange(birthYear.value, currentYear) {
        return Err(ValidationError);
      }
      FreshIdExists(authors.Keys);
      var id :| id > 0 && id !in authors;
      authors := authors[id := Author(name, birthYear)];
      r := Ok(id);
    }

    /** Partial update of an author: an omitted (or empty) name and an
        omitted birth year keep their previous values. */
    method UpdateAuthor(id: int, newName: Option<string>, newBirthYear: Option<int>, currentYear: int)
      returns (r: Result<()>)
      requires Valid()
      modifies this
      ensures Valid()
      ensures books == old(books) && borrows == old(borrows)
      ensures id !in old(authors) ==> r == Err(NotFoundError)
      ensures id in old(authors) && newBirthYear.Some? && !BirthYearInRange(newBirthYear.value, currentYear) ==>
                r == Err(ValidationError)
      ensures r.Ok? <==> id in old(authors) && (newBirthYear.Some? ==> BirthYearInRange(newBirthYear.value, currentYear))
      ensures r.Err? ==> authors == old(authors)
      ensures r.Ok? ==> id in authors && authors == old(authors)[id := authors[id]]
      ensures r.Ok? ==> authors[id].name ==
                          (if newName.None? || newName.value == "" then old(authors)[id].name else newName.value)
      ensures r.Ok? ==> authors[id].birthYear ==
                          (if newBirthYear.None? then old(authors)[id].birthYear else newBirthYear)
    {
      if id !in authors {
        return Err(NotFoundError);
      }
      var current := authors[id];
      var name := if newName.None? || newName.value == "" then current.name else newName.value;
      if newBirthYear.Some? && !BirthYearInRange(newBirthYear.value, currentYear) {
        return Err(ValidationError);
      }
      var birthYear := if newBirthYear.None? then current.birthYear else newBirthYear;
      authors := authors[id := Author(name, birthYear)];
      r := Ok(());
    }

    /** Deletes an author. On success it reports how many books refer to
        the author; those books are left as they are. */
    method DeleteAuthor(id: int) returns (r: Result<nat>)
      requires Valid()
      modifies this
      ensures Valid()
      ensures books == old(books) && borrows == old(borrows)
      ensures r.Err? <==> id !in old(authors)
      ensures r.Err? ==> r.error == NotFoundError && authors == old(authors)
      ensures r.Ok? ==> authors == old(authors) - {id} && r.value == |BooksBy(books, id)|
    {
      if id !in authors {
        return Err(NotFoundError);
      }
      var count := |BooksBy(books, id)|;
      authors := authors - {id};
      r := Ok(count);
    }

    // --- Borrow lifecycle ---

    /** Records that a book is borrowed (Available -> Borrowed). Fails when
        the borrower is empty, the book does not exist, or the book already
        has an outstanding borrow, whose borrower is then reported. */
    method BorrowBook(bookId: int, borrower: string, today: Date) returns (r: Result<int>)
      requires Valid()
      modifies this
      ensures Valid()
      ensures authors == old(authors) && books == old(books)
      ensures borrower == "" ==> r == Err(ValidationError)
      ensures borrower != "" && bookId !in books ==> r == Err(NotFoundError)
      ensures r.Err? ==> borrows == old(borrows)
      ensures r.Err? && r.error.ConflictError? ==>
                exists b :: b in borrows && borrows[b].bookId == bookId && IsOpen(borrows[b])
                            && borrows[b].borrower == r.error.borrower
      ensures borrower != "" && bookId in books ==> (r.Ok? <==> !IsBorrowed(old(borrows), bookId))
      ensures borrower != "" && bookId in books && IsBorrowed(old(borrows), bookId) ==> r.Err? && r.error.ConflictError?
      ensures r.Ok? ==> r.value > 0 && r.value !in old(borrows)
                        && borrows == old(borrows)[r.value := Borrow(bookId, borrower, today, None)]
      ensures ReturnsKept(old(borrows), borrows)
    {
      if borrower == "" {
        return Err(ValidationError);
      }
      if bookId !in books {
        return Err(NotFoundError);
      }
      var open := OpenBorrowOf(borrows, bookId);
      if open.Some? {
        return Err(ConflictError(borrows[open.value].borrower));
      }
      FreshIdExists(borrows.Keys);
      var id :| id > 0 && id !in borrows;
      borrows := borrows[id := Borrow(bookId, borrower, today, None)];
      r := Ok(id);
    }

    /** Records that an outstanding borrow is returned (Borrowed ->
        Available). An unknown or already returned BorrowID fails. */
    method ReturnBook(borrowId: int, today: Date) returns (r: Result<()>)
      requires Valid()
      modifies this
      ensures Valid()
      ensures authors == old(authors) && books == old(books)
      ensures r.Ok? <==> borrowId in old(borrows) && IsOpen(old(borrows)[borrowId])
      ensures r.Err? ==> r.error == NotFoundError && borrows == old(borrows)
      ensures r.Ok? ==> borrows == old(borrows)[borrowId := old(borrows)[borrowId].(returnDate := Some(today))]
      ensures ReturnsKept(old(borrows), borrows)
    {
      if !(borrowId in borrows && IsOpen(borrows[borrowId]) && borrows[borrowId].bookId in books) {
        return Err(NotFoundError);
      }
      borrows := borrows[borrowId := borrows[borrowId].(returnDate := Some(today))];
      r := Ok(());
    }
  }
}
