/** The rows of the catalogue's three tables, the outcomes of its operations
    and the rules that tie the tables together.

    The store keeps one table per entity, keyed by the store-generated id:
    Authors (AuthorID -> name, birth year), Books (BookID -> title,
    publication year, AuthorID) and Borrows (BorrowID -> BookID, borrower,
    date borrowed, return date). Whether a book is borrowed is not stored:
    it is derived from the Borrow rows whose return date is still null.
 */
module Catalog {

  datatype Option<T> = None | Some(value: T)

  /** A calendar day, numbered so that the order of the numbers is the order
      of the ISO date strings the store keeps. */
  type Date = nat

  datatype Author = Author(name: string, birthYear: Option<int>)

  datatype Book = Book(title: string, pubYear: Option<int>, authorId: Option<int>)

  datatype Borrow = Borrow(bookId: int, borrower: string, dateBorrowed: Date, returnDate: Option<Date>)

  /** The ways an operation can fail. A conflict names the current borrower. */
  datatype Error =
    | ValidationError
    | NotFoundError
    | ReferenceError
    | ConflictError(borrower: string)

  datatype Result<T> = Ok(value: T) | Err(error: Error)

  /** A publication year may lie this many years after the current year. */
  const PublicationYearSlack: int := 10

  /** The range a birth year is checked against when it is entered. */
  predicate BirthYearInRange(year: int, currentYear: int)
  {
    0 <= year <= currentYear
  }

  /** The range a publication year is checked against when it is entered. */
  predicate PublicationYearInRange(year: int, currentYear: int)
  {
    0 <= year <= currentYear + PublicationYearSlack
  }

  /** An optional year that, if given, is not negative. */
  predicate NonNegativeYear(year: Option<int>)
  {
    year.Some? ==> year.value >= 0
  }

  predicate IsOpen(b: Borrow)
  {
    b.returnDate.None?
  }

  /** The derived Available/Borrowed state: a book is borrowed exactly when
      some Borrow row for it has no return date. */
  predicate IsBorrowed(borrows: map<int, Borrow>, bookId: int)
  {
    exists id :: id in borrows && borrows[id].bookId == bookId && IsOpen(borrows[id])
  }

  /** At most one outstanding borrow per book. */
  predicate AtMostOneOpen(borrows: map<int, Borrow>)
  {
    forall i, j ::
      i in borrows && j in borrows && i != j && IsOpen(borrows[i]) && IsOpen(borrows[j]) ==>
        borrows[i].bookId != borrows[j].bookId
  }

  /** The outstanding borrow of a book, if there is one. */
  function OpenBorrowOf(borrows: map<int, Borrow>, bookId: int): (r: Option<int>)
    requires AtMostOneOpen(borrows)
    ensures r.Some? <==> IsBorrowed(borrows, bookId)
    ensures r.Some? ==> r.value in borrows && borrows[r.value].bookId == bookId && IsOpen(borrows[r.value])
    ensures r.Some? ==> forall id :: id in borrows && borrows[id].bookId == bookId && IsOpen(borrows[id]) ==> id == r.value
  {
    if IsBorrowed(borrows, bookId) then
      var id :| id in borrows && borrows[id].bookId == bookId && IsOpen(borrows[id]);
      Some(id)
    else
      None
  }

  /** What the store keeps true between operations: non-empty names and
      titles, non-negative years, every Borrow row refers to an existing
      book and names a borrower, and no book has two outstanding borrows.
      A book's AuthorID is not required to exist: deleting an author leaves
      the books that referred to it untouched. */
  predicate Consistent(authors: map<int, Author>, books: map<int, Book>, borrows: map<int, Borrow>)
  {
    && (forall id :: id in authors ==> authors[id].name != "" && NonNegativeYear(authors[id].birthYear))
    && (forall id :: id in books ==> books[id].title != "" && NonNegativeYear(books[id].pubYear))
    && (forall id :: id in borrows ==> borrows[id].bookId in books && borrows[id].borrower != "")
    && AtMostOneOpen(borrows)
  }

  /** A returned Borrow row is never changed afterwards. */
  predicate ReturnsKept(before: map<int, Borrow>, after: map<int, Borrow>)
  {
    forall id :: id in before && id in after && !IsOpen(before[id]) ==> after[id] == before[id]
  }

  /** The books that refer to an author. */
  function BooksBy(books: map<int, Book>, authorId: int): set<int>
  {
    set id | id in books && books[id].authorId == Some(authorId)
  }

  /** `m` is a positive number above every id in `ids`. */
  predicate Above(ids: set<int>, m: int)
  {
    m > 0 && forall k :: k in ids ==> k < m
  }

  /** Every table leaves room for a new positive id above all of its ids. */
  lemma {:induction false} UpperBoundExists(ids: set<int>)
    ensures exists m :: Above(ids, m)
    decreases ids
  {
    if exists x :: x in ids {
      var x :| x in ids;
      UpperBoundExists(ids - {x});
      var m :| Above(ids - {x}, m);
      var m' := if x < m then m else x + 1;
      assert forall k :: k in ids ==> k == x || k in ids - {x};
      assert Above(ids, m');
    } else {
      assert Above(ids, 1);
    }
  }

  /** A fresh id: a positive id no row of the table has. */
  lemma FreshIdExists(ids: set<int>)
    ensures exists id :: id > 0 && id !in ids
  {
    UpperBoundExists(ids);
    var m :| Above(ids, m);
    assert m !in ids;
  }
}
