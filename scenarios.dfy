/** Client runs of the store, proved from the operations' contracts alone:
    the borrow/return cycle of one book, the partial update of an author,
    and the removal of a book's borrow history with the book.
 */
module Scenarios {
  import opened Catalog
  import opened Library
  import opened Views
  import opened BorrowViews
  import opened Ordering

  /** "Dune" is lent to Alice; Bob is refused and told Alice has it; once
      Alice returns it, Bob can borrow it. */
  method BorrowReturnCycle(today: Date, currentYear: int)
    returns (refused: Result<int>, returned: Result<()>, lent: Result<int>)
    requires PublicationYearInRange(1965, currentYear)
    ensures refused == Err(ConflictError("Alice"))
    ensures returned.Ok?
    ensures lent.Ok?
  {
    var store := new Store();
    var dune := store.AddBook("Dune", Some(1965), None, currentYear);
    var first := store.BorrowBook(dune.value, "Alice", today);
    assert IsBorrowed(store.borrows, dune.value) by {
      assert store.borrows[first.value].bookId == dune.value;
    }
    var aliceRow := first.value;
    refused := store.BorrowBook(dune.value, "Bob", today);
    assert store.borrows.Keys == {aliceRow};
    returned := store.ReturnBook(first.value, today);
    assert !IsBorrowed(store.borrows, dune.value) by {
      assert store.borrows.Keys == {aliceRow};
    }
    lent := store.BorrowBook(dune.value, "Bob", today);
  }

  /** An author added as ("Jane Doe", 1970) is listed once with those
      values under the AuthorID it was given; updating only the birth year
      to 1971 keeps the name. */
  method AuthorRoundTrip(currentYear: int) returns (jane: Result<int>, before: seq<AuthorRow>, after: seq<AuthorRow>)
    requires BirthYearInRange(1971, currentYear)
    ensures jane.Ok?
    ensures |before| == 1 && before[0].id == jane.value
    ensures before[0].name == "Jane Doe" && before[0].birthYear == Some(1970)
    ensures |after| == 1 && after[0].id == before[0].id
    ensures after[0].name == "Jane Doe" && after[0].birthYear == Some(1971)
  {
    var store := new Store();
    jane := store.AddAuthor("Jane Doe", Some(1970), currentYear);
    assert store.authors.Keys == {jane.value};
    before := ListAuthors(store.authors);
    var updated := store.UpdateAuthor(jane.value, None, Some(1971), currentYear);
    assert store.authors.Keys == {jane.value};
    after := ListAuthors(store.authors);
  }

  /** Deleting a borrowed book leaves no borrow history behind. */
  method DeleteClearsHistory(today: Date, currentYear: int) returns (history: seq<BorrowRow>)
    requires PublicationYearInRange(1965, currentYear)
    ensures history == []
  {
    var store := new Store();
    var dune := store.AddBook("Dune", Some(1965), None, currentYear);
    var lent := store.BorrowBook(dune.value, "Alice", today);
    assert forall b :: b in store.borrows ==> store.borrows[b].bookId == dune.value;
    var deleted := store.DeleteBook(dune.value);
    assert forall b :: b !in store.borrows;
    history := ListBorrows(store.borrows, store.books, false);
    EmptyIfNoMember(ListedBorrows(store.borrows, store.books, false));
  }
}
