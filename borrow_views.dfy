/** The borrow lists: Borrow rows joined with their book's title, newest
    borrow first. The outstanding list keeps only the rows whose return
    date is null; the history keeps every row. Rows borrowed on the same
    day are ordered by BorrowID, ascending.
 */
module BorrowViews {
  import opened Catalog
  import opened Ordering

  datatype BorrowRow = BorrowRow(id: int, title: string, borrower: string, dateBorrowed: Date, returnDate: Option<Date>)

  /** The BorrowIDs a list shows: the inner join keeps rows whose book
      exists, and the outstanding list keeps only open rows. */
  function ListedBorrows(borrows: map<int, Borrow>, books: map<int, Book>, onlyOutstanding: bool): set<int>
  {
    set id | id in borrows && borrows[id].bookId in books && (onlyOutstanding ==> IsOpen(borrows[id]))
  }

  /** Newest first, then by BorrowID. */
  predicate BorrowBefore(borrows: map<int, Borrow>, i: int, j: int)
  {
    i in borrows && j in borrows &&
    (borrows[i].dateBorrowed > borrows[j].dateBorrowed ||
     (borrows[i].dateBorrowed == borrows[j].dateBorrowed && i < j))
  }

  function BorrowOrder(borrows: map<int, Borrow>): (int, int) -> bool
  {
    (i, j) => BorrowBefore(borrows, i, j)
  }

  lemma BorrowOrderTotal(borrows: map<int, Borrow>, s: set<int>)
    requires forall x :: x in s ==> x in borrows
    ensures StrictTotalOn(s, BorrowOrder(borrows))
  {
  }

  /** The BorrowIDs of a list, in list order. */
  function BorrowIds(borrows: map<int, Borrow>, books: map<int, Book>, onlyOutstanding: bool): (ids: seq<int>)
    ensures |ids| == |ListedBorrows(borrows, books, onlyOutstanding)|
    ensures forall x :: x in ids <==> x in ListedBorrows(borrows, books, onlyOutstanding)
    ensures SortedBy(ids, BorrowOrder(borrows))
  {
    var s := ListedBorrows(borrows, books, onlyOutstanding);
    BorrowOrderTotal(borrows, s);
    SortBy(s, BorrowOrder(borrows))
  }

  /** `row` is the row of its borrow, with the title of the borrowed book. */
  predicate ShowsBorrow(row: BorrowRow, borrows: map<int, Borrow>, books: map<int, Book>)
  {
    && row.id in borrows
    && var b := borrows[row.id];
       && b.bookId in books
       && row.title == books[b.bookId].title
       && row.borrower == b.borrower
       && row.dateBorrowed == b.dateBorrowed
       && row.returnDate == b.returnDate
  }

  function BorrowRowOf(borrows: map<int, Borrow>, books: map<int, Book>, id: int): (row: BorrowRow)
    requires id in borrows && borrows[id].bookId in books
    ensures row.id == id && ShowsBorrow(row, borrows, books)
  {
    var b := borrows[id];
    BorrowRow(id, books[b.bookId].title, b.borrower, b.dateBorrowed, b.returnDate)
  }

  predicate AllJoinable(ids: seq<int>, borrows: map<int, Borrow>, books: map<int, Book>)
  {
    forall k :: 0 <= k < |ids| ==> ids[k] in borrows && borrows[ids[k]].bookId in books
  }

  /** The rows of a sequence of BorrowIDs, in the same order. */
  function RowsOf(ids: seq<int>, borrows: map<int, Borrow>, books: map<int, Book>): (r: seq<BorrowRow>)
    requires AllJoinable(ids, borrows, books)
    ensures |r| == |ids|
    ensures forall k :: 0 <= k < |ids| ==> r[k] == BorrowRowOf(borrows, books, ids[k])
  {
    if ids == [] then []
    else [BorrowRowOf(borrows, books, ids[0])] + RowsOf(ids[1..], borrows, books)
  }

  /** The borrow list: the outstanding borrows when `onlyOutstanding`,
      otherwise the whole history; newest first, then by BorrowID. */
  function ListBorrows(borrows: map<int, Borrow>, books: map<int, Book>, onlyOutstanding: bool): (r: seq<BorrowRow>)
    ensures |r| == |ListedBorrows(borrows, books, onlyOutstanding)|
    ensures forall k :: 0 <= k < |r| ==> ShowsBorrow(r[k], borrows, books)
    ensures onlyOutstanding ==> forall k :: 0 <= k < |r| ==> r[k].returnDate.None?
    ensures forall id :: id in borrows && borrows[id].bookId in books && (onlyOutstanding ==> IsOpen(borrows[id])) ==>
              exists k :: 0 <= k < |r| && r[k].id == id
    ensures forall k, l :: 0 <= k < l < |r| ==>
              r[k].dateBorrowed > r[l].dateBorrowed || (r[k].dateBorrowed == r[l].dateBorrowed && r[k].id < r[l].id)
  {
    var ids := BorrowIds(borrows, books, onlyOutstanding);
    IdsJoinable(borrows, books, onlyOutstanding, ids);
    var r := RowsOf(ids, borrows, books);
    BorrowRowsFollowIds(borrows, books, onlyOutstanding, ids, r);
    r
  }

  lemma IdsJoinable(borrows: map<int, Borrow>, books: map<int, Book>, onlyOutstanding: bool, ids: seq<int>)
    requires forall x :: x in ids <==> x in ListedBorrows(borrows, books, onlyOutstanding)
    ensures AllJoinable(ids, borrows, books)
  {
    forall k | 0 <= k < |ids| ensures ids[k] in borrows && borrows[ids[k]].bookId in books {
      var x := ids[k];
      assert x in ids;
    }
  }

  lemma BorrowRowsFollowIds(borrows: map<int, Borrow>, books: map<int, Book>, onlyOutstanding: bool,
                            ids: seq<int>, r: seq<BorrowRow>)
    requires forall x :: x in ids <==> x in ListedBorrows(borrows, books, onlyOutstanding)
    requires SortedBy(ids, BorrowOrder(borrows))
    requires AllJoinable(ids, borrows, books)
    requires |r| == |ids| && forall k :: 0 <= k < |ids| ==> r[k] == BorrowRowOf(borrows, books, ids[k])
    ensures forall k :: 0 <= k < |r| ==> ShowsBorrow(r[k], borrows, books)
    ensures onlyOutstanding ==> forall k :: 0 <= k < |r| ==> r[k].returnDate.None?
    ensures forall id :: id in borrows && borrows[id].bookId in books && (onlyOutstanding ==> IsOpen(borrows[id])) ==>
              exists k :: 0 <= k < |r| && r[k].id == id
    ensures forall k, l :: 0 <= k < l < |r| ==>
              r[k].dateBorrowed > r[l].dateBorrowed || (r[k].dateBorrowed == r[l].dateBorrowed && r[k].id < r[l].id)
  {
    forall k | 0 <= k < |r| ensures ShowsBorrow(r[k], borrows, books) && (onlyOutstanding ==> r[k].returnDate.None?) {
      var x := ids[k];
      assert x in ids;
      assert r[k] == BorrowRowOf(borrows, books, x);
    }
    forall id | id in borrows && borrows[id].bookId in books && (onlyOutstanding ==> IsOpen(borrows[id]))
      ensures exists k :: 0 <= k < |r| && r[k].id == id
    {
      assert id in ListedBorrows(borrows, books, onlyOutstanding);
      assert id in ids;
      var k :| 0 <= k < |ids| && ids[k] == id;
      assert r[k].id == id;
    }
    forall k, l | 0 <= k < l < |r|
      ensures r[k].dateBorrowed > r[l].dateBorrowed || (r[k].dateBorrowed == r[l].dateBorrowed && r[k].id < r[l].id)
    {
      assert BorrowOrder(borrows)(ids[k], ids[l]);
    }
  }

  // --- Outstanding borrows against the history ---

  /** The rows of a list whose return date is null, in list order. */
  function OpenRows(rows: seq<BorrowRow>): (r: seq<BorrowRow>)
  {
    if rows == [] then []
    else (if rows[0].returnDate.None? then [rows[0]] else []) + OpenRows(rows[1..])
  }

  /** The open BorrowIDs of a sequence, in the same order. */
  function OpenIds(ids: seq<int>, borrows: map<int, Borrow>): (r: seq<int>)
    requires forall k :: 0 <= k < |ids| ==> ids[k] in borrows
    ensures forall x :: x in r <==> x in ids && x in borrows && IsOpen(borrows[x])
  {
    if ids == [] then []
    else
      var rest := OpenIds(ids[1..], borrows);
      var x := ids[0];
      assert forall y :: y in ids <==> y == x || y in ids[1..];
      (if IsOpen(borrows[x]) then [x] else []) + rest
  }

  lemma {:induction false} OpenIdsSorted(ids: seq<int>, borrows: map<int, Borrow>, less: (int, int) -> bool)
    requires forall k :: 0 <= k < |ids| ==> ids[k] in borrows
    requires SortedBy(ids, less)
    ensures SortedBy(OpenIds(ids, borrows), less)
  {
    if ids != [] {
      var x := ids[0];
      var tail := ids[1..];
      OpenIdsSorted(tail, borrows, less);
      var rest := OpenIds(tail, borrows);
      assert OpenIds(ids, borrows) == (if IsOpen(borrows[x]) then [x] else []) + rest;
      forall j | 0 <= j < |rest| ensures less(x, rest[j]) {
        var y := rest[j];
        assert y in rest;
        assert y in tail;
        var i :| 0 <= i < |tail| && tail[i] == y;
        assert ids[i + 1] == y;
      }
    }
  }

  lemma {:induction false} RowsOfOpenIds(ids: seq<int>, borrows: map<int, Borrow>, books: map<int, Book>)
    requires AllJoinable(ids, borrows, books)
    ensures AllJoinable(OpenIds(ids, borrows), borrows, books)
    ensures RowsOf(OpenIds(ids, borrows), borrows, books) == OpenRows(RowsOf(ids, borrows, books))
  {
    var open := OpenIds(ids, borrows);
    forall k | 0 <= k < |open| ensures open[k] in borrows && borrows[open[k]].bookId in books {
      var y := open[k];
      assert y in open;
      assert y in ids;
      var i :| 0 <= i < |ids| && ids[i] == y;
    }
    if ids != [] {
      var x := ids[0];
      var tail := ids[1..];
      assert AllJoinable(tail, borrows, books);
      RowsOfOpenIds(tail, borrows, books);
      var rows := RowsOf(ids, borrows, books);
      assert rows == [BorrowRowOf(borrows, books, x)] + RowsOf(tail, borrows, books);
      assert rows[1..] == RowsOf(tail, borrows, books);
      assert open == (if IsOpen(borrows[x]) then [x] else []) + OpenIds(tail, borrows);
      if IsOpen(borrows[x]) {
        assert RowsOf(open, borrows, books) == [BorrowRowOf(borrows, books, x)] + RowsOf(OpenIds(tail, borrows), borrows, books);
      } else {
        assert open == OpenIds(tail, borrows);
      }
    }
  }

  /** The outstanding list is exactly the history with the returned rows
      left out, in the same order. */
  lemma OutstandingIsOpenHistory(borrows: map<int, Borrow>, books: map<int, Book>)
    ensures ListBorrows(borrows, books, true) == OpenRows(ListBorrows(borrows, books, false))
  {
    var history := BorrowIds(borrows, books, false);
    IdsJoinable(borrows, books, false, history);
    var open := OpenIds(history, borrows);
    var listed := ListedBorrows(borrows, books, true);
    assert forall x :: x in open <==> x in listed;
    OpenIdsSorted(history, borrows, BorrowOrder(borrows));
    BorrowOrderTotal(borrows, listed);
    SortedUnique(listed, BorrowOrder(borrows), open, BorrowIds(borrows, books, true));
    RowsOfOpenIds(history, borrows, books);
  }

  /** The only sequence of the listed BorrowIDs ordered newest first (then
      by BorrowID) is the one `ListBorrows` shows. */
  lemma {:induction false} BorrowListUnique(borrows: map<int, Borrow>, books: map<int, Book>, onlyOutstanding: bool,
                                            ids: seq<int>)
    requires forall x :: x in ids <==> x in ListedBorrows(borrows, books, onlyOutstanding)
    requires SortedBy(ids, BorrowOrder(borrows))
    ensures ids == BorrowIds(borrows, books, onlyOutstanding)
  {
    var s := ListedBorrows(borrows, books, onlyOutstanding);
    BorrowOrderTotal(borrows, s);
    SortedUnique(s, BorrowOrder(borrows), ids, BorrowIds(borrows, books, onlyOutstanding));
  }
}
