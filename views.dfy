/** The catalogue's read queries: the book list (left join of Books with
    Authors, ordered by title), the author list (ordered by name) and the
    borrow lists (inner join of Borrows with Books, ordered by date borrowed,
    newest first; either only the outstanding borrows or the whole history).

    The store's ORDER BY leaves the order of equal keys open. Here equal
    keys are ordered by id, ascending, so that each listing is one fixed
    sequence determined by the tables alone.
 */
module Views {
  import opened Catalog
  import opened Ordering

  // --- Books ---

  datatype BookRow = BookRow(id: int, title: string, pubYear: Option<int>, author: string)

  /** What the book list shows when a book has no author row to show. */
  const UnknownAuthor: string := "Unknown Author"

  /** The author column of the left join: the author's name, or the
      placeholder when there is no author, the AuthorID does not exist any
      more, or the name is empty. */
  function AuthorColumn(authors: map<int, Author>, authorId: Option<int>): string
  {
    if authorId.Some? && authorId.value in authors && authors[authorId.value].name != "" then
      authors[authorId.value].name
    else
      UnknownAuthor
  }

  predicate BookBefore(books: map<int, Book>, i: int, j: int)
  {
    i in books && j in books &&
    (TextLess(books[i].title, books[j].title) || (books[i].title == books[j].title && i < j))
  }

  function BookOrder(books: map<int, Book>): (int, int) -> bool
  {
    (i, j) => BookBefore(books, i, j)
  }

  lemma BookOrderTotal(books: map<int, Book>)
    ensures StrictTotalOn(books.Keys, BookOrder(books))
  {
    forall x | x in books ensures !BookBefore(books, x, x) {
      TextLessIrreflexive(books[x].title);
    }
    forall x, y, z | x in books && y in books && z in books && BookBefore(books, x, y) && BookBefore(books, y, z)
      ensures BookBefore(books, x, z)
    {
      if TextLess(books[x].title, books[y].title) && TextLess(books[y].title, books[z].title) {
        TextLessTransitive(books[x].title, books[y].title, books[z].title);
      }
    }
    forall x, y | x in books && y in books && x != y
      ensures BookBefore(books, x, y) || BookBefore(books, y, x)
    {
      if books[x].title != books[y].title {
        TextLessTotal(books[x].title, books[y].title);
      }
    }
  }

  /** The BookIDs in list order. */
  function BookIds(books: map<int, Book>): (ids: seq<int>)
    ensures |ids| == |books|
    ensures forall x :: x in ids <==> x in books
    ensures SortedBy(ids, BookOrder(books))
  {
    BookOrderTotal(books);
    var ids := SortBy(books.Keys, BookOrder(books));
    assert |books.Keys| == |books|;
    ids
  }

  /** `row` is the left-join row of its book: the book's title and year,
      and the author's name or the placeholder when there is none. */
  predicate ShowsBook(row: BookRow, books: map<int, Book>, authors: map<int, Author>)
  {
    && row.id in books
    && row.title == books[row.id].title
    && row.pubYear == books[row.id].pubYear
    && var a := books[row.id].authorId;
       if a.Some? && a.value in authors && authors[a.value].name != "" then
         row.author == authors[a.value].name
       else
         row.author == UnknownAuthor
  }

  function BookRowOf(books: map<int, Book>, authors: map<int, Author>, id: int): (row: BookRow)
    requires id in books
    ensures row.id == id && ShowsBook(row, books, authors)
  {
    BookRow(id, books[id].title, books[id].pubYear, AuthorColumn(authors, books[id].authorId))
  }

  /** All books, ordered by title (then BookID), each with its author. */
  function ListBooks(books: map<int, Book>, authors: map<int, Author>): (r: seq<BookRow>)
    ensures |r| == |books|
    ensures forall id :: id in books ==> exists k :: 0 <= k < |r| && r[k].id == id
    ensures forall k :: 0 <= k < |r| ==> ShowsBook(r[k], books, authors)
    ensures forall k, l :: 0 <= k < l < |r| ==>
              TextLess(r[k].title, r[l].title) || (r[k].title == r[l].title && r[k].id < r[l].id)
  {
    var ids := BookIds(books);
    var r := seq(|ids|, k requires 0 <= k < |ids| => BookRowOf(books, authors, ids[k]));
    BookRowsFollowIds(books, authors, ids, r);
    r
  }

  lemma BookRowsFollowIds(books: map<int, Book>, authors: map<int, Author>, ids: seq<int>, r: seq<BookRow>)
    requires forall x :: x in ids <==> x in books
    requires SortedBy(ids, BookOrder(books))
    requires |r| == |ids| && forall k :: 0 <= k < |ids| ==> ids[k] in books && r[k] == BookRowOf(books, authors, ids[k])
    ensures forall k :: 0 <= k < |r| ==> ShowsBook(r[k], books, authors)
    ensures forall id :: id in books ==> exists k :: 0 <= k < |r| && r[k].id == id
    ensures forall k, l :: 0 <= k < l < |r| ==>
              TextLess(r[k].title, r[l].title) || (r[k].title == r[l].title && r[k].id < r[l].id)
  {
  }

  /** The book list does not depend on how it is computed: the only
      sequence of all BookIDs ordered by (title, BookID) is the one
      `ListBooks` shows. */
  lemma {:induction false} BookListUnique(books: map<int, Book>, ids: seq<int>)
    requires forall x :: x in ids <==> x in books
    requires SortedBy(ids, BookOrder(books))
    ensures ids == BookIds(books)
  {
    BookOrderTotal(books);
    SortedUnique(books.Keys, BookOrder(books), ids, BookIds(books));
  }

  // --- Authors ---

  datatype AuthorRow = AuthorRow(id: int, name: string, birthYear: Option<int>)

  predicate AuthorBefore(authors: map<int, Author>, i: int, j: int)
  {
    i in authors && j in authors &&
    (TextLess(authors[i].name, authors[j].name) || (authors[i].name == authors[j].name && i < j))
  }

  function AuthorOrder(authors: map<int, Author>): (int, int) -> bool
  {
    (i, j) => AuthorBefore(authors, i, j)
  }

  lemma AuthorOrderTotal(authors: map<int, Author>)
    ensures StrictTotalOn(authors.Keys, AuthorOrder(authors))
  {
    forall x | x in authors ensures !AuthorBefore(authors, x, x) {
      TextLessIrreflexive(authors[x].name);
    }
    forall x, y, z | x in authors && y in authors && z in authors && AuthorBefore(authors, x, y) && AuthorBefore(authors, y, z)
      ensures AuthorBefore(authors, x, z)
    {
      if TextLess(authors[x].name, authors[y].name) && TextLess(authors[y].name, authors[z].name) {
        TextLessTransitive(authors[x].name, authors[y].name, authors[z].name);
      }
    }
    forall x, y | x in authors && y in authors && x != y
      ensures AuthorBefore(authors, x, y) || AuthorBefore(authors, y, x)
    {
      if authors[x].name != authors[y].name {
        TextLessTotal(authors[x].name, authors[y].name);
      }
    }
  }

  /** The AuthorIDs in list order. */
  function AuthorIds(authors: map<int, Author>): (ids: seq<int>)
    ensures |ids| == |authors|
    ensures forall x :: x in ids <==> x in authors
    ensures SortedBy(ids, AuthorOrder(authors))
  {
    AuthorOrderTotal(authors);
    var ids := SortBy(authors.Keys, AuthorOrder(authors));
    assert |authors.Keys| == |authors|;
    ids
  }

  /** `row` is the row of its author, all columns. */
  predicate ShowsAuthor(row: AuthorRow, authors: map<int, Author>)
  {
    row.id in authors && row.name == authors[row.id].name && row.birthYear == authors[row.id].birthYear
  }

  function AuthorRowOf(authors: map<int, Author>, id: int): (row: AuthorRow)
    requires id in authors
    ensures row.id == id && ShowsAuthor(row, authors)
  {
    AuthorRow(id, authors[id].name, authors[id].birthYear)
  }

  /** All authors, ordered by name (then AuthorID). */
  function ListAuthors(authors: map<int, Author>): (r: seq<AuthorRow>)
    ensures |r| == |authors|
    ensures forall id :: id in authors ==> exists k :: 0 <= k < |r| && r[k].id == id
    ensures forall k :: 0 <= k < |r| ==> ShowsAuthor(r[k], authors)
    ensures forall k, l :: 0 <= k < l < |r| ==>
              TextLess(r[k].name, r[l].name) || (r[k].name == r[l].name && r[k].id < r[l].id)
  {
    var ids := AuthorIds(authors);
    var r := seq(|ids|, k requires 0 <= k < |ids| => AuthorRowOf(authors, ids[k]));
    AuthorRowsFollowIds(authors, ids, r);
    r
  }

  lemma AuthorRowsFollowIds(authors: map<int, Author>, ids: seq<int>, r: seq<AuthorRow>)
    requires forall x :: x in ids <==> x in authors
    requires SortedBy(ids, AuthorOrder(authors))
    requires |r| == |ids| && forall k :: 0 <= k < |ids| ==> ids[k] in authors && r[k] == AuthorRowOf(authors, ids[k])
    ensures forall k :: 0 <= k < |r| ==> ShowsAuthor(r[k], authors)
    ensures forall id :: id in authors ==> exists k :: 0 <= k < |r| && r[k].id == id
    ensures forall k, l :: 0 <= k < l < |r| ==>
              TextLess(r[k].name, r[l].name) || (r[k].name == r[l].name && r[k].id < r[l].id)
  {
  }

  /** The only sequence of all AuthorIDs ordered by (name, AuthorID) is
      the one `ListAuthors` shows. */
  lemma {:induction false} AuthorListUnique(authors: map<int, Author>, ids: seq<int>)
    requires forall x :: x in ids <==> x in authors
    requires SortedBy(ids, AuthorOrder(authors))
    ensures ids == AuthorIds(authors)
  {
    AuthorOrderTotal(authors);
    SortedUnique(authors.Keys, AuthorOrder(authors), ids, AuthorIds(authors));
  }
}
