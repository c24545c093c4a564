/** Orderings used by the catalogue's listings.

    SQLite's default BINARY collation compares text byte by byte in UTF-8,
    which orders strings exactly as lexicographic order on code points does:
    that is `TextLess`. The listings sort the ids of a table by a strict total
    order that ends in the id itself, so the order of every listing is fully
    determined by the table contents.
 */
module Ordering {

  /** Lexicographic order on code points (BINARY collation). */
  predicate TextLess(a: string, b: string)
    decreases |a|
  {
    if |a| == 0 then |b| > 0
    else if |b| == 0 then false
    else if a[0] != b[0] then a[0] < b[0]
    else TextLess(a[1..], b[1..])
  }

  lemma {:induction false} TextLessIrreflexive(a: string)
    ensures !TextLess(a, a)
    decreases |a|
  {
    if |a| > 0 {
      TextLessIrreflexive(a[1..]);
    }
  }

  lemma {:induction false} TextLessTransitive(a: string, b: string, c: string)
    requires TextLess(a, b) && TextLess(b, c)
    ensures TextLess(a, c)
    decreases |a|
  {
    if |a| > 0 && a[0] == b[0] && b[0] == c[0] {
      TextLessTransitive(a[1..], b[1..], c[1..]);
    }
  }

  lemma {:induction false} TextLessTotal(a: string, b: string)
    requires a != b
    ensures TextLess(a, b) || TextLess(b, a)
    decreases |a|
  {
    if |a| > 0 && |b| > 0 && a[0] == b[0] {
      assert a == [a[0]] + a[1..] && b == [b[0]] + b[1..];
      TextLessTotal(a[1..], b[1..]);
    }
  }

  lemma EmptyIfNoMember(s: set<int>)
    requires forall x :: x !in s
    ensures s == {}
  {
    assert forall x :: x in s <==> x in {};
  }

  lemma NonEmptyHasMember(s: set<int>)
    requires s != {}
    ensures exists x :: x in s
  {
    if forall x :: x !in s {
      EmptyIfNoMember(s);
      assert false;
    }
  }

  /** `less` is a strict total order on the elements of `s`. */
  ghost predicate StrictTotalOn(s: set<int>, less: (int, int) -> bool)
  {
    && (forall x :: x in s ==> !less(x, x))
    && (forall x, y, z :: x in s && y in s && z in s && less(x, y) && less(y, z) ==> less(x, z))
    && (forall x, y :: x in s && y in s && x != y ==> less(x, y) || less(y, x))
  }

  /** `m` comes before every other element of `s`. */
  predicate IsLeast(m: int, s: set<int>, less: (int, int) -> bool)
  {
    m in s && forall y :: y in s && y != m ==> less(m, y)
  }

  predicate SortedBy(r: seq<int>, less: (int, int) -> bool)
  {
    forall i, j :: 0 <= i < j < |r| ==> less(r[i], r[j])
  }

  /** A finite non-empty set has a least element under a strict total order. */
  lemma {:induction false} LeastExists(s: set<int>, less: (int, int) -> bool)
    requires s != {} && StrictTotalOn(s, less)
    ensures exists m :: IsLeast(m, s, less)
    decreases s
  {
    NonEmptyHasMember(s);
    var x :| x in s;
    var rest := s - {x};
    assert forall y :: y in s && y != x ==> y in rest;
    if exists y :: y in rest {
      LeastExists(rest, less);
      var m :| IsLeast(m, rest, less);
      if less(m, x) {
        assert IsLeast(m, s, less);
      } else {
        assert IsLeast(x, s, less);
      }
    } else {
      assert IsLeast(x, s, less);
    }
  }

  /** The least element is unique. */
  lemma LeastUnique(s: set<int>, less: (int, int) -> bool, a: int, b: int)
    requires StrictTotalOn(s, less)
    requires IsLeast(a, s, less) && IsLeast(b, s, less)
    ensures a == b
  {
  }

  /** A sequence and a set with the same members are empty together. */
  lemma SameMembersEmptyTogether(r: seq<int>, s: set<int>)
    requires forall x :: x in r <==> x in s
    ensures |r| == 0 <==> s == {}
  {
    if |r| > 0 {
      var y := r[0];
      assert y in r;
      assert y in s;
    }
    if s != {} {
      NonEmptyHasMember(s);
      var y :| y in s;
      assert y in r;
    }
  }

  /** The elements of `s` in increasing `less` order. */
  function SortBy(s: set<int>, less: (int, int) -> bool): (r: seq<int>)
    requires StrictTotalOn(s, less)
    ensures |r| == |s|
    ensures forall x :: x in r <==> x in s
    ensures SortedBy(r, less)
    decreases s
  {
    if s == {} then []
    else
      LeastExists(s, less);
      var m :| IsLeast(m, s, less);
      var tail := SortBy(s - {m}, less);
      assert forall j :: 0 <= j < |tail| ==> less(m, tail[j]) by {
        forall j | 0 <= j < |tail| ensures less(m, tail[j]) {
          assert tail[j] in tail;
          assert tail[j] in s && tail[j] != m;
        }
      }
      [m] + tail
  }

  /** Two sequences sorted by the same strict total order over the same
      elements are equal: the listing is independent of how it is computed. */
  lemma {:induction false} SortedUnique(s: set<int>, less: (int, int) -> bool, r1: seq<int>, r2: seq<int>)
    requires StrictTotalOn(s, less)
    requires forall x :: x in r1 <==> x in s
    requires forall x :: x in r2 <==> x in s
    requires SortedBy(r1, less) && SortedBy(r2, less)
    ensures r1 == r2
    decreases |r1|
  {
    SameMembersEmptyTogether(r1, s);
    SameMembersEmptyTogether(r2, s);
    if |r1| == 0 {
      assert r1 == [] && r2 == [];
    } else {
      assert IsLeast(r1[0], s, less) by {
        forall y | y in s && y != r1[0] ensures less(r1[0], y) {
          var j :| 0 <= j < |r1| && r1[j] == y;
        }
      }
      assert IsLeast(r2[0], s, less) by {
        forall y | y in s && y != r2[0] ensures less(r2[0], y) {
          var j :| 0 <= j < |r2| && r2[j] == y;
        }
      }
      var m := r1[0];
      LeastUnique(s, less, m, r2[0]);
      forall x ensures x in r1[1..] <==> x in s - {m} {
        if x in r1[1..] {
          var j :| 1 <= j < |r1| && r1[j] == x;
          assert less(m, x);
        }
        if x in s - {m} {
          var j :| 0 <= j < |r1| && r1[j] == x;
        }
      }
      forall x ensures x in r2[1..] <==> x in s - {m} {
        if x in r2[1..] {
          var j :| 1 <= j < |r2| && r2[j] == x;
          assert less(m, x);
        }
        if x in s - {m} {
          var j :| 0 <= j < |r2| && r2[j] == x;
        }
      }
      SortedUnique(s - {m}, less, r1[1..], r2[1..]);
      assert r1 == [m] + r1[1..] && r2 == [m] + r2[1..];
    }
  }
}
