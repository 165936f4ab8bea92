/** Listing a finite set in a strict total order. */
module Sorting {

  ghost predicate StrictTotal<T(!new)>(less: (T, T) -> bool) {
    && (forall x :: !less(x, x))
    && (forall x, y, z :: less(x, y) && less(y, z) ==> less(x, z))
    && (forall x, y :: x == y || less(x, y) || less(y, x))
  }

  ghost predicate Ascending<T(!new)>(less: (T, T) -> bool, s: seq<T>) {
    forall i, j :: 0 <= i < j < |s| ==> less(s[i], s[j])
  }

  ghost predicate Lists<T(!new)>(less: (T, T) -> bool, s: seq<T>, items: set<T>) {
    && Ascending(less, s)
    && (forall x :: x in s <==> x in items)
  }

  ghost predicate IsLeast<T(!new)>(less: (T, T) -> bool, x: T, items: set<T>) {
    x in items && forall y :: y in items && y != x ==> less(x, y)
  }

  lemma {:induction false} LeastExists<T(!new)>(less: (T, T) -> bool, items: set<T>)
    requires StrictTotal(less) && items != {}
    ensures exists x :: IsLeast(less, x, items)
  {
    var x :| x in items;
    if items == {x} {
      assert IsLeast(less, x, items);
    } else {
      LeastExists(less, items - {x});
      var y :| IsLeast(less, y, items - {x});
      assert IsLeast(less, if less(y, x) then y else x, items);
    }
  }

  ghost function Least<T(!new)>(less: (T, T) -> bool, items: set<T>): (x: T)
    requires StrictTotal(less) && items != {}
    ensures IsLeast(less, x, items)
  {
    LeastExists(less, items);
    var x :| IsLeast(less, x, items);
    x
  }

  /** The elements of `items`, each once, in ascending order. */
  ghost function SortBy<T(!new)>(less: (T, T) -> bool, items: set<T>): (s: seq<T>)
    requires StrictTotal(less)
    ensures Lists(less, s, items)
    ensures |s| == |items|
  {
    if items == {} then []
    else
      var x := Least(less, items);
      [x] + SortBy(less, items - {x})
  }

  /** Only one ascending listing of a set exists. */
  lemma {:induction false} ListingIsUnique<T(!new)>(less: (T, T) -> bool, s: seq<T>, t: seq<T>, items: set<T>)
    requires StrictTotal(less)
    requires Lists(less, s, items) && Lists(less, t, items)
    ensures s == t
    decreases |s|
  {
    EmptyListing(less, s, items);
    EmptyListing(less, t, items);
    if items != {} {
      FirstIsLeast(less, s, items);
      FirstIsLeast(less, t, items);
      LeastIsUnique(less, s[0], t[0], items);
      ListingIsUnique(less, s[1..], t[1..], items - {s[0]});
      assert s == [s[0]] + s[1..] && t == [t[0]] + t[1..];
    }
  }

  lemma LeastIsUnique<T(!new)>(less: (T, T) -> bool, x: T, y: T, items: set<T>)
    requires StrictTotal(less) && IsLeast(less, x, items) && IsLeast(less, y, items)
    ensures x == y
  {
  }

  lemma EmptyListing<T(!new)>(less: (T, T) -> bool, s: seq<T>, items: set<T>)
    requires Lists(less, s, items)
    ensures s == [] <==> items == {}
  {
    if s != [] {
      assert s[0] in items;
    }
  }

  lemma FirstIsLeast<T(!new)>(less: (T, T) -> bool, s: seq<T>, items: set<T>)
    requires StrictTotal(less) && Lists(less, s, items) && s != []
    ensures IsLeast(less, s[0], items)
    ensures Lists(less, s[1..], items - {s[0]})
  {
    forall x | x in s[1..] ensures less(s[0], x) {
      var i :| 0 <= i < |s| - 1 && s[1..][i] == x;
      assert s[i + 1] == x;
    }
    assert forall x :: x in s <==> x == s[0] || x in s[1..];
  }
}
