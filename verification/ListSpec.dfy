/** What the operations of a list do to its items and to the iterators on it. An iterator
    is two positions: of the link it would insert behind, and of the item it returns next. */
module ListSpec {
  import opened Sequences

  /** An iterator: prev is the link into position p, pos the node at position k. */
  datatype Cursor = Cursor(p: nat, k: nat)

  /** The assertion at the end of list_node_create and list_node_destroy: pos is what the
      link leads to, or the node after it. */
  predicate Adjacent(c: Cursor, n: nat) {
    c.p <= c.k <= c.p + 1 && c.k <= n
  }

  // ---- repair of one cursor ----

  /** A node is put in at position j. */
  function Inserted(c: Cursor, j: nat): Cursor {
    if c.p >= j then Cursor(c.p + 1, c.k + 1) else c
  }

  /** The node at position j is taken out. */
  function Removed(c: Cursor, j: nat): Cursor {
    if c.k == j then Cursor(j, j)
    else Cursor(if c.p > j then c.p - 1 else c.p, if c.k > j then c.k - 1 else c.k)
  }

  /** list_next on a list of n items. */
  function Advanced(c: Cursor, n: nat): Cursor {
    if c.k < n then Cursor(c.k, c.k + 1) else Cursor(c.k, c.k)
  }

  lemma RepairsAdjacent(c: Cursor, n: nat, j: nat)
    requires Adjacent(c, n) && j <= n
    ensures Adjacent(Inserted(c, j), n + 1)
    ensures j < n ==> Adjacent(Removed(c, j), n - 1)
    ensures Adjacent(Advanced(c, n), n)
  {}

  /** list_remove acts as long as p < k. That ends exactly when the item it would remove,
      or the one after it, is taken out by other means. */
  lemma RemovableUntil(c: Cursor, n: nat, j: nat)
    requires Adjacent(c, n) && c.p < c.k
    ensures j <= n ==> Inserted(c, j).p < Inserted(c, j).k
    ensures j < n ==> (Removed(c, j).p < Removed(c, j).k <==> j != c.p && j != c.k)
  {}

  // ---- sequences ----

  function Filter<T>(s: seq<T>, p: T -> bool): (r: seq<T>)
    ensures forall x :: x in r ==> x in s && p(x)
    ensures forall x :: x in s && p(x) ==> x in r
  {
    if s == [] then []
    else
      assert s == [s[0]] + s[1..];
      (if p(s[0]) then [s[0]] else []) + Filter(s[1..], p)
  }

  lemma {:induction false} FilterConcat<T>(a: seq<T>, b: seq<T>, p: T -> bool)
    ensures Filter(a + b, p) == Filter(a, p) + Filter(b, p)
  {
    if a == [] {
      assert a + b == b;
    } else {
      assert (a + b)[1..] == a[1..] + b;
      FilterConcat(a[1..], b, p);
    }
  }

  lemma {:induction false} FilterNone<T>(s: seq<T>, p: T -> bool)
    requires forall x :: x in s ==> !p(x)
    ensures Filter(s, p) == []
  {
    if s != [] {
      FilterNone(s[1..], p);
    }
  }

  lemma {:induction false} FilterSame<T>(s: seq<T>, p: T -> bool, q: T -> bool)
    requires forall x :: x in s ==> p(x) == q(x)
    ensures Filter(s, p) == Filter(s, q)
  {
    if s != [] {
      FilterSame(s[1..], p, q);
    }
  }

  /** The items when those that match have been deleted from position j on. */
  function Kept<T>(s: seq<T>, j: nat, f: T -> bool): seq<T>
    requires j <= |s|
  {
    s[..j] + Filter(s[j..], x => !f(x))
  }

  lemma KeptStep<T>(s: seq<T>, j: nat, f: T -> bool)
    requires j < |s|
    ensures f(s[j]) ==> Kept(RemoveAt(s, j), j, f) == Kept(s, j, f)
    ensures !f(s[j]) ==> Kept(s, j + 1, f) == Kept(s, j, f)
  {
    assert s[j..][1..] == s[j + 1..];
    assert RemoveAt(s, j)[..j] == s[..j] && RemoveAt(s, j)[j..] == s[j + 1..];
    assert s[..j + 1] == s[..j] + [s[j]];
  }

  lemma KeptEnds<T>(s: seq<T>, f: T -> bool)
    ensures Kept(s, 0, f) == Filter(s, x => !f(x)) && Kept(s, |s|, f) == s
  {
    assert s[0..] == s && s[..|s|] == s;
  }

  // ---- list_sort ----

  type Compare<!T> = (T, T) -> int

  /** The first position whose item is greater than x. */
  function FirstAbove<T>(s: seq<T>, x: T, f: Compare<T>): (q: nat)
    ensures q <= |s| && (q < |s| ==> f(x, s[q]) < 0) && forall i :: 0 <= i < q ==> f(x, s[i]) >= 0
  {
    if s == [] || f(x, s[0]) < 0 then 0 else 1 + FirstAbove(s[1..], x, f)
  }

  /** One round of list_sort: an item not below the last one stays, another goes to the
      first place before a greater item. */
  function Placed<T>(s: seq<T>, x: T, f: Compare<T>): seq<T> {
    if s == [] || f(x, s[|s| - 1]) >= 0 then s + [x] else InsertAt(s, FirstAbove(s, x, f), x)
  }

  function Sorting<T>(s: seq<T>, f: Compare<T>): (r: seq<T>)
    ensures |r| == |s|
  {
    if s == [] then [] else Placed(Sorting(s[..|s| - 1], f), s[|s| - 1], f)
  }

  lemma FirstAboveIs<T>(s: seq<T>, x: T, f: Compare<T>, q: nat)
    requires q < |s| && f(x, s[q]) < 0 && forall i :: 0 <= i < q ==> f(x, s[i]) >= 0
    ensures FirstAbove(s, x, f) == q
  {}

  /** A round of list_sort on the items sorted so far and the next one. */
  lemma SortingRound<T>(s: seq<T>, a: nat, f: Compare<T>)
    requires a + 1 < |s|
    ensures Sorting(s[..a + 2], f) == Placed(Sorting(s[..a + 1], f), s[a + 1], f)
  {
    assert s[..a + 2][..a + 1] == s[..a + 1];
  }

  lemma SortingShort<T>(s: seq<T>, f: Compare<T>)
    requires |s| <= 1
    ensures Sorting(s, f) == s
  {
    if |s| == 1 {
      assert s[..0] == [];
      assert Sorting(s[..0], f) == [];
      assert [] + [s[0]] == s;
    }
  }

  ghost predicate Preorder<T(!new)>(f: Compare<T>) {
    && (forall x, y :: f(x, y) < 0 <==> f(y, x) > 0)
    && (forall x, y, z :: f(x, y) <= 0 && f(y, z) <= 0 ==> f(x, z) <= 0)
  }

  predicate InOrder<T>(s: seq<T>, f: Compare<T>) {
    forall i, j :: 0 <= i < j < |s| ==> f(s[i], s[j]) <= 0
  }

  /** Items that the order does not tell apart from z, as they come. */
  function Ties<T>(s: seq<T>, z: T, f: Compare<T>): seq<T> {
    Filter(s, x => f(x, z) == 0)
  }

  lemma PlacedMeaning<T(!new)>(s: seq<T>, x: T, f: Compare<T>)
    requires Preorder(f) && InOrder(s, f)
    ensures InOrder(Placed(s, x, f), f)
    ensures multiset(Placed(s, x, f)) == multiset(s) + multiset{x}
    ensures forall z :: Ties(Placed(s, x, f), z, f) == Ties(s + [x], z, f)
  {
    hide Ties, FirstAbove, Preorder, InOrder;
    if s == [] || f(x, s[|s| - 1]) >= 0 {
      AboveAll(s, x, f);
      InsertLast(s, x, f);
    } else {
      var q := FirstAbove(s, x, f);
      PlacedOrder(s, x, q, f);
      assert s == s[..q] + s[q..];
      forall z ensures Ties(Placed(s, x, f), z, f) == Ties(s + [x], z, f) {
        PlacedTies(s, x, q, f, z);
      }
    }
  }

  lemma InsertLast<T>(s: seq<T>, x: T, f: Compare<T>)
    requires InOrder(s, f) && forall i :: 0 <= i < |s| ==> f(s[i], x) <= 0
    ensures InOrder(s + [x], f)
  {}

  lemma PlacedOrder<T(!new)>(s: seq<T>, x: T, q: nat, f: Compare<T>)
    requires Preorder(f) && InOrder(s, f) && q < |s| && f(x, s[q]) < 0
    requires forall i :: 0 <= i < q ==> f(x, s[i]) >= 0
    ensures InOrder(InsertAt(s, q, x), f)
  {
    var r := InsertAt(s, q, x);
    forall i, j | 0 <= i < j < |r| ensures f(r[i], r[j]) <= 0 {
      hide Preorder, InOrder, InsertAt;
      PlacedAt(s, q, x, i);
      PlacedAt(s, q, x, j);
      if i < q && j == q {
        Opposite(f, x, s[i]);
      } else if i == q {
        if j - 1 > q { OrderAt(s, f, q, j - 1); }
        Through(f, x, s[q], s[j - 1]);
      } else {
        OrderAt(s, f, if i < q then i else i - 1, if j < q then j else j - 1);
      }
    }
  }

  lemma PlacedAt<T>(s: seq<T>, q: nat, x: T, i: nat)
    requires q <= |s| && i <= |s|
    ensures |InsertAt(s, q, x)| == |s| + 1
    ensures InsertAt(s, q, x)[i] == if i < q then s[i] else if i == q then x else s[i - 1]
  {}

  lemma OrderAt<T>(s: seq<T>, f: Compare<T>, i: nat, j: nat)
    requires InOrder(s, f) && i < j < |s|
    ensures f(s[i], s[j]) <= 0
  {}

  lemma Opposite<T(!new)>(f: Compare<T>, x: T, y: T)
    requires Preorder(f) && f(x, y) >= 0
    ensures f(y, x) <= 0
  {}

  lemma Through<T(!new)>(f: Compare<T>, x: T, y: T, z: T)
    requires Preorder(f) && f(x, y) <= 0 && (y == z || f(y, z) <= 0)
    ensures f(x, z) <= 0
  {}

  /** An item passes only greater ones, so no tie changes places. */
  lemma PlacedTies<T(!new)>(s: seq<T>, x: T, q: nat, f: Compare<T>, z: T)
    requires Preorder(f) && InOrder(s, f) && q < |s| && f(x, s[q]) < 0
    ensures Ties(InsertAt(s, q, x), z, f) == Ties(s + [x], z, f)
  {
    hide Filter, Preorder, InOrder;
    var p := x => f(x, z) == 0;
    FilterConcat(s[..q] + [x], s[q..], p);
    FilterConcat(s[..q], [x], p);
    FilterConcat(s, [x], p);
    FilterConcat(s[..q], s[q..], p);
    assert s == s[..q] + s[q..];
    if p(x) {
      forall i | q <= i < |s| ensures !p(s[i]) {
        if i > q { OrderAt(s, f, q, i); }
        TieBelow(x, s[q], s[i], z, f);
      }
      FilterNone(s[q..], p);
    } else {
      FilterNone([x], p);
    }
  }

  lemma TieBelow<T(!new)>(x: T, y: T, u: T, z: T, f: Compare<T>)
    requires Preorder(f) && f(x, y) < 0 && (u == y || f(y, u) <= 0) && f(x, z) == 0
    ensures f(u, z) != 0
  {
    assert f(z, x) <= 0 && f(y, x) > 0;
    assert f(u, z) == 0 ==> f(u, x) <= 0;
    assert f(u, x) <= 0 ==> u == y || f(y, x) <= 0;
  }

  lemma TiesConcat<T>(a: seq<T>, b: seq<T>, z: T, f: Compare<T>)
    ensures Ties(a + b, z, f) == Ties(a, z, f) + Ties(b, z, f)
  {
    FilterConcat(a, b, x => f(x, z) == 0);
  }

  /** list_sort puts the items in order, keeps them all, and keeps ties as they were. */
  lemma {:induction false} SortingMeaning<T(!new)>(s: seq<T>, f: Compare<T>)
    requires Preorder(f)
    ensures InOrder(Sorting(s, f), f)
    ensures multiset(Sorting(s, f)) == multiset(s)
    ensures forall z :: Ties(Sorting(s, f), z, f) == Ties(s, z, f)
  {
    hide Filter, Preorder, Placed, Ties;
    if s != [] {
      var n := |s| - 1;
      var t := Sorting(s[..n], f);
      SortingMeaning(s[..n], f);
      PlacedMeaning(t, s[n], f);
      assert s == s[..n] + [s[n]];
      forall z ensures Ties(Sorting(s, f), z, f) == Ties(s, z, f) {
        TiesConcat(t, [s[n]], z, f);
        TiesConcat(s[..n], [s[n]], z, f);
      }
    }
  }

  /** The order by f, and by g among ties. */
  function Lex<T>(f: Compare<T>, g: Compare<T>): Compare<T> {
    (x, y) => if f(x, y) != 0 then f(x, y) else g(x, y)
  }

  lemma LexMeaning<T>(f: Compare<T>, g: Compare<T>, x: T, y: T)
    ensures Lex(f, g)(x, y) == if f(x, y) != 0 then f(x, y) else g(x, y)
  {}

  /** Sorting what is in the order of g by f gives the order by f and then by g. */
  lemma {:induction false} SortingThen<T(!new)>(s: seq<T>, g: Compare<T>, f: Compare<T>)
    requires Preorder(f) && InOrder(s, g)
    ensures InOrder(Sorting(s, f), Lex(f, g))
  {
    if s != [] {
      var n := |s| - 1;
      var t := Sorting(s[..n], f);
      SortingThen(s[..n], g, f);
      SortingMeaning(s[..n], f);
      hide Preorder;
      forall y | y in t ensures g(y, s[n]) <= 0 {
        assert y in multiset(s[..n]);
        var i :| 0 <= i < n && s[..n][i] == y;
        assert g(s[i], s[n]) <= 0;
      }
      PlacedThen(t, s[n], g, f);
    }
  }

  lemma InsertInOrder<T>(t: seq<T>, x: T, q: nat, h: Compare<T>)
    requires InOrder(t, h) && q <= |t|
    requires forall i :: 0 <= i < q ==> h(t[i], x) <= 0
    requires forall i :: q <= i < |t| ==> h(x, t[i]) <= 0
    ensures InOrder(InsertAt(t, q, x), h)
  {
    var r := InsertAt(t, q, x);
    assert forall i :: 0 <= i < |r| ==> r[i] == if i < q then t[i] else if i == q then x else t[i - 1];
  }

  lemma AboveAll<T(!new)>(t: seq<T>, x: T, f: Compare<T>)
    requires Preorder(f) && InOrder(t, f) && (t != [] ==> f(x, t[|t| - 1]) >= 0)
    ensures forall i :: 0 <= i < |t| ==> f(t[i], x) <= 0
  {
    forall i | 0 <= i < |t| ensures f(t[i], x) <= 0 {
      assert i == |t| - 1 || f(t[i], t[|t| - 1]) <= 0;
      assert f(t[|t| - 1], x) <= 0;
    }
  }

  lemma PlacedThen<T(!new)>(t: seq<T>, x: T, g: Compare<T>, f: Compare<T>)
    requires Preorder(f) && InOrder(t, f) && InOrder(t, Lex(f, g)) && forall y :: y in t ==> g(y, x) <= 0
    ensures InOrder(Placed(t, x, f), Lex(f, g))
  {
    hide FirstAbove, Preorder;
    var h := Lex(f, g);
    if t == [] || f(x, t[|t| - 1]) >= 0 {
      AboveAll(t, x, f);
      assert forall i :: 0 <= i < |t| ==> t[i] in t;
      InsertInOrder(t, x, |t|, h);
      assert InsertAt(t, |t|, x) == t + [x];
    } else {
      var q := FirstAbove(t, x, f);
      assert q < |t| by { assert f(x, t[|t| - 1]) < 0; }
      forall i | 0 <= i < q ensures h(t[i], x) <= 0 {
        TieOrBelow(t[i], x, f);
        assert t[i] in t;
      }
      forall i | q <= i < |t| ensures h(x, t[i]) <= 0 {
        assert i == q || f(t[q], t[i]) <= 0;
        StrictlyBelow(x, t[q], t[i], f);
      }
      InsertInOrder(t, x, q, h);
    }
  }

  lemma TieOrBelow<T(!new)>(y: T, x: T, f: Compare<T>)
    requires Preorder(f) && f(x, y) >= 0
    ensures f(y, x) <= 0
  {}

  lemma StrictlyBelow<T(!new)>(x: T, y: T, u: T, f: Compare<T>)
    requires Preorder(f) && f(x, y) < 0 && (u == y || f(y, u) <= 0)
    ensures f(x, u) < 0
  {
    assert f(u, x) <= 0 ==> u == y || f(y, x) <= 0;
    assert f(y, x) > 0;
  }

  // ---- sorting renamed items ----

  function MapSeq<T, U>(h: T -> U, s: seq<T>): (r: seq<U>)
    ensures |r| == |s| && forall i :: 0 <= i < |s| ==> r[i] == h(s[i])
  {
    seq(|s|, i requires 0 <= i < |s| => h(s[i]))
  }

  /** The two orders agree on items and their new names. */
  ghost predicate Carries<T(!new), U(!new)>(h: T -> U, f: Compare<T>, g: Compare<U>) {
    forall x, y :: g(h(x), h(y)) == f(x, y)
  }

  lemma {:induction false} FirstAboveMap<T(!new), U(!new)>(s: seq<T>, x: T, h: T -> U, f: Compare<T>, g: Compare<U>)
    requires Carries(h, f, g)
    ensures FirstAbove(MapSeq(h, s), h(x), g) == FirstAbove(s, x, f)
  {
    if s != [] && f(x, s[0]) >= 0 {
      assert MapSeq(h, s)[1..] == MapSeq(h, s[1..]);
      FirstAboveMap(s[1..], x, h, f, g);
    }
  }

  lemma PlacedMap<T(!new), U(!new)>(s: seq<T>, x: T, h: T -> U, f: Compare<T>, g: Compare<U>)
    requires Carries(h, f, g)
    ensures Placed(MapSeq(h, s), h(x), g) == MapSeq(h, Placed(s, x, f))
  {
    hide FirstAbove;
    FirstAboveMap(s, x, h, f, g);
    if s != [] {
      assert g(h(x), h(s[|s| - 1])) == f(x, s[|s| - 1]);
    }
    hide Carries;
    if s == [] || f(x, s[|s| - 1]) >= 0 {
      assert MapSeq(h, s + [x]) == MapSeq(h, s) + [h(x)];
    } else {
      InsertMap(s, FirstAbove(s, x, f), x, h);
    }
  }

  lemma InsertMap<T, U>(s: seq<T>, q: nat, x: T, h: T -> U)
    requires q <= |s|
    ensures MapSeq(h, InsertAt(s, q, x)) == InsertAt(MapSeq(h, s), q, h(x))
  {}

  lemma {:induction false} SortingMap<T(!new), U(!new)>(s: seq<T>, h: T -> U, f: Compare<T>, g: Compare<U>)
    requires Carries(h, f, g)
    ensures Sorting(MapSeq(h, s), g) == MapSeq(h, Sorting(s, f))
  {
    hide Placed, Carries;
    if s != [] {
      var n := |s| - 1;
      assert MapSeq(h, s)[..n] == MapSeq(h, s[..n]);
      SortingMap(s[..n], h, f, g);
      PlacedMap(Sorting(s[..n], f), s[n], h, f, g);
    }
  }
}
