/** Whole traversals: an iterator is advanced while items come and go through any handle,
    its own included. Items are told apart, as the pointers in a list are. */
module ListRuns {
  import opened Sequences
  import opened ListSpec

  datatype Event<T> =
    | Next                         // list_next on the observed iterator
    | Insert(j: nat, x: T)         // an item is put in at a position, by whatever operation
    | Remove(j: nat)               // the item at a position is taken out

  /** The list, the observed iterator, and what it has returned since it was created or
      reset. */
  datatype Run<T> = Run(items: seq<T>, at: Cursor, seen: seq<T>)

  predicate Legal<T(==)>(r: Run<T>, e: Event<T>, used: set<T>) {
    match e
    case Next => true
    case Insert(j, x) => j <= |r.items| && x !in used
    case Remove(j) => j < |r.items|
  }

  function Step<T>(r: Run<T>, e: Event<T>): Run<T> {
    match e
    case Next =>
      Run(r.items, Advanced(r.at, |r.items|), if r.at.k < |r.items| then r.seen + [r.items[r.at.k]] else r.seen)
    case Insert(j, x) =>
      if j <= |r.items| then Run(InsertAt(r.items, j, x), Inserted(r.at, j), r.seen) else r
    case Remove(j) =>
      if j < |r.items| then Run(RemoveAt(r.items, j), Removed(r.at, j), r.seen) else r
  }

  function Used<T>(e: Event<T>): set<T> {
    if e.Insert? then {e.x} else {}
  }

  function Play<T>(r: Run<T>, es: seq<Event<T>>): Run<T>
    decreases |es|
  {
    if es == [] then r else Play(Step(r, es[0]), es[1..])
  }

  predicate AllLegal<T(==)>(r: Run<T>, es: seq<Event<T>>, used: set<T>)
    decreases |es|
  {
    es != [] ==> Legal(r, es[0], used) && AllLegal(Step(r, es[0]), es[1..], used + Used(es[0]))
  }

  /** Of the items behind the iterator, those it has returned are the returned ones that
      are still on the list, in the order in which it returned them. */
  predicate InStep<T(==)>(r: Run<T>)
    requires r.at.k <= |r.items|
  {
    Filter(r.items[..r.at.k], x => x in r.seen) == Filter(r.seen, x => x in r.items)
  }

  /** No item is returned twice: what is ahead has not been. */
  ghost predicate AheadUnseen<T>(r: Run<T>) {
    forall i :: r.at.k <= i < |r.items| ==> r.items[i] !in r.seen
  }

  /** Of the items behind, just those that were due have been returned; all ahead are due. */
  ghost predicate JustDue<T>(due: set<T>, r: Run<T>) {
    && (forall i :: 0 <= i < r.at.k && i < |r.items| ==> (r.items[i] in r.seen <==> r.items[i] in due))
    && (forall i :: r.at.k <= i < |r.items| ==> r.items[i] in due)
  }

  ghost predicate AllUsed<T>(s: seq<T>, used: set<T>) {
    forall x :: x in s ==> x in used
  }

  ghost predicate Sound<T>(due: set<T>, used: set<T>, r: Run<T>) {
    && Adjacent(r.at, |r.items|) && Distinct(r.items) && Distinct(r.seen)
    && AllUsed(r.items, used) && AllUsed(r.seen, used) && due <= used
    && InStep(r) && AheadUnseen(r) && JustDue(due, r)
    && (r.at.p < r.at.k ==> r.seen != [] && r.items[r.at.p] == r.seen[|r.seen| - 1])
  }

  /** What an event adds to the items that the iterator will come to. */
  function Put<T>(r: Run<T>, e: Event<T>): set<T> {
    if e.Insert? && e.j > r.at.p then {e.x} else {}
  }

  /** The items put in ahead of the iterator, above the link it would insert behind. */
  function PutAhead<T>(r: Run<T>, es: seq<Event<T>>): set<T>
    decreases |es|
  {
    if es == [] then {} else Put(r, es[0]) + PutAhead(Step(r, es[0]), es[1..])
  }

  lemma SoundStart<T(!new)>(items: seq<T>, used: set<T>)
    requires Distinct(items) && forall x :: x in items ==> x in used
    ensures Sound((set x | x in items), used, Run(items, Cursor(0, 0), []))
  {}

  lemma {:induction false} FilterTwice<T(!new)>(s: seq<T>, p: T -> bool, q: T -> bool)
    ensures Filter(Filter(s, p), q) == Filter(s, x => p(x) && q(x))
  {
    if s != [] {
      FilterTwice(s[1..], p, q);
      FilterConcat(if p(s[0]) then [s[0]] else [], Filter(s[1..], p), q);
    }
  }

  lemma FilterOne<T(!new)>(x: T, p: T -> bool)
    ensures Filter([x], p) == if p(x) then [x] else []
  {}

  lemma NextInStep<T(!new)>(r: Run<T>)
    requires r.at.k < |r.items| && Distinct(r.items) && InStep(r)
    ensures InStep(Run(r.items, Cursor(r.at.k, r.at.k + 1), r.seen + [r.items[r.at.k]]))
  {
    hide Filter;
    var k, y := r.at.k, r.items[r.at.k];
    var seen := r.seen + [y];
    assert r.items[..k + 1] == r.items[..k] + [y];
    FilterConcat(r.items[..k], [y], x => x in seen);
    FilterConcat(r.seen, [y], x => x in r.items);
    FilterOne(y, x => x in seen);
    FilterOne(y, x => x in r.items);
    FilterSame(r.items[..k], x => x in seen, x => x in r.seen);
  }

  lemma InsertInStep<T(!new)>(r: Run<T>, j: nat, x: T)
    requires Adjacent(r.at, |r.items|) && InStep(r) && j <= |r.items| && x !in r.seen
    ensures Inserted(r.at, j).k <= |r.items| + 1
    ensures InStep(Run(InsertAt(r.items, j, x), Inserted(r.at, j), r.seen))
  {
    hide Filter;
    var items, k := InsertAt(r.items, j, x), r.at.k;
    FilterSame(r.seen, y => y in items, y => y in r.items);
    if j <= r.at.p {
      assert items[..k + 1] == r.items[..j] + [x] + r.items[j..k];
      assert r.items[..k] == r.items[..j] + r.items[j..k];
      FilterConcat(r.items[..j], [x], y => y in r.seen);
      FilterConcat(r.items[..j] + [x], r.items[j..k], y => y in r.seen);
      FilterConcat(r.items[..j], r.items[j..k], y => y in r.seen);
      FilterOne(x, y => y in r.seen);
    } else {
      assert items[..k] == r.items[..k];
    }
  }

  lemma {:induction false} RemoveIsFilter<T(!new)>(s: seq<T>, j: nat)
    requires Distinct(s) && j < |s|
    ensures var z := s[j]; RemoveAt(s, j) == Filter(s, x => x != z)
  {
    var z := s[j];
    if j == 0 {
      FilterAll(s[1..], x => x != z);
    } else {
      RemoveIsFilter(s[1..], j - 1);
      assert RemoveAt(s, j) == [s[0]] + RemoveAt(s[1..], j - 1);
    }
  }

  lemma {:induction false} FilterAll<T(!new)>(s: seq<T>, p: T -> bool)
    requires forall x :: x in s ==> p(x)
    ensures Filter(s, p) == s
  {
    if s != [] { FilterAll(s[1..], p); }
  }

  lemma FilterWithout<T(!new)>(s: seq<T>, j: nat, p: T -> bool)
    requires Distinct(s) && j < |s|
    ensures var z := s[j]; Filter(RemoveAt(s, j), p) == Filter(Filter(s, p), x => x != z)
  {
    hide Filter;
    var z := s[j];
    RemoveIsFilter(s, j);
    FilterTwice(s, p, x => x != z);
    FilterTwice(s, x => x != z, p);
    FilterSame(s, x => p(x) && (y => y != z)(x), x => (y => y != z)(x) && p(x));
  }

  lemma RemovedMembers<T(!new)>(s: seq<T>, j: nat)
    requires Distinct(s) && j < |s|
    ensures forall x :: x in RemoveAt(s, j) <==> x in s && x != s[j]
  {
    assert s == s[..j] + [s[j]] + s[j + 1..];
  }

  lemma RemoveBehindInStep<T(!new)>(r: Run<T>, j: nat)
    requires r.at.k <= |r.items| && Distinct(r.items) && InStep(r) && j < r.at.k
    ensures Filter(RemoveAt(r.items, j)[..r.at.k - 1], x => x in r.seen)
         == Filter(r.seen, x => x in RemoveAt(r.items, j))
  {
    hide Filter;
    var items, k, z := RemoveAt(r.items, j), r.at.k, r.items[j];
    RemovedMembers(r.items, j);
    assert items[..k - 1] == RemoveAt(r.items[..k], j);
    FilterWithout(r.items[..k], j, x => x in r.seen);
    FilterTwice(r.seen, x => x in r.items, x => x != z);
    FilterSame(r.seen, x => x in items, x => (y => y in r.items)(x) && (y => y != z)(x));
  }

  lemma RemoveAheadInStep<T(!new)>(r: Run<T>, j: nat)
    requires r.at.k <= j < |r.items| && Distinct(r.items) && InStep(r) && r.items[j] !in r.seen
    ensures Filter(RemoveAt(r.items, j)[..r.at.k], x => x in r.seen) == Filter(r.seen, x => x in RemoveAt(r.items, j))
  {
    hide Filter;
    RemovedMembers(r.items, j);
    assert RemoveAt(r.items, j)[..r.at.k] == r.items[..r.at.k];
    FilterSame(r.seen, x => x in RemoveAt(r.items, j), x => x in r.items);
  }

  lemma RemoveInStep<T(!new)>(due: set<T>, used: set<T>, r: Run<T>, j: nat)
    requires Sound(due, used, r) && j < |r.items|
    ensures Removed(r.at, j).k <= |r.items| - 1
    ensures InStep(Run(RemoveAt(r.items, j), Removed(r.at, j), r.seen))
  {
    hide Filter, Distinct, AllUsed, JustDue;
    if j < r.at.k {
      RemoveBehindInStep(r, j);
    } else {
      RemoveAheadInStep(r, j);
    }
  }

  lemma InsertedItems<T(!new)>(items: seq<T>, j: nat, x: T)
    requires j <= |items| && Distinct(items) && x !in items
    ensures var out := InsertAt(items, j, x);
            && Distinct(out) && |out| == |items| + 1
            && (forall i :: 0 <= i < |out| ==> out[i] == if i < j then items[i] else if i == j then x else items[i - 1])
            && forall y :: y in out <==> y in items || y == x
  {}

  lemma RemovedItems<T(!new)>(items: seq<T>, j: nat)
    requires j < |items| && Distinct(items)
    ensures var out := RemoveAt(items, j);
            && Distinct(out) && |out| == |items| - 1
            && (forall i :: 0 <= i < |out| ==> out[i] == if i < j then items[i] else items[i + 1])
            && forall y :: y in out ==> y in items
  {}

  lemma NextSound<T(!new)>(due: set<T>, used: set<T>, r: Run<T>)
    requires Sound(due, used, r)
    ensures Sound(due, used, Step(r, Next))
  {
    hide Filter;
    if r.at.k < |r.items| {
      NextInStep(r);
      hide InStep;
      assert r.items[r.at.k] !in r.seen;
    }
  }

  lemma InsertSound<T(!new)>(due: set<T>, used: set<T>, r: Run<T>, j: nat, x: T)
    requires Sound(due, used, r) && j <= |r.items| && x !in used
    ensures Sound(due + Put(r, Insert(j, x)), used + {x}, Step(r, Insert(j, x)))
  {
    hide Filter, InStep;
    InsertInStep(r, j, x);
    InsertedItems(r.items, j, x);
    hide InsertAt;
  }

  lemma RemoveSound<T(!new)>(due: set<T>, used: set<T>, r: Run<T>, j: nat)
    requires Sound(due, used, r) && j < |r.items|
    ensures Sound(due, used, Step(r, Remove(j)))
  {
    hide Filter, InStep;
    RemoveInStep(due, used, r, j);
    RemovedItems(r.items, j);
    hide RemoveAt;
  }

  lemma StepSound<T(!new)>(due: set<T>, used: set<T>, r: Run<T>, e: Event<T>)
    requires Sound(due, used, r) && Legal(r, e, used)
    ensures Sound(due + Put(r, e), used + Used(e), Step(r, e))
  {
    hide Sound, Step;
    match e
    case Next =>
      NextSound(due, used, r);
      assert used + Used(e) == used && due + Put(r, e) == due;
    case Insert(j, x) =>
      InsertSound(due, used, r, j, x) by { assert |r.items| >= j; }
    case Remove(j) =>
      RemoveSound(due, used, r, j);
      assert used + Used(e) == used && due + Put(r, e) == due;
  }

  lemma {:induction false} PlaySound<T(!new)>(due: set<T>, used: set<T>, r: Run<T>, es: seq<Event<T>>)
    requires Sound(due, used, r) && AllLegal(r, es, used)
    ensures exists all :: Sound(due + PutAhead(r, es), all, Play(r, es))
    decreases |es|
  {
    hide Sound, Legal, Step, Put;
    if es == [] {
      assert due + PutAhead(r, es) == due;
      assert Sound(due + PutAhead(r, es), used, Play(r, es));
    } else {
      var more := due + Put(r, es[0]);
      StepSound(due, used, r, es[0]) by { assert AllLegal(r, es, used); }
      PlaySound(more, used + Used(es[0]), Step(r, es[0]), es[1..]);
      var all :| Sound(more + PutAhead(Step(r, es[0]), es[1..]), all, Play(Step(r, es[0]), es[1..]));
      assert more + PutAhead(Step(r, es[0]), es[1..]) == due + PutAhead(r, es);
      assert Sound(due + PutAhead(r, es), all, Play(r, es));
    }
  }

  /** Whatever happens to the list during a traversal: no item is returned twice; at the
      end, the returned items that are still there stand in the order of their return; and
      of the items then on the list just those have been returned that were there from the
      start or were put in ahead of the iterator. */
  lemma Traversal<T(!new)>(start: seq<T>, used: set<T>, es: seq<Event<T>>)
    requires Distinct(start) && forall x :: x in start ==> x in used
    requires AllLegal(Run(start, Cursor(0, 0), []), es, used)
    ensures var r0 := Run(start, Cursor(0, 0), []); var r := Play(r0, es);
            && Distinct(r.seen)
            && (r.at.k >= |r.items| ==>
                  && Filter(r.items, x => x in r.seen) == Filter(r.seen, x => x in r.items)
                  && forall x :: x in r.items ==> (x in r.seen <==> x in start || x in PutAhead(r0, es)))
  {
    hide Play, AllLegal, Filter, PutAhead;
    var r0 := Run(start, Cursor(0, 0), []);
    var r := Play(r0, es);
    SoundStart(start, used);
    var due := set x | x in start;
    PlaySound(due, used, r0, es);
    var all :| Sound(due + PutAhead(r0, es), all, r);
    if r.at.k >= |r.items| {
      assert r.items[..r.at.k] == r.items;
      forall x | x in r.items ensures x in r.seen <==> x in start || x in PutAhead(r0, es) {
        var i :| 0 <= i < |r.items| && r.items[i] == x;
      }
    }
  }

  /** list_remove takes out the item returned last or nothing, and list_insert puts an item
      right before the one returned last or behind all that were returned; it is the former
      as long as neither that item nor its successor has been taken out since. */
  lemma RemovesLast<T(!new)>(due: set<T>, used: set<T>, r: Run<T>, e: Event<T>)
    requires Sound(due, used, r) && Legal(r, e, used) && r.at.p < r.at.k
    ensures r.items[r.at.p] == r.seen[|r.seen| - 1]
    ensures forall x :: InsertAt(r.items, r.at.p, x)[r.at.p..r.at.p + 2] == [x, r.seen[|r.seen| - 1]]
    ensures var r' := Step(r, e);
            e != Next ==>
              (r'.at.p < r'.at.k <==> !(e.Remove? && (e.j == r.at.p || e.j == r.at.k)))
  {
    hide Filter, InStep;
  }

  /** Otherwise an item is put in behind all that were returned and are still there. */
  lemma InsertsBehind<T(!new)>(due: set<T>, used: set<T>, r: Run<T>, x: T, m: nat)
    requires Sound(due, used, r) && r.at.p == r.at.k && m < |r.items| && r.items[m] in r.seen
    ensures var out := InsertAt(r.items, r.at.p, x); m < r.at.p && out[m] == r.items[m] && out[r.at.p] == x
  {
    hide Filter, InStep;
  }

  /** The documented promises that list_remove removes the item returned last, and that
      list_insert puts an item before it, fail when that item's successor has gone: here 1
      was returned and is still on the list. */
  lemma RemoveCanMiss()
    ensures var r := Play(Run([1, 2, 3], Cursor(0, 0), []), [Next, Remove(1)]);
            && r.items == [1, 3] && r.seen == [1] && r.at.p == r.at.k
            && InsertAt(r.items, r.at.p, 4) == [1, 4, 3]
  {
    var r0 := Run([1, 2, 3], Cursor(0, 0), []);
    var es: seq<Event<int>> := [Next, Remove(1)];
    var r1 := Step(r0, es[0]);
    assert r1 == Run([1, 2, 3], Cursor(0, 1), [1]);
    assert es[1..] == [Remove(1)];
    assert Step(r1, Remove(1)).items == [1, 3];
    assert Play(r1, es[1..]) == Step(r1, Remove(1));
  }
}
