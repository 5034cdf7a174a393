/** The singly linked list of list.c with iterators that stay on it while it changes. The
    address of a link is modelled by the node that holds it, null standing for the head. */
module LinkedLists {
  import opened Sequences
  import opened ListSpec

  class Node<T> {
    const data: T
    var next: Node?<T>

    constructor (data: T)
      ensures this.data == data && next == null
    {
      this.data := data;
      next := null;
    }
  }

  class Iter<T> {
    var pos: Node?<T>           // the next node to be returned
    var prev: Node?<T>          // the node whose link leads to it, or to the node before it
    ghost var at: Cursor

    constructor (pos: Node?<T>)
      ensures this.pos == pos && prev == null && at == Cursor(0, 0)
    {
      this.pos, prev, at := pos, null, Cursor(0, 0);
    }
  }

  /** The node at a position of the spine, or null at its end. */
  ghost function NodeAt<T>(spine: seq<Node<T>>, i: nat): Node?<T> {
    if i < |spine| then spine[i] else null
  }

  /** The node that holds the link into a position. */
  ghost function LinkAt<T>(spine: seq<Node<T>>, i: nat): Node?<T>
    requires i <= |spine|
  {
    if i == 0 then null else spine[i - 1]
  }

  ghost function DataOf<T>(spine: seq<Node<T>>): (s: seq<T>)
    ensures |s| == |spine| && forall i :: 0 <= i < |s| ==> s[i] == spine[i].data
  {
    seq(|spine|, i requires 0 <= i < |spine| => spine[i].data)
  }

  /** The link of the node at position i leads to the next. */
  ghost predicate Leads<T>(spine: seq<Node<T>>, i: nat)
    requires i < |spine|
    reads spine
  {
    spine[i].next == NodeAt(spine, i + 1)
  }

  ghost predicate PointsAt<T>(spine: seq<Node<T>>, at: Cursor, pos: Node?<T>, prev: Node?<T>) {
    Adjacent(at, |spine|) && pos == NodeAt(spine, at.k) && prev == LinkAt(spine, at.p)
  }

  ghost predicate DistinctAt<T>(spine: seq<Node<T>>, i: nat, j: nat)
    requires i < |spine| && j < |spine|
  {
    spine[i] == spine[j] <==> i == j
  }

  lemma AllDistinct<T>(spine: seq<Node<T>>)
    requires Distinct(spine)
    ensures forall i, j :: 0 <= i < |spine| && 0 <= j < |spine| ==> DistinctAt(spine, i, j)
  {}

  lemma InsertedSpine<T>(before: seq<Node<T>>, j: nat, p: Node<T>)
    requires Distinct(before) && p !in before && j <= |before|
    ensures Distinct(InsertAt(before, j, p))
    ensures DataOf(InsertAt(before, j, p)) == InsertAt(DataOf(before), j, p.data)
  {
    var after := InsertAt(before, j, p);
    assert forall i :: 0 <= i < |after| ==>
                         after[i] == if i < j then before[i] else if i == j then p else before[i - 1];
  }

  /** Where things are when a node has been put in, and which node held the link. */
  lemma InsertedAt<T>(before: seq<Node<T>>, j: nat, p: Node<T>, i: nat)
    requires Distinct(before) && p !in before && j <= |before| && i <= |before|
    ensures var after := InsertAt(before, j, p);
            && |after| == |before| + 1
            && after[i] == (if i < j then before[i] else if i == j then p else before[i - 1])
            && NodeAt(after, i + 1)
               == (if i + 1 < j then before[i + 1] else if i + 1 == j then p else NodeAt(before, i))
    ensures i < j ==> before[i] != p && (before[i] == LinkAt(before, j) <==> i == j - 1)
    ensures i > j ==> before[i - 1] != p && before[i - 1] != LinkAt(before, j)
  {}

  /** Where things are when the j-th node has been taken out. */
  lemma RemovedAt<T>(before: seq<Node<T>>, j: nat, i: nat)
    requires Distinct(before) && j < |before| && i < |before| - 1
    ensures var after := RemoveAt(before, j);
            && |after| == |before| - 1
            && after[i] == (if i < j then before[i] else before[i + 1])
            && NodeAt(after, i + 1) == (if i + 1 < j then before[i + 1] else NodeAt(before, i + 2))
    ensures i < j ==> (before[i] == LinkAt(before, j) <==> i == j - 1)
    ensures i >= j ==> before[i + 1] != LinkAt(before, j)
  {}

  lemma RemovedEnds<T>(before: seq<Node<T>>, j: nat)
    requires j < |before|
    ensures var after := RemoveAt(before, j);
            && |after| == |before| - 1
            && NodeAt(after, 0) == (if j == 0 then NodeAt(before, 1) else before[0])
            && LinkAt(after, |after|) == if j == |before| - 1 then LinkAt(before, j) else LinkAt(before, |before|)
  {}

  lemma RemovedSpine<T>(before: seq<Node<T>>, j: nat)
    requires Distinct(before) && j < |before|
    ensures Distinct(RemoveAt(before, j))
    ensures DataOf(RemoveAt(before, j)) == RemoveAt(DataOf(before), j)
  {
    var after := RemoveAt(before, j);
    assert forall i :: 0 <= i < |after| ==> after[i] == if i < j then before[i] else before[i + 1];
  }

  /** When the node at a + 1 has moved to q: which node is now at i. */
  function Origin(a: nat, q: nat, i: nat): nat
    requires q <= a
  {
    if i < q || i > a + 1 then i else if i == q then a + 1 else i - 1
  }

  /** And where the node that was at i now leads. */
  ghost function NextAfter<T>(before: seq<Node<T>>, a: nat, q: nat, i: nat): Node?<T>
    requires q <= a < |before| - 1
  {
    if i == a + 1 then before[q]
    else if i == a then NodeAt(before, a + 2)
    else if i + 1 == q then before[a + 1]
    else NodeAt(before, i + 1)
  }

  lemma MovedSpine<T>(before: seq<Node<T>>, a: nat, q: nat)
    requires q <= a < |before| - 1
    ensures var after := InsertAt(RemoveAt(before, a + 1), q, before[a + 1]);
            && |after| == |before|
            && (forall i :: 0 <= i < |after| ==> after[i] == before[Origin(a, q, i)])
            && (forall i :: 0 <= i < |after| ==> NextAfter(before, a, q, Origin(a, q, i)) == NodeAt(after, i + 1))
            && NodeAt(after, 0) == before[if q == 0 then a + 1 else 0]
            && forall x :: x in after ==> x in before
  {
    var after := InsertAt(RemoveAt(before, a + 1), q, before[a + 1]);
    assert forall i :: 0 <= i < |after| ==> after[i] == before[Origin(a, q, i)];
  }

  lemma LinksDiffer<T>(spine: seq<Node<T>>, i: nat, j: nat)
    requires Distinct(spine) && i <= |spine| && j <= |spine| && LinkAt(spine, i) == LinkAt(spine, j)
    ensures i == j
  {}

  lemma LinkKept<T>(before: seq<Node<T>>, j: nat)
    requires j < |before|
    ensures |RemoveAt(before, j)| == |before| - 1
    ensures LinkAt(RemoveAt(before, j), j) == LinkAt(before, j)
    ensures forall i :: 0 <= i < |before| - 1 ==> RemoveAt(before, j)[i] in before
  {}

  lemma MovedAt<T>(before: seq<Node<T>>, a: nat, q: nat)
    requires q <= a < |before| - 1
    ensures var after := InsertAt(RemoveAt(before, a + 1), q, before[a + 1]);
            && |after| == |before| && after[a + 1] == before[a]
            && after[a] == before[if q == a then a + 1 else a - 1] && after[q] == before[a + 1]
            && LinkAt(after, q) == LinkAt(before, q)
  {}

  lemma InsertedData<T>(before: seq<Node<T>>, a: nat, q: nat)
    requires q <= a < |before| - 1
    ensures DataOf(InsertAt(RemoveAt(before, a + 1), q, before[a + 1]))
         == InsertAt(RemoveAt(DataOf(before), a + 1), q, before[a + 1].data)
  {}

  /** The items after one round of the sort: the item at a + 1 stays, or moves back. */
  ghost function Round<T>(now: seq<T>, a: nat, f: Compare<T>): (r: seq<T>)
    requires a + 1 < |now|
  {
    if f(now[a + 1], now[a]) < 0 then
      InsertAt(RemoveAt(now, a + 1), FirstAbove(now[..a + 1], now[a + 1], f), now[a + 1])
    else now
  }

  lemma MovedRound<T>(before: seq<Node<T>>, a: nat, q: nat, f: Compare<T>)
    requires q <= a < |before| - 1 && f(before[a + 1].data, before[a].data) < 0
    requires FirstAbove(DataOf(before)[..a + 1], before[a + 1].data, f) == q
    ensures DataOf(InsertAt(RemoveAt(before, a + 1), q, before[a + 1])) == Round(DataOf(before), a, f)
  {
    hide FirstAbove, InsertAt, RemoveAt;
    InsertedData(before, a, q);
  }

  lemma RoundStays<T>(now: seq<T>, a: nat, f: Compare<T>)
    requires a + 1 < |now| && f(now[a + 1], now[a]) >= 0
    ensures Round(now, a, f) == now
  {}

  /** A round sorts one more item of the original list. */
  lemma RoundItems<T>(items: seq<T>, now: seq<T>, a: nat, f: Compare<T>)
    requires a + 1 < |items| == |now|
    requires now[..a + 1] == Sorting(items[..a + 1], f) && now[a + 1..] == items[a + 1..]
    ensures Round(now, a, f)[..a + 2] == Sorting(items[..a + 2], f)
    ensures |Round(now, a, f)| == |now| && Round(now, a, f)[a + 2..] == items[a + 2..]
  {
    hide Sorting, FirstAbove;
    SortingRound(items, a, f);
    assert now[a + 1] == now[a + 1..][0] == items[a + 1];
    assert now[a + 2..] == now[a + 1..][1..] == items[a + 1..][1..] == items[a + 2..];
    var sorted, x, rest := now[..a + 1], now[a + 1], now[a + 2..];
    assert sorted[a] == now[a];
    if f(x, now[a]) < 0 {
      var q := FirstAbove(sorted, x, f);
      assert RemoveAt(now, a + 1) == sorted + rest;
      assert InsertAt(sorted + rest, q, x) == InsertAt(sorted, q, x) + rest;
    } else {
      assert now == sorted + [x] + rest;
    }
  }

  /** The first a + 1 items are sorted, the others as they were. */
  ghost predicate SortedTo<T>(items: seq<T>, now: seq<T>, a: nat, f: Compare<T>) {
    && a < |items| == |now|
    && now[..a + 1] == Sorting(items[..a + 1], f) && now[a + 1..] == items[a + 1..]
  }

  lemma SortedStart<T>(items: seq<T>, f: Compare<T>)
    requires items != []
    ensures SortedTo(items, items, 0, f)
  {
    SortingShort(items[..1], f);
  }

  lemma SortedRound<T>(items: seq<T>, now: seq<T>, a: nat, f: Compare<T>)
    requires SortedTo(items, now, a, f) && a + 1 < |now|
    ensures SortedTo(items, Round(now, a, f), a + 1, f)
  {
    hide Round, Sorting;
    RoundItems(items, now, a, f);
  }

  lemma SortedEnd<T>(items: seq<T>, now: seq<T>, a: nat, f: Compare<T>)
    requires SortedTo(items, now, a, f) && a + 1 == |now|
    ensures now == Sorting(items, f)
  {
    hide Sorting;
    assert now[..a + 1] == now && items[..a + 1] == items;
  }

  lemma StartPoints<T>(spine: seq<Node<T>>)
    ensures PointsAt(spine, Cursor(0, 0), NodeAt(spine, 0), null)
  {}

  lemma NotInRest<T>(before: seq<Node<T>>, j: nat)
    requires Distinct(before) && j < |before|
    ensures before[j] !in RemoveAt(before, j)
  {}

  /** The repair in list_node_create is right for every iterator. */
  lemma InsertedPointers<T>(before: seq<Node<T>>, j: nat, p: Node<T>, at: Cursor, pos: Node?<T>, prev: Node?<T>)
    requires Distinct(before) && p !in before && j <= |before| && PointsAt(before, at, pos, prev)
    ensures var pp, next := LinkAt(before, j), NodeAt(before, j);
            PointsAt(InsertAt(before, j, p), Inserted(at, j),
                     if prev != pp && pos == next then p else pos,
                     if prev == pp then p else prev)
  {
    RepairsAdjacent(at, |before|, j);
    assert (prev == LinkAt(before, j)) <==> at.p == j;
    if at.p != j {
      assert (pos == NodeAt(before, j)) <==> at.k == j;
    }
  }

  /** The repair in list_node_destroy is right for every iterator. */
  lemma RemovedPointers<T>(before: seq<Node<T>>, j: nat, at: Cursor, pos: Node?<T>, prev: Node?<T>)
    requires Distinct(before) && j < |before| && PointsAt(before, at, pos, prev)
    ensures var pp, next := LinkAt(before, j), NodeAt(before, j + 1);
            PointsAt(RemoveAt(before, j), Removed(at, j),
                     if pos == before[j] then next else pos,
                     if pos == before[j] || prev == before[j] then pp else prev)
  {
    RepairsAdjacent(at, |before|, j);
    assert (pos == before[j]) <==> at.k == j;
    assert (prev == before[j]) <==> at.p == j + 1;
  }

  /** list_next */
  lemma AdvancedPointers<T>(spine: seq<Node<T>>, at: Cursor, pos: Node?<T>, prev: Node?<T>)
    requires Distinct(spine) && PointsAt(spine, at, pos, prev)
    ensures var q := NodeAt(spine, at.p);
            PointsAt(spine, Advanced(at, |spine|),
                     if pos == null then null else NodeAt(spine, at.k + 1),
                     if q != pos then q else prev)
  {
    assert NodeAt(spine, at.p) == pos <==> at.p == at.k;
  }

  class List<T> {
    var head: Node?<T>
    var tail: Node?<T>          // the node with the last link
    var count: nat
    var iters: seq<Iter<T>>
    ghost var spine: seq<Node<T>>

    /** The nodes are linked in the order of the spine. */
    ghost predicate Linked()
      reads this, spine
    {
      && Distinct(spine)
      && head == NodeAt(spine, 0)
      && (forall i :: 0 <= i < |spine| ==> Leads(spine, i))
      && count == |spine|
    }

    ghost predicate IterValid(it: Iter<T>)
      reads this, it
    {
      PointsAt(spine, it.at, it.pos, it.prev)
    }

    /** All pointers, those of every iterator included, are to nodes on the list. */
    ghost predicate Valid()
      reads this, spine, iters
    {
      && Linked() && tail == LinkAt(spine, |spine|)
      && (forall i, j :: 0 <= i < j < |iters| ==> iters[i] != iters[j])
      && (forall it :: it in iters ==> IterValid(it))
    }

    ghost function Items(): seq<T>
      reads this
    {
      DataOf(spine)
    }

    constructor ()
      ensures Valid() && Items() == [] && iters == []
    {
      head, tail, count, iters, spine := null, null, 0, [], [];
    }

    /** Follow the link into position j. */
    method Link(pp: Node?<T>, ghost j: nat) returns (p: Node?<T>)
      requires Linked() && j <= |spine| && pp == LinkAt(spine, j)
      ensures p == NodeAt(spine, j)
    {
      if pp != null {
        assert Leads(spine, j - 1);
      }
      p := if pp == null then head else pp.next;
    }

    /** The node p becomes the j-th. */
    method LinkIn(pp: Node?<T>, p: Node<T>, ghost j: nat)
      requires Linked() && tail == LinkAt(spine, |spine|)
      requires j <= |spine| && pp == LinkAt(spine, j) && p !in spine
      modifies this`head, this`tail, this`count, this`spine, spine`next, p`next
      ensures Linked() && tail == LinkAt(spine, |spine|)
      ensures spine == InsertAt(old(spine), j, p) && p.next == NodeAt(old(spine), j)
    {
      hide Distinct, InsertAt;
      p.next := Link(pp, j);
      if p.next == null {
        tail := p;
      }
      if pp == null { head := p; } else { pp.next := p; }
      count := count + 1;
      ghost var before := spine;
      spine := InsertAt(before, j, p);
      InsertedSpine(before, j, p);
      InsertedAt(before, j, p, j);
      InsertedAt(before, j, p, 0);
      InsertedAt(before, j, p, |before|);
      forall i | 0 <= i < |spine| ensures Leads(spine, i) {
        InsertedAt(before, j, p, i);
        if i < j {
          assert old(Leads(spine, i));
        } else if i > j {
          assert old(Leads(spine, i - 1));
        }
      }
    }

    /** The j-th node is taken out of the links. */
    method LinkOut(pp: Node?<T>, p: Node<T>, ghost j: nat)
      requires Linked() && tail == LinkAt(spine, |spine|)
      requires j < |spine| && pp == LinkAt(spine, j) && p == spine[j]
      modifies this`head, this`tail, this`count, this`spine, spine`next
      ensures Linked() && tail == LinkAt(spine, |spine|)
      ensures spine == RemoveAt(old(spine), j) && p.next == old(p.next)
    {
      hide Distinct, RemoveAt;
      assert Leads(spine, j);
      if pp == null { head := p.next; } else { pp.next := p.next; }
      if p.next == null {
        tail := pp;
      }
      count := count - 1;
      ghost var before := spine;
      spine := RemoveAt(before, j);
      RemovedSpine(before, j);
      RemovedEnds(before, j);
      forall i | 0 <= i < |spine| ensures Leads(spine, i) {
        RemovedAt(before, j, i);
        assert old(Leads(spine, if i < j then i else i + 1));
      }
    }

    /** The loop of list_node_create over the iterators. */
    method RepairInserted(pp: Node?<T>, p: Node<T>, ghost before: seq<Node<T>>, ghost j: nat)
      requires Distinct(before) && j <= |before| && p !in before && spine == InsertAt(before, j, p)
      requires pp == LinkAt(before, j) && p.next == NodeAt(before, j)
      requires forall i, j :: 0 <= i < j < |iters| ==> iters[i] != iters[j]
      requires forall k :: 0 <= k < |iters| ==> PointsAt(before, iters[k].at, iters[k].pos, iters[k].prev)
      modifies iters
      ensures forall k :: 0 <= k < |iters| ==> IterValid(iters[k]) && iters[k].at == Inserted(old(iters[k].at), j)
    {
      hide PointsAt, Inserted, Distinct, InsertAt, LinkAt, NodeAt;
      var i := 0;
      while i < |iters|
        invariant 0 <= i <= |iters|
        invariant forall k :: 0 <= k < i ==> IterValid(iters[k]) && iters[k].at == Inserted(old(iters[k].at), j)
        invariant forall k :: i <= k < |iters| ==>
                    && iters[k].at == old(iters[k].at)
                    && PointsAt(before, iters[k].at, iters[k].pos, iters[k].prev)
        modifies iters
      {
        var it := iters[i];
        InsertedPointers(before, j, p, it.at, it.pos, it.prev);
        if it.prev == pp {
          it.prev := p;
        } else if it.pos == p.next {
          it.pos := p;
        }
        it.at := Inserted(it.at, j);
        i := i + 1;
      }
    }

    /** The loop of list_node_destroy over the iterators. */
    method RepairRemoved(pp: Node?<T>, p: Node<T>, ghost before: seq<Node<T>>, ghost j: nat)
      requires Distinct(before) && j < |before| && p == before[j] && spine == RemoveAt(before, j)
      requires pp == LinkAt(before, j) && p.next == NodeAt(before, j + 1)
      requires forall i, j :: 0 <= i < j < |iters| ==> iters[i] != iters[j]
      requires forall k :: 0 <= k < |iters| ==> PointsAt(before, iters[k].at, iters[k].pos, iters[k].prev)
      modifies iters
      ensures forall k :: 0 <= k < |iters| ==> IterValid(iters[k]) && iters[k].at == Removed(old(iters[k].at), j)
    {
      hide PointsAt, Removed, Distinct, RemoveAt, LinkAt, NodeAt;
      var i := 0;
      while i < |iters|
        invariant 0 <= i <= |iters|
        invariant forall k :: 0 <= k < i ==> IterValid(iters[k]) && iters[k].at == Removed(old(iters[k].at), j)
        invariant forall k :: i <= k < |iters| ==>
                    && iters[k].at == old(iters[k].at)
                    && PointsAt(before, iters[k].at, iters[k].pos, iters[k].prev)
        modifies iters
      {
        var it := iters[i];
        RemovedPointers(before, j, it.at, it.pos, it.prev);
        if it.pos == p {
          it.pos, it.prev := p.next, pp;
        } else if it.prev == p {
          it.prev := pp;
        }
        it.at := Removed(it.at, j);
        i := i + 1;
      }
    }

    /** list_node_create: put in an item at the link pp, the j-th, and repair every
        iterator. */
    method NodeCreate(pp: Node?<T>, x: T, ghost j: nat)
      requires Valid() && j <= |spine| && pp == LinkAt(spine, j)
      modifies this, spine`next, iters
      ensures Valid() && iters == old(iters)
      ensures |spine| == old(|spine|) + 1 && fresh(spine[j]) && spine == InsertAt(old(spine), j, spine[j])
      ensures Items() == InsertAt(old(Items()), j, x)
      ensures forall it :: it in iters ==> it.at == Inserted(old(it.at), j)
    {
      hide PointsAt;
      ghost var before := spine;
      assert forall k :: 0 <= k < |iters| ==> IterValid(iters[k]);
      var p := new Node(x);
      InsertedSpine(before, j, p);
      LinkIn(pp, p, j);
      RepairInserted(pp, p, before, j);
    }

    /** list_node_destroy: take out the node that the link pp, the j-th, leads to, and
        repair every iterator. */
    method NodeDestroy(pp: Node?<T>, ghost j: nat) returns (v: Option<T>)
      requires Valid() && j <= |spine| && pp == LinkAt(spine, j)
      modifies this, spine`next, iters
      ensures Valid() && iters == old(iters)
      ensures j == old(|spine|) ==>
                v == None && spine == old(spine) && forall it :: it in iters ==> it.at == old(it.at)
      ensures j < old(|spine|) ==>
                && v == Some(old(Items())[j]) && spine == RemoveAt(old(spine), j)
                && Items() == RemoveAt(old(Items()), j)
                && forall it :: it in iters ==> it.at == Removed(old(it.at), j)
    {
      hide PointsAt, RemoveAt;
      var p := Link(pp, j);
      if p == null {
        return None;
      }
      ghost var before := spine;
      assert forall k :: 0 <= k < |iters| ==> IterValid(iters[k]);
      assert Leads(spine, j);
      v := Some(p.data);
      RemovedSpine(before, j);
      LinkOut(pp, p, j);
      RepairRemoved(pp, p, before, j);
    }

    /** list_append, list_enqueue */
    method Append(x: T)
      requires Valid()
      modifies this, spine`next, iters
      ensures Valid() && iters == old(iters)
      ensures Items() == old(Items()) + [x]
      ensures forall it :: it in iters ==> it.at == Inserted(old(it.at), |old(Items())|)
    {
      NodeCreate(tail, x, |spine|);
    }

    /** list_push, list_prepend */
    method Push(x: T)
      requires Valid()
      modifies this, spine`next, iters
      ensures Valid() && iters == old(iters)
      ensures Items() == [x] + old(Items())
      ensures forall it :: it in iters ==> it.at == Inserted(old(it.at), 0)
    {
      NodeCreate(null, x, 0);
    }

    /** list_pop, list_dequeue */
    method Pop() returns (v: Option<T>)
      requires Valid()
      modifies this, spine`next, iters
      ensures Valid() && iters == old(iters)
      ensures old(Items()) == [] ==> v == None && Items() == []
      ensures old(Items()) != [] ==> v == Some(old(Items())[0]) && Items() == old(Items())[1..]
      ensures old(Items()) != [] ==> forall it :: it in iters ==> it.at == Removed(old(it.at), 0)
    {
      v := NodeDestroy(null, 0);
    }

    /** list_iterator_create */
    method NewIter() returns (it: Iter<T>)
      requires Valid()
      modifies this`iters
      ensures Valid() && fresh(it) && iters == [it] + old(iters)
      ensures it.at == Cursor(0, 0)
    {
      it := new Iter(head);
      iters := [it] + iters;
    }

    /** list_iterator_reset */
    method Reset(it: Iter<T>)
      requires Valid() && it in iters
      modifies it
      ensures Valid() && it.at == Cursor(0, 0)
    {
      it.pos, it.prev, it.at := head, null, Cursor(0, 0);
    }

    /** list_next */
    method Next(it: Iter<T>) returns (v: Option<T>)
      requires Valid() && it in iters
      modifies it
      ensures Valid() && it.at == Advanced(old(it.at), |Items()|)
      ensures v == if old(it.at).k < |Items()| then Some(Items()[old(it.at).k]) else None
    {
      AdvancedPointers(spine, it.at, it.pos, it.prev);
      var p := it.pos;
      assert p != null ==> Leads(spine, it.at.k);
      if p != null {
        it.pos := p.next;
      }
      var q := Link(it.prev, it.at.p);
      if q != p {
        it.prev := q;
      }
      it.at := Advanced(it.at, |spine|);
      v := if p != null then Some(p.data) else None;
    }

    /** list_insert: behind the link of the iterator. */
    method Insert(it: Iter<T>, x: T)
      requires Valid() && it in iters
      modifies this, spine`next, iters
      ensures Valid() && iters == old(iters)
      ensures Items() == InsertAt(old(Items()), old(it.at).p, x)
      ensures forall i :: i in iters ==> i.at == Inserted(old(i.at), old(it.at).p)
    {
      NodeCreate(it.prev, x, it.at.p);
    }

    /** list_remove: the item behind the link of the iterator, unless it is still to come. */
    method Remove(it: Iter<T>) returns (v: Option<T>)
      requires Valid() && it in iters
      modifies this, spine`next, iters
      ensures Valid() && iters == old(iters)
      ensures old(it.at).p == old(it.at).k ==>
                v == None && Items() == old(Items()) && forall i :: i in iters ==> i.at == old(i.at)
      ensures old(it.at).p < old(it.at).k ==>
                && v == Some(old(Items())[old(it.at).p])
                && Items() == RemoveAt(old(Items()), old(it.at).p)
                && forall i :: i in iters ==> i.at == Removed(old(i.at), old(it.at).p)
    {
      v := None;
      var q := Link(it.prev, it.at.p);
      if q != it.pos {
        v := NodeDestroy(it.prev, it.at.p);
      }
    }

    /** list_delete_all: remove every item that matches. */
    method DeleteAll(f: T -> bool) returns (n: nat)
      requires Valid()
      modifies this, spine`next, iters
      ensures Valid() && iters == old(iters)
      ensures Items() == Filter(old(Items()), x => !f(x))
      ensures n == |old(Items())| - |Items()|
    {
      hide Kept, Filter, PointsAt, Leads, Distinct, Linked, DataOf, RemoveAt;
      var pp: Node?<T> := null;
      ghost var j := 0;
      n := 0;
      KeptEnds(Items(), f);
      var p := Link(pp, j);
      while p != null
        invariant Valid() && iters == old(iters) && j <= |spine|
        invariant pp == LinkAt(spine, j) && p == NodeAt(spine, j)
        invariant forall x :: x in spine ==> x in old(spine)
        invariant Kept(Items(), j, f) == Filter(old(Items()), x => !f(x))
        invariant n == |old(Items())| - |Items()|
        decreases |spine| - j
      {
        KeptStep(Items(), j, f);
        LinkKept(spine, j);
        if f(p.data) {
          hide LinkAt;
          assert forall i :: 0 <= i < |spine| ==> spine[i] in old(spine);
          var v := NodeDestroy(pp, j);
          n := n + 1;
        } else {
          pp := p;
          j := j + 1;
        }
        p := Link(pp, j);
      }
      KeptEnds(Items(), f);
    }

    /** Take the node p from behind the link of pp and put it behind the link ppPos. */
    method Relink(pp: Node<T>, p: Node<T>, ppPos: Node?<T>, target: Node?<T>)
      requires pp in spine && p in spine && (ppPos == null || ppPos in spine)
      requires pp != p && ppPos != p && ppPos != pp
      modifies this`head, spine`next
      ensures p.next == target && pp.next == old(p.next)
      ensures if ppPos == null then head == p else head == old(head) && ppPos.next == p
      ensures forall x :: x in spine && x != p && x != pp && x != ppPos ==> x.next == old(x.next)
    {
      var pTmp := p.next;
      p.next := target;
      if ppPos == null { head := p; } else { ppPos.next := p; }
      pp.next := pTmp;
    }

    /** The node behind the link pp, the one with index a + 1, moves to position q; the
        link that led to it now leads on. */
    method MoveBack(pp: Node<T>, ppPos: Node?<T>, ghost a: nat, ghost q: nat)
      requires Linked() && q <= a < |spine| - 1 && pp == spine[a] && ppPos == LinkAt(spine, q)
      modifies this`head, this`spine, spine`next
      ensures Linked() && |spine| == old(|spine|)
      ensures spine == InsertAt(RemoveAt(old(spine), a + 1), q, old(spine)[a + 1])
      ensures forall x :: x in spine ==> x in old(spine)
      ensures pp == spine[a + 1]
    {
      ghost var before := spine;
      var p := Link(pp, a + 1);
      assert Leads(spine, a + 1);
      var target := Link(ppPos, q);
      AllDistinct(before);
      assert DistinctAt(before, a, a + 1);
      assert q > 0 ==> DistinctAt(before, q - 1, a) && DistinctAt(before, q - 1, a + 1);
      Relink(pp, p, ppPos, target);
      assert forall i {:trigger NextAfter(before, a, q, i)} ::
               0 <= i < |before| ==> before[i].next == NextAfter(before, a, q, i) by {
        hide Distinct;
        forall i | 0 <= i < |before| ensures before[i].next == NextAfter(before, a, q, i) {
          assert DistinctAt(before, i, a) && DistinctAt(before, i, a + 1) && (q > 0 ==> DistinctAt(before, i, q - 1));
          assert old(Leads(spine, i));
        }
      }
      spine := InsertAt(RemoveAt(before, a + 1), q, p);
      MovedLinks(before, a, q);
    }

    /** The links after the move are those of the new order. */
    lemma MovedLinks(before: seq<Node<T>>, a: nat, q: nat)
      requires q <= a < |before| - 1 && Distinct(before) && count == |before|
      requires spine == InsertAt(RemoveAt(before, a + 1), q, before[a + 1])
      requires head == if q == 0 then before[a + 1] else before[0]
      requires forall i {:trigger NextAfter(before, a, q, i)} ::
                 0 <= i < |before| ==> before[i].next == NextAfter(before, a, q, i)
      ensures Linked()
    {
      assert |RemoveAt(before, a + 1)| == |before| - 1;
      hide InsertAt, RemoveAt, Distinct, NextAfter, NodeAt;
      RemovedSpine(before, a + 1);
      NotInRest(before, a + 1);
      InsertedSpine(RemoveAt(before, a + 1), q, before[a + 1]);
      MovedSpine(before, a, q);
      forall i | 0 <= i < |spine| ensures Leads(spine, i) {
        assert spine[i] == before[Origin(a, q, i)];
        assert NextAfter(before, a, q, Origin(a, q, i)) == NodeAt(spine, i + 1);
      }
    }

    /** The search in list_sort for the place of a node that is below its predecessor. */
    method FindPlace(x: T, f: Compare<T>, ghost a: nat) returns (ppPos: Node?<T>, ghost q: nat)
      requires Linked() && a < |spine| && f(x, spine[a].data) < 0
      ensures q <= a && ppPos == LinkAt(spine, q)
      ensures FirstAbove(Items()[..a + 1], x, f) == q
    {
      ppPos, q := null, 0;
      var p := Link(ppPos, q);
      while f(x, p.data) >= 0
        invariant q <= a && ppPos == LinkAt(spine, q) && p == spine[q]
        invariant forall i :: 0 <= i < q ==> f(x, spine[i].data) >= 0
        decreases a - q
      {
        ppPos := p;
        q := q + 1;
        p := Link(ppPos, q);
      }
      FirstAboveIs(Items()[..a + 1], x, f, q);
    }

    /** One round of the loop of list_sort: pp holds the link to the next node, ppPrev the
        link to the node before it. */
    method SortStep(ppPrev: Node?<T>, pp: Node<T>, f: Compare<T>, ghost a: nat, ghost nodes: set<Node<T>>)
      returns (ppPrev': Node?<T>, pp': Node<T>)
      requires forall x :: x in spine ==> x in nodes
      requires Linked() && a + 1 < |spine| && pp == spine[a] && ppPrev == LinkAt(spine, a)
      modifies this`head, this`spine, nodes`next
      ensures Linked() && |spine| == old(|spine|) && pp' == spine[a + 1] && ppPrev' == LinkAt(spine, a + 1)
      ensures forall x :: x in spine ==> x in nodes
      ensures Items() == Round(old(Items()), a, f)
    {
      hide Round, FirstAbove, Leads, Distinct, InsertAt, RemoveAt, DataOf, Origin;
      ghost var now, before := Items(), spine;
      var p := Link(pp, a + 1);
      var prevNode := Link(ppPrev, a);
      ppPrev', pp' := ppPrev, pp;
      if f(p.data, prevNode.data) < 0 {
        ghost var q;
        var ppPos;
        ppPos, q := FindPlace(p.data, f, a);
        MovedRound(before, a, q, f);
        MoveBack(pp, ppPos, a, q);
        MovedAt(before, a, q);
        if ppPrev == ppPos {
          LinksDiffer(before, q, a);
          ppPrev' := Link(ppPrev, q);
        }
      } else {
        RoundStays(now, a, f);
        ppPrev' := pp;
        pp' := p;
      }
    }

    method SortNodes(f: Compare<T>)
      requires Linked() && |spine| > 0
      modifies this`head, this`tail, this`spine, spine`next
      ensures Linked() && tail == LinkAt(spine, |spine|) && |spine| == old(|spine|)
      ensures Items() == Sorting(old(Items()), f)
    {
      hide Sorting, Round, SortedTo, Leads, Distinct, DataOf;
      ghost var items, a, nodes := Items(), 0, set x | x in spine;
      var ppPrev: Node?<T>, pp := null, head;
      var p := Link(pp, a + 1);
      SortedStart(items, f);
      while p != null
        invariant Linked() && a < |spine| && |spine| == |items|
        invariant pp == spine[a] && ppPrev == LinkAt(spine, a) && p == NodeAt(spine, a + 1)
        invariant forall x :: x in spine ==> x in nodes
        invariant SortedTo(items, Items(), a, f)
        decreases |spine| - a
      {
        SortedRound(items, Items(), a, f);
        ppPrev, pp := SortStep(ppPrev, pp, f, a, nodes);
        a := a + 1;
        p := Link(pp, a + 1);
      }
      tail := pp;
      SortedEnd(items, Items(), a, f);
    }

    /** list_sort: an insertion sort on the links. Iterators go back to the start, but
        only if the list has more than one item. */
    method Sort(f: Compare<T>)
      requires Valid()
      modifies this, spine`next, iters
      ensures Valid() && iters == old(iters)
      ensures Items() == Sorting(old(Items()), f)
      ensures |old(Items())| > 1 ==> forall it :: it in iters ==> it.at == Cursor(0, 0)
      ensures |old(Items())| <= 1 ==> forall it :: it in iters ==> it.at == old(it.at)
    {
      hide Sorting, PointsAt;
      if count <= 1 {
        SortingShort(Items(), f);
      } else {
        SortNodes(f);
        var i := 0;
        while i < |iters|
          invariant 0 <= i <= |iters|
          invariant forall k :: 0 <= k < i ==>
                      iters[k].pos == head && iters[k].prev == null && iters[k].at == Cursor(0, 0)
          modifies iters
        {
          iters[i].pos, iters[i].prev, iters[i].at := head, null, Cursor(0, 0);
          i := i + 1;
        }
        StartPoints(spine);
      }
    }
  }
}
