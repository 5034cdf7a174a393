/** Cpusets made, updated and cleaned under the lock, each held section one step, and what
    holds in every tree that such steps lead to. */
module CpusetTree {
  import opened Sequences
  import opened ListSpec
  import opened NodeSpec
  import opened NodeMap
  import opened CpusetSpec

  // ---- what a tree in order means ----

  predicate Prefix(p: Path, q: Path) {
    |p| <= |q| && q[..|p|] == p
  }

  /** No two cpusets share a CPU unless one is in the other, or an orphan. So for users, for
      the jobs of all users, and for the steps and tasks of a job. */
  lemma {:induction false} UnrelatedApart(t: Tree, all: set<nat>, p: Path, q: Path)
    requires Valid(t, all) && p in t && q in t && !Prefix(p, q) && !Prefix(q, p)
    requires !p[0].Orphan? && !q[0].Orphan?
    ensures t[p].cpus !! t[q].cpus
    decreases |p| + |q|
  {
    hide Valid, Prefix;
    PrefixParent(p, q);
    PrefixParent(q, p);
    AboveFacts(t, all, p);
    AboveFacts(t, all, q);
    if |p| > |q| {
      UnrelatedApart(t, all, Parent(p), q);
    } else if |q| > |p| {
      UnrelatedApart(t, all, p, Parent(q));
    } else if Parent(p) == Parent(q) {
      assert Beside(p, q);
    } else {
      UnrelatedApart(t, all, Parent(p), Parent(q));
    }
  }

  lemma PrefixParent(p: Path, q: Path)
    requires !Prefix(p, q) && !Prefix(q, p)
    ensures p != [] && p != q
    ensures |p| > |q| ==> Parent(p) != [] && Parent(p)[0] == p[0] && !Prefix(Parent(p), q) && !Prefix(q, Parent(p))
    ensures |p| == |q| && Parent(p) != Parent(q) ==>
              Parent(p) != [] && Parent(p)[0] == p[0] && !Prefix(Parent(p), Parent(q)) && !Prefix(Parent(q), Parent(p))
  {}

  lemma AboveFacts(t: Tree, all: set<nat>, p: Path)
    requires Valid(t, all) && p in t && p != []
    ensures SideBySide(t) && Parent(p) in t && t[p].cpus <= t[Parent(p)].cpus
    ensures !p[0].Orphan? ==> Counts(p)
  {
    assert Named(p);
  }

  lemma {:induction false} WithinAbove(t: Tree, all: set<nat>, p: Path, q: Path)
    requires Valid(t, all) && q in t && Prefix(p, q)
    ensures p in t && t[q].cpus <= t[p].cpus <= all
    decreases |q|
  {
    if p == q {
      if q != [] {
        WithinAbove(t, all, [], Parent(q));
      }
    } else {
      assert Prefix(p, Parent(q));
      WithinAbove(t, all, p, Parent(q));
    }
  }

  // ---- cleaning ----

  /** What SLURM says of jobs; a job that it cannot be asked about counts as running. */
  datatype Jobs = Unknown | Known(running: set<int>)

  predicate Runs(jobs: Jobs, id: int) {
    jobs.Unknown? || id in jobs.running
  }

  /** The cpuset of a running job of a user who is logged in. */
  predicate Held(t: Tree, p: Path, jobs: Jobs) {
    && |p| == 2 && p[0].Uid? && p[1].Id? && [p[0]] in t && t[[p[0]]].tasks != {}
    && Runs(jobs, p[1].id)
  }

  /** It has tasks, or is held, or something in it has or is. */
  ghost predicate Needed(t: Tree, p: Path, jobs: Jobs) {
    exists q :: q in t && Prefix(p, q) && (t[q].tasks != {} || Held(t, q, jobs))
  }

  ghost function Cleaned(t: Tree, jobs: Jobs): (r: Tree)
    ensures forall p :: p in r <==> p in t && (p == [] || Needed(t, p, jobs))
    ensures forall p :: p in r ==> r[p] == t[p]
  {
    map p | p in t && (p == [] || Needed(t, p, jobs)) :: t[p]
  }

  /** The order of a walk through the tree that comes to children before parents. */
  ghost predicate PostOrder(order: seq<Path>, t: Tree) {
    && (forall p :: p in order <==> p in t && p != [])
    && (forall i, j :: 0 <= i < j < |order| ==> !Prefix(order[i], order[j]))
  }

  lemma CleanedKeeps(t: Tree, all: set<nat>, jobs: Jobs)
    requires Valid(t, all)
    ensures Valid(Cleaned(t, jobs), all)
  {
    var r := Cleaned(t, jobs);
    forall p | p in r && p != [] ensures Parent(p) in r {
      assert Named(p);
      var q :| q in t && Prefix(p, q) && (t[q].tasks != {} || Held(t, q, jobs));
      assert Prefix(Parent(p), q);
    }
  }

  /** A cpuset is needed by itself or by one directly in it. */
  lemma NeededBy(t: Tree, all: set<nat>, p: Path, jobs: Jobs)
    requires Valid(t, all) && p in t
    ensures Needed(t, p, jobs) <==>
            t[p].tasks != {} || Held(t, p, jobs) || exists c :: c in Children(t, p) && Needed(t, c, jobs)
  {
    hide Valid, Held, Children, Needed;
    if t[p].tasks != {} || Held(t, p, jobs) {
      NeedsSelf(t, p, jobs);
    } else if Needed(t, p, jobs) {
      var c := NeededChild(t, all, p, jobs);
    } else if c :| c in Children(t, p) && Needed(t, c, jobs) {
      ChildNeeds(t, p, c, jobs);
    }
  }

  lemma NeedsSelf(t: Tree, p: Path, jobs: Jobs)
    requires p in t && (t[p].tasks != {} || Held(t, p, jobs))
    ensures Needed(t, p, jobs)
  {
    assert Prefix(p, p);
  }

  lemma NeededChild(t: Tree, all: set<nat>, p: Path, jobs: Jobs) returns (c: Path)
    requires Valid(t, all) && p in t && Needed(t, p, jobs) && t[p].tasks == {} && !Held(t, p, jobs)
    ensures c in Children(t, p) && Needed(t, c, jobs)
  {
    hide Valid, Held;
    var q :| q in t && Prefix(p, q) && (t[q].tasks != {} || Held(t, q, jobs));
    assert q[..|q|] == q;
    c := q[..|p| + 1];
    WithinAbove(t, all, c, q);
  }

  lemma ChildNeeds(t: Tree, p: Path, c: Path, jobs: Jobs)
    requires c in Children(t, p) && Needed(t, c, jobs)
    ensures Needed(t, p, jobs)
  {
    hide Held;
    var q :| q in t && Prefix(c, q) && (t[q].tasks != {} || Held(t, q, jobs));
    assert q[..|p|] == q[..|c|][..|p|];
    assert Prefix(p, q);
  }

  /** The walk has come past the first i cpusets. */
  ghost predicate CleanedTo(r: Tree, t: Tree, order: seq<Path>, i: nat, jobs: Jobs)
    requires i <= |order|
  {
    && (forall p :: p in r <==> p in t && (p !in order[..i] || Needed(t, p, jobs)))
    && (forall p :: p in r ==> r[p] == t[p])
  }

  /** cpuset_ntasks, slurm_jobid_is_valid and rmdir, which fails where there are tasks or
      further cpusets. */
  function CleanedPath(t: Tree, p: Path, jobs: Jobs): Tree {
    if Held(t, p, jobs) then t
    else if p in t && t[p].tasks == {} && Children(t, p) == {} then t - {p}
    else t
  }

  lemma CleanStep(r: Tree, t: Tree, all: set<nat>, order: seq<Path>, i: nat, jobs: Jobs)
    requires Valid(t, all) && PostOrder(order, t) && i < |order| && CleanedTo(r, t, order, i, jobs)
    ensures CleanedTo(CleanedPath(r, order[i], jobs), t, order, i + 1, jobs)
  {
    hide Needed, Valid;
    var p := order[i];
    assert order[..i + 1] == order[..i] + [p];
    assert p !in order[..i] by {
      forall k | 0 <= k < i ensures order[k] != p { assert !Prefix(order[k], order[i]); }
    }
    assert p in order && p in t && p in r;
    assert Held(r, p, jobs) == Held(t, p, jobs) by { HeldStill(r, t, all, order, i, jobs); }
    forall c ensures c in Children(r, p) <==> c in Children(t, p) && Needed(t, c, jobs) {
      if c in Children(t, p) {
        ChildBefore(t, order, i, c);
      }
    }
    NeededBy(t, all, p, jobs);
  }

  lemma ChildBefore(t: Tree, order: seq<Path>, i: nat, c: Path)
    requires PostOrder(order, t) && i < |order| && c in Children(t, order[i])
    ensures c in order[..i]
  {
    assert c in order;
    var j :| 0 <= j < |order| && order[j] == c;
    assert Prefix(order[i], order[j]);
    assert j != i && !(i < j);
    assert order[..i][j] == c;
  }

  lemma HeldStill(r: Tree, t: Tree, all: set<nat>, order: seq<Path>, i: nat, jobs: Jobs)
    requires Valid(t, all) && PostOrder(order, t) && i < |order| && CleanedTo(r, t, order, i, jobs)
    ensures Held(r, order[i], jobs) == Held(t, order[i], jobs)
  {
    var p := order[i];
    if |p| == 2 && [p[0]] in t {
      assert [p[0]] !in order[..i] by {
        forall k | 0 <= k < i ensures order[k] != [p[0]] {
          assert !Prefix(order[k], order[i]);
          assert Prefix([p[0]], p);
        }
      }
    }
  }

  lemma CleanedAll(r: Tree, t: Tree, order: seq<Path>, jobs: Jobs)
    requires PostOrder(order, t) && CleanedTo(r, t, order, |order|, jobs) && [] in t
    ensures r == Cleaned(t, jobs)
  {
    hide Needed;
    assert order[..|order|] == order;
    assert [] !in order;
  }

  // ---- the plugin ----

  function Gathered(t: Tree, qs: set<Path>): set<nat> {
    set q, c | q in qs && q in t && Counts(q) && c in t[q].cpus :: c
  }

  lemma GatheredOne(t: Tree, qs: set<Path>, q: Path)
    requires q in t
    ensures Gathered(t, qs + {q}) == Gathered(t, qs) + if Counts(q) then t[q].cpus else {}
  {}

  lemma ChildIn(t: Tree, p: Path, q: Path)
    requires q in Children(t, p)
    ensures q in t
  {}

  lemma GatheredAll(t: Tree, p: Path)
    ensures Gathered(t, Children(t, p)) == UsedBelow(t, p)
    ensures Children(t, p) - Children(t, p) == {} && Gathered(t, {}) == {}
  {
    assert forall q :: q in Children(t, p) <==> q in t && ChildOf(q, p);
  }

  class Cpusets {
    const ncpus: nat
    const places: seq<Place>
    var tree: Tree

    ghost predicate InOrder()
      reads this
    {
      Valid(tree, Cpus(ncpus)) && System(places, ncpus)
    }

    constructor (places: seq<Place>, ncpus: nat)
      requires System(places, ncpus)
      ensures InOrder() && tree == map[[] := Dir(Cpus(ncpus), {})]
    {
      this.places, this.ncpus := places, ncpus;
      tree := map[[] := Dir(Cpus(ncpus), {})];
    }

    /** used_cpus_bitmask_path; directories come in any order. */
    method UsedCpus(cur: Path, clearAll: bool) returns (used: set<nat>)
      requires cur in tree
      ensures used == (if clearAll then {} else Cpus(ncpus) - tree[cur].cpus) + UsedBelow(tree, cur)
    {
      hide Gathered, UsedBelow, Children, Cpus, Counts;
      used := {};
      if !clearAll {
        used := Cpus(ncpus) - tree[cur].cpus;
      }
      ghost var outside, all := used, Children(tree, cur);
      var rest := Children(tree, cur);
      GatheredAll(tree, cur);
      while rest != {}
        invariant rest <= all && used == outside + Gathered(tree, all - rest)
        decreases rest
      {
        var q :| q in rest;
        ChildIn(tree, cur, q);
        GatheredOne(tree, all - rest, q);
        assert all - (rest - {q}) == all - rest + {q};
        rest := rest - {q};
        if Counts(q) {
          used := used + tree[q].cpus;
        }
      }
      assert all - rest == all;
    }

    /** user_cpuset_update */
    method UserCpusetUpdate(uid: nat, alloc: set<nat>, killOrphans: bool)
      modifies this`tree
      ensures tree == Updated(old(tree), uid, alloc, killOrphans)
    {
      hide Renamed, UsedBelow;
      var orphan := [Orphan(uid)] in tree && [Uid(uid)] !in tree;
      if orphan {
        tree := Renamed(tree, Orphan(uid), Uid(uid));
      } else if [Uid(uid)] !in tree {
        tree := tree[[Uid(uid)] := Dir({}, {})];
      }
      assert tree == Opened(old(tree), uid);
      var used := UsedCpus([Uid(uid)], true);
      if orphan {
        used := {};
      }
      used := used + alloc;
      assert used == Wanted(old(tree), uid, alloc);
      if used == {} {
        if !killOrphans && [Orphan(uid)] !in tree {
          tree := Renamed(tree, Uid(uid), Orphan(uid));
        }
        return;
      }
      tree := tree[[Uid(uid)] := Dir(used, tree[[Uid(uid)]].tasks)];
    }

    /** update_user_cpusets, whatever order the directories come in. */
    method UpdateUserCpusets(killOrphans: bool) returns (ghost uids: seq<nat>)
      requires InOrder()
      modifies this`tree
      ensures InOrder() && Lists(uids, old(tree)) && tree == UpdatedEach(old(tree), uids, killOrphans)
      ensures JobsKept(tree, old(tree)) && forall u :: SettledAt(tree, u, killOrphans)
    {
      hide Valid, Updated, JobsKept, SettledAt, System;
      ghost var was := tree;
      var rest: set<Path> := set p | p in tree && |p| == 1;
      uids := [];
      while rest != {}
        invariant forall p :: p in rest ==> p in was && |p| == 1
        invariant forall i :: 0 <= i < |uids| ==> [Uid(uids[i])] in was && [Uid(uids[i])] !in rest
        invariant forall i, j :: 0 <= i < j < |uids| ==> uids[i] != uids[j]
        invariant forall u :: [Uid(u)] in was ==> [Uid(u)] in rest || u in uids
        invariant tree == UpdatedEach(was, uids, killOrphans)
        decreases rest
      {
        var p: Path :| p in rest;
        rest := rest - {p};
        if p[0].Uid? {
          assert p == [Uid(p[0].uid)];
          UpdatedOneMore(was, uids, p[0].uid, killOrphans);
          UserCpusetUpdate(p[0].uid, {}, killOrphans);
          uids := uids + [p[0].uid];
        }
      }
      EachSettled(was, Cpus(ncpus), uids, killOrphans);
      forall u ensures SettledAt(tree, u, killOrphans) {
        if u !in uids {
          assert [Uid(u)] !in was;
          NoUser(tree, u, killOrphans);
        }
      }
    }

    /** slurm_cpuset_clean_path */
    method CleanPath(p: Path, jobs: Jobs)
      modifies this`tree
      ensures tree == CleanedPath(old(tree), p, jobs)
    {
      if |p| == 2 && p[0].Uid? && p[1].Id? {
        var user := [p[0]];
        if user in tree && tree[user].tasks != {} && Runs(jobs, p[1].id) {
          return;
        }
      }
      if p in tree && tree[p].tasks == {} && Children(tree, p) == {} {
        tree := tree - {p};
      }
    }

    /** slurm_cpuset_clean: what no task and no running job needs goes, and then each user
        has just the CPUs of the user's jobs. */
    method Clean(order: seq<Path>, jobs: Jobs, killOrphans: bool) returns (ghost uids: seq<nat>)
      requires InOrder() && PostOrder(order, tree)
      modifies this`tree
      ensures InOrder() && Lists(uids, Cleaned(old(tree), jobs))
      ensures tree == UpdatedEach(Cleaned(old(tree), jobs), uids, killOrphans)
      ensures JobsKept(tree, Cleaned(old(tree), jobs)) && forall u :: SettledAt(tree, u, killOrphans)
    {
      hide Valid, CleanedPath, CleanedTo, PostOrder, JobsKept, SettledAt, System, Needed, Lists;
      ghost var was := tree;
      var i := 0;
      CleanedNone(was, order, jobs);
      while i < |order|
        invariant 0 <= i <= |order| && CleanedTo(tree, was, order, i, jobs)
      {
        CleanStep(tree, was, Cpus(ncpus), order, i, jobs);
        CleanPath(order[i], jobs);
        i := i + 1;
      }
      assert [] in was by { ValidRooted(was, Cpus(ncpus)); }
      CleanedAll(tree, was, order, jobs);
      CleanedKeeps(was, Cpus(ncpus), jobs);
      uids := UpdateUserCpusets(killOrphans);
    }

    /** create_cpuset: for a job of the user if uid is not negative, called from outside the
        users' cpusets; and otherwise for a step or a task, called from inside one. */
    method CreateCpuset(policy: Policy, cur: Path, id: int, uid: int, count: int, killOrphans: bool)
      returns (r: Option<set<nat>>)
      requires InOrder() && cur in tree && (uid >= 0 <==> cur == [])
      modifies this`tree
      ensures count > |Free(old(tree), cur)| <==> r == None
      ensures r == None ==> tree == old(tree)
      ensures r.Some? ==> r.value <= Free(old(tree), cur) && |r.value| == NotBelowZero(count)
      ensures r.Some? ==>
                tree == WithNew(old(tree), cur, uid, id, r.value, killOrphans)
      ensures r.Some? && (count > 0 || uid < 0) ==> Home(cur, uid) in tree
      ensures r.Some? && Home(cur, uid) in tree && Absent(old(tree), cur, uid, id) ==>
                && Home(cur, uid) + [Id(id)] in tree
                && tree[Home(cur, uid) + [Id(id)]] == Dir(r.value, {})
      ensures InOrder() <==> !(r.Some? && if uid >= 0 then Harms(old(tree), uid, r.value, killOrphans)
                                          else InOrphan(old(tree), cur, id, r.value))
    {
      hide Valid, Updated, UsedBelow, System, Made, Laid, Harms, Absent, Home;
      ghost var was := tree;
      UsedWithinAll(tree, Cpus(ncpus), cur);
      var used := UsedCpus(cur, false);
      var map0 := new NodeMap(policy, places, tree[cur].cpus, used, ncpus);
      r := map0.Allocate(count);
      FreeCountOf(tree, Cpus(ncpus), cur, used);
      if r == None { return; }
      var alloc := r.value;
      assert alloc <= Free(was, cur);
      CreatedHas(was, cur, uid, id, alloc, killOrphans);
      if uid >= 0 {
        UserCpusetUpdate(uid, alloc, killOrphans);
        JobOrder(was, Cpus(ncpus), uid, id, alloc, killOrphans);
      } else {
        StepOrder(was, Cpus(ncpus), cur, id, alloc);
      }
      var dir := if uid >= 0 then [Uid(uid)] else cur;
      if dir in tree && dir + [Id(id)] !in tree {
        tree := tree[dir + [Id(id)] := Dir(alloc, {})];
      }
    }
  }

  /** The directory that a new cpuset is made in. */
  function Home(cur: Path, uid: int): Path {
    if uid >= 0 then [Uid(uid)] else cur
  }

  /** There is no cpuset of that name yet, nor one in an orphan that may be moved back. */
  predicate Absent(t: Tree, cur: Path, uid: int, id: int) {
    Home(cur, uid) + [Id(id)] !in t && (uid >= 0 ==> [Orphan(uid), Id(id)] !in t)
  }

  function WithNew(t: Tree, cur: Path, uid: int, id: int, alloc: set<nat>, killOrphans: bool): Tree {
    if uid >= 0 then JobCreated(t, uid, id, alloc, killOrphans) else Created(t, cur, id, alloc)
  }

  /** The new cpuset has just the CPUs that were allocated, and no tasks. */
  lemma CreatedHas(t: Tree, cur: Path, uid: int, id: int, alloc: set<nat>, killOrphans: bool)
    requires cur in t
    ensures var r, dir := WithNew(t, cur, uid, id, alloc, killOrphans), Home(cur, uid);
            && (alloc != {} || uid < 0 ==> dir in r)
            && (dir in r && Absent(t, cur, uid, id) ==> dir + [Id(id)] in r && r[dir + [Id(id)]] == Dir(alloc, {}))
            && (forall p :: p in r && p != dir + [Id(id)] && p != dir && !(uid >= 0 && OfUser(p, uid)) ==>
                  p in t && r[p] == t[p])
  {
    hide Updated;
    if uid >= 0 {
      assert [Uid(uid)] + [Id(id)] == [Uid(uid), Id(id)];
      JobHas(t, uid, id, alloc, killOrphans);
    }
  }

  lemma JobHas(t: Tree, uid: nat, id: int, alloc: set<nat>, killOrphans: bool)
    ensures var u, p := Updated(t, uid, alloc, killOrphans), [Uid(uid), Id(id)];
            && (alloc != {} ==> [Uid(uid)] in u)
            && ([Uid(uid)] in u && p in u ==> p in t || [Orphan(uid), Id(id)] in t)
            && (forall q :: q in u && !OfUser(q, uid) ==> q in t && u[q] == t[q])
  {
    hide UsedBelow, Opened, Renamed;
    var o, p := Opened(t, uid), [Uid(uid), Id(id)];
    OpenedHas(t, uid, id);
    RenamedHas(o, Uid(uid), Orphan(uid), uid);
    assert Swap([Uid(uid)], Uid(uid), Orphan(uid)) == [Orphan(uid)];
  }

  lemma OpenedHas(t: Tree, uid: nat, id: int)
    ensures var o, p := Opened(t, uid), [Uid(uid), Id(id)];
            && [Uid(uid)] in o && (p in o ==> p in t || [Orphan(uid), Id(id)] in t)
            && (forall q :: q in o && !OfUser(q, uid) ==> q in t && o[q] == t[q])
  {
    hide Renamed;
    RenamedHas(t, Orphan(uid), Uid(uid), uid);
    assert Swap([Uid(uid), Id(id)], Orphan(uid), Uid(uid)) == [Orphan(uid), Id(id)];
  }

  lemma RenamedHas(t: Tree, x: Name, y: Name, uid: nat)
    requires {x, y} == {Uid(uid), Orphan(uid)}
    ensures forall q :: q in Renamed(t, x, y) && !OfUser(q, uid) ==> q in t && Renamed(t, x, y)[q] == t[q]
  {
    hide Renamed;
    forall q | q in Renamed(t, x, y) && !OfUser(q, uid) ensures q in t && Renamed(t, x, y)[q] == t[q] {
      assert q != [] ==> q[0] !in {x, y};
      assert Swap(q, x, y) == q;
    }
  }

  /** Where a new job's cpuset does harm, it does by what comes before. */
  lemma JobOrder(t: Tree, all: set<nat>, uid: nat, jobid: int, alloc: set<nat>, killOrphans: bool)
    requires Valid(t, all) && alloc <= all && alloc !! UsedBelow(t, [])
    ensures Valid(JobCreated(t, uid, jobid, alloc, killOrphans), all) <==> !Harms(t, uid, alloc, killOrphans)
  {
    hide Valid, UsedBelow, JobCreated, Harms;
    if Harms(t, uid, alloc, killOrphans) {
      HarmStays(t, all, uid, jobid, alloc, killOrphans);
    } else {
      JobKeeps(t, all, uid, jobid, alloc, killOrphans);
    }
  }

  lemma HarmStays(t: Tree, all: set<nat>, uid: nat, jobid: int, alloc: set<nat>, killOrphans: bool)
    requires Valid(t, all) && Harms(t, uid, alloc, killOrphans)
    ensures !Valid(JobCreated(t, uid, jobid, alloc, killOrphans), all)
  {
    hide UsedBelow, Opened, Rooted, Tops, Nested, OrphansBare, SidesBut, Created, Wanted, MovedBack;
    var u := Updated(t, uid, alloc, killOrphans);
    UpdateKeeps(t, all, uid, alloc, killOrphans);
    WantedNothing(t, uid, alloc);
    OpenedKeeps(t, all, uid);
    assert u == Opened(t, uid) && !SideBySide(u);
    if SideBySide(Created(u, [Uid(uid)], jobid, alloc)) {
      CreatedSides(u, [Uid(uid)], jobid, alloc);
    }
  }

  lemma CreatedSides(t: Tree, cur: Path, id: int, cpus: set<nat>)
    requires SideBySide(Created(t, cur, id, cpus))
    ensures SideBySide(t)
  {
    assert forall p :: p in t ==> p in Created(t, cur, id, cpus) && Created(t, cur, id, cpus)[p] == t[p];
  }

  /** CPUs are given to something in an orphan, whose own may be used by others. */
  predicate InOrphan(t: Tree, cur: Path, id: int, alloc: set<nat>) {
    |cur| == 1 && cur[0].Orphan? && alloc != {} && cur in t && cur + [Id(id)] !in t
  }

  lemma StepOrder(t: Tree, all: set<nat>, cur: Path, id: int, alloc: set<nat>)
    requires Valid(t, all) && cur != [] && cur in t && alloc <= Free(t, cur)
    ensures Valid(Created(t, cur, id, alloc), all) <==> !InOrphan(t, cur, id, alloc)
  {
    if InOrphan(t, cur, id, alloc) {
      var p := cur + [Id(id)];
      assert p in Created(t, cur, id, alloc) && |p| == 2 && p[0].Orphan?;
    } else if cur + [Id(id)] !in t {
      assert cur[0].Orphan? && |cur| >= 2 ==> t[cur].cpus == {};
      CreateKeeps(t, all, cur, id, alloc);
    }
  }

  /** The users that have cpusets, each once. */
  ghost predicate Lists(uids: seq<nat>, t: Tree) {
    && (forall i, j :: 0 <= i < j < |uids| ==> uids[i] != uids[j])
    && (forall u :: u in uids <==> [Uid(u)] in t)
  }

  lemma UpdatedOneMore(t: Tree, uids: seq<nat>, uid: nat, killOrphans: bool)
    ensures UpdatedEach(t, uids + [uid], killOrphans)
         == Updated(UpdatedEach(t, uids, killOrphans), uid, {}, killOrphans)
  {
    assert (uids + [uid])[..|uids|] == uids;
  }

  lemma NoUser(t: Tree, uid: nat, killOrphans: bool)
    requires [Uid(uid)] !in t
    ensures SettledAt(t, uid, killOrphans)
  {}

  lemma CleanedNone(t: Tree, order: seq<Path>, jobs: Jobs)
    ensures CleanedTo(t, t, order, 0, jobs)
  {}

  lemma ValidRooted(t: Tree, all: set<nat>)
    requires Valid(t, all)
    ensures [] in t
  {}

  /** The CPUs of a cpuset that none in it has. */
  function Free(t: Tree, cur: Path): set<nat>
    requires cur in t
  {
    t[cur].cpus - UsedBelow(t, cur)
  }

  lemma UsedWithinAll(t: Tree, all: set<nat>, cur: Path)
    requires Valid(t, all) && cur in t
    ensures t[cur].cpus <= all && UsedBelow(t, cur) <= t[cur].cpus
  {
    hide UsedBelow;
    WithinAbove(t, all, cur, cur);
    UsedWithin(t, cur);
  }

  lemma FreeCountOf(t: Tree, all: set<nat>, cur: Path, used: set<nat>)
    requires Valid(t, all) && cur in t && used == (all - t[cur].cpus) + UsedBelow(t, cur)
    ensures Free(t, cur) == all - used && |Free(t, cur)| == |all| - |used|
  {
    hide UsedBelow, Valid;
    UsedWithinAll(t, all, cur);
    assert Free(t, cur) == all - used;
    assert |all - used| == |all| - |used|;
  }

  // ---- runs ----

  datatype Event =
    | JobStarts(uid: nat, jobid: int, alloc: set<nat>, killOrphans: bool)
    | StepStarts(cur: Path, id: int, alloc: set<nat>)   // a step or a task, inside a user's cpuset
    | Cleans(jobs: Jobs, uids: seq<nat>, killOrphans: bool)
    | Enters(into: Path, pid: nat)
    | Leaves(from: Path, pid: nat)

  /** What a section that holds the lock, or the kernel, can make of the tree. */
  ghost predicate Next(t: Tree, e: Event, r: Tree) {
    match e
    case JobStarts(uid, jobid, alloc, kill) =>
      [] in t && alloc <= Free(t, []) && r == JobCreated(t, uid, jobid, alloc, kill)
    case StepStarts(cur, id, alloc) =>
      && cur != [] && !(|cur| == 1 && cur[0].Orphan?) && cur in t && alloc <= Free(t, cur)
      && r == Created(t, cur, id, alloc)
    case Cleans(jobs, uids, kill) =>
      Lists(uids, Cleaned(t, jobs)) && r == UpdatedEach(Cleaned(t, jobs), uids, kill)
    case Enters(p, pid) =>
      p in t && t[p].cpus != {} && r == t[p := Dir(t[p].cpus, t[p].tasks + {pid})]
    case Leaves(p, pid) =>
      p in t && r == t[p := Dir(t[p].cpus, t[p].tasks - {pid})]
  }

  ghost predicate Harmful(t: Tree, e: Event) {
    e.JobStarts? && Harms(t, e.uid, e.alloc, e.killOrphans)
  }

  lemma TasksMove(t: Tree, all: set<nat>, p: Path, tasks: set<nat>)
    requires Valid(t, all) && p in t
    ensures Valid(t[p := Dir(t[p].cpus, tasks)], all)
  {
    var r := t[p := Dir(t[p].cpus, tasks)];
    assert forall q :: q in r <==> q in t;
    assert forall q :: q in t ==> r[q].cpus == t[q].cpus;
  }

  lemma NextKeeps(t: Tree, all: set<nat>, e: Event, r: Tree)
    requires Valid(t, all) && Next(t, e, r)
    ensures Valid(r, all) <==> !Harmful(t, e)
  {
    hide Valid, JobCreated, UsedBelow, UpdatedEach, Cleaned, Harms, Lists;
    match e
    case JobStarts(uid, jobid, alloc, kill) =>
      UsedWithinAll(t, all, []);
      JobOrder(t, all, uid, jobid, alloc, kill);
    case StepStarts(cur, id, alloc) =>
      StepOrder(t, all, cur, id, alloc);
    case Cleans(jobs, uids, kill) =>
      CleanedKeeps(t, all, jobs);
      ListsMeaning(uids, Cleaned(t, jobs));
      EachSettled(Cleaned(t, jobs), all, uids, kill);
    case Enters(p, pid) =>
      TasksMove(t, all, p, t[p].tasks + {pid});
    case Leaves(p, pid) =>
      TasksMove(t, all, p, t[p].tasks - {pid});
  }

  lemma ListsMeaning(uids: seq<nat>, t: Tree)
    requires Lists(uids, t)
    ensures forall i :: 0 <= i < |uids| ==> [Uid(uids[i])] in t
    ensures forall i, j :: 0 <= i < j < |uids| ==> uids[i] != uids[j]
  {
    assert forall i :: 0 <= i < |uids| ==> uids[i] in uids;
  }

  /** A run from the empty /slurm. */
  ghost predicate Run(ts: seq<Tree>, es: seq<Event>, all: set<nat>) {
    && |ts| == |es| + 1 && ts[0] == map[[] := Dir(all, {})]
    && forall i :: 0 <= i < |es| ==> Next(ts[i], es[i], ts[i + 1])
  }

  /** Every tree of every run is in order, as long as no update did the one harm it can. */
  lemma {:induction false} RunsInOrder(ts: seq<Tree>, es: seq<Event>, all: set<nat>, n: nat)
    requires Run(ts, es, all) && n < |ts|
    requires forall i :: 0 <= i < n ==> !Harmful(ts[i], es[i])
    ensures Valid(ts[n], all)
  {
    if n == 0 {
      StartsInOrder(all);
    } else {
      hide Next, Harmful, Valid;
      RunsInOrder(ts, es, all, n - 1);
      assert Next(ts[n - 1], es[n - 1], ts[n]) by { assert ts[n - 1 + 1] == ts[n]; }
      NextKeeps(ts[n - 1], all, es[n - 1], ts[n]);
    }
  }

  lemma StartsInOrder(all: set<nat>)
    ensures Valid(map[[] := Dir(all, {})], all)
  {}

  /** In every run: jobs share no CPU, whosever they are, each has its CPUs from its user,
      and no two users share one; and steps and tasks likewise within a job. */
  lemma JobsApart(ts: seq<Tree>, es: seq<Event>, all: set<nat>, n: nat, p: Path, q: Path)
    requires Run(ts, es, all) && n < |ts| && p in ts[n] && q in ts[n]
    requires forall i :: 0 <= i < n ==> !Harmful(ts[i], es[i])
    ensures Prefix(p, q) ==> ts[n][q].cpus <= ts[n][p].cpus
    ensures !Prefix(p, q) && !Prefix(q, p) && p[0].Uid? && q[0].Uid? ==> ts[n][p].cpus !! ts[n][q].cpus
  {
    hide Valid, Next;
    RunsInOrder(ts, es, all, n);
    if Prefix(p, q) {
      WithinAbove(ts[n], all, p, q);
    } else if !Prefix(q, p) && p[0].Uid? && q[0].Uid? {
      UnrelatedApart(ts[n], all, p, q);
    }
  }

  /** In every run a job, step or task that starts has the CPUs allocated to it. */
  lemma StartHas(ts: seq<Tree>, es: seq<Event>, all: set<nat>, i: nat)
    requires Run(ts, es, all) && i < |es|
    ensures var t, r := ts[i], ts[i + 1];
            match es[i]
            case JobStarts(uid, jobid, alloc, kill) =>
              && (alloc != {} ==> [Uid(uid)] in r)
              && ([Uid(uid)] in r && Absent(t, [], uid, jobid) ==>
                    [Uid(uid), Id(jobid)] in r && r[[Uid(uid), Id(jobid)]] == Dir(alloc, {}))
            case StepStarts(cur, id, alloc) =>
              cur + [Id(id)] !in t ==> cur + [Id(id)] in r && r[cur + [Id(id)]] == Dir(alloc, {})
            case _ => true
  {
    hide JobCreated, Created, UsedBelow;
    assert Next(ts[i], es[i], ts[i + 1]);
    match es[i]
    case JobStarts(uid, jobid, alloc, kill) =>
      CreatedHas(ts[i], [], uid, jobid, alloc, kill);
      assert [Uid(uid)] + [Id(jobid)] == [Uid(uid), Id(jobid)];
    case StepStarts(cur, id, alloc) =>
      CreatedHas(ts[i], cur, -1, id, alloc, false);
    case _ =>
  }

  // ---- runs in which the kill-orphans setting stays as it is ----

  /** Every section that reads the setting finds it the same. */
  predicate Steady(es: seq<Event>, kill: bool) {
    forall i :: 0 <= i < |es| ==> SettingIs(es[i], kill)
  }

  predicate SettingIs(e: Event, kill: bool) {
    (e.JobStarts? || e.Cleans?) ==> e.killOrphans == kill
  }

  ghost predicate NoOrphans(t: Tree) {
    forall p: Path :: p in t && p != [] ==> !p[0].Orphan?
  }

  lemma UpdatedNoOrphans(t: Tree, uid: nat, alloc: set<nat>)
    requires NoOrphans(t)
    ensures NoOrphans(Updated(t, uid, alloc, true))
  {
    hide UsedBelow, Renamed;
    assert !MovedBack(t, uid);
  }

  lemma {:induction false} EachNoOrphans(t: Tree, uids: seq<nat>)
    requires NoOrphans(t)
    ensures NoOrphans(UpdatedEach(t, uids, true))
  {
    hide Updated, NoOrphans;
    if uids != [] {
      EachNoOrphans(t, uids[..|uids| - 1]);
      UpdatedNoOrphans(UpdatedEach(t, uids[..|uids| - 1], true), uids[|uids| - 1], {});
    }
  }

  lemma CreatedNoOrphans(t: Tree, cur: Path, id: int, alloc: set<nat>)
    requires NoOrphans(t) && cur != []
    ensures NoOrphans(Created(t, cur, id, alloc))
  {
    assert (cur + [Id(id)])[0] == cur[0];
  }

  /** Where orphans are killed none is ever made. */
  lemma NextNoOrphans(t: Tree, e: Event, r: Tree)
    requires NoOrphans(t) && Next(t, e, r) && SettingIs(e, true)
    ensures NoOrphans(r)
  {
    hide Updated, UpdatedEach, Needed, UsedBelow, Created;
    match e
    case JobStarts(uid, jobid, alloc, kill) =>
      UpdatedNoOrphans(t, uid, alloc);
      CreatedNoOrphans(Updated(t, uid, alloc, true), [Uid(uid)], jobid, alloc);
    case StepStarts(cur, id, alloc) =>
      CreatedNoOrphans(t, cur, id, alloc);
    case Cleans(jobs, uids, kill) =>
      EachNoOrphans(Cleaned(t, jobs), uids);
    case Enters(p, pid) =>
    case Leaves(p, pid) =>
  }

  lemma StartNoOrphans(all: set<nat>)
    ensures NoOrphans(map[[] := Dir(all, {})])
  {}

  lemma {:induction false} RunNoOrphans(ts: seq<Tree>, es: seq<Event>, all: set<nat>, n: nat)
    requires Run(ts, es, all) && Steady(es, true) && n < |ts|
    ensures NoOrphans(ts[n])
  {
    hide Next, NoOrphans;
    if n == 0 {
      StartNoOrphans(all);
    } else {
      RunNoOrphans(ts, es, all, n - 1);
      assert Next(ts[n - 1], es[n - 1], ts[n]) by { assert ts[n - 1 + 1] == ts[n]; }
      assert SettingIs(es[n - 1], true);
      NextNoOrphans(ts[n - 1], es[n - 1], ts[n]);
    }
  }

  /** The harm takes a change of the setting: where it stays, every tree of every run is in
      order, whatever happens. */
  lemma SteadyInOrder(ts: seq<Tree>, es: seq<Event>, all: set<nat>, kill: bool, n: nat)
    requires Run(ts, es, all) && Steady(es, kill) && n < |ts|
    ensures Valid(ts[n], all) && forall i :: 0 <= i < n ==> !Harmful(ts[i], es[i])
  {
    hide Valid, Next, Harmful;
    forall i | 0 <= i < n ensures !Harmful(ts[i], es[i]) {
      SteadyHarmless(ts, es, all, kill, i);
    }
    RunsInOrder(ts, es, all, n);
  }

  lemma SteadyHarmless(ts: seq<Tree>, es: seq<Event>, all: set<nat>, kill: bool, i: nat)
    requires Run(ts, es, all) && Steady(es, kill) && i < |es|
    ensures |ts| == |es| + 1 && !Harmful(ts[i], es[i])
  {
    hide Next;
    assert SettingIs(es[i], kill);
    if kill { RunNoOrphans(ts, es, all, i); }
  }

  /** So in each of them jobs and users have their CPUs to themselves. */
  lemma SteadyJobsApart(ts: seq<Tree>, es: seq<Event>, all: set<nat>, kill: bool, n: nat, p: Path, q: Path)
    requires Run(ts, es, all) && Steady(es, kill) && n < |ts| && p in ts[n] && q in ts[n]
    ensures Prefix(p, q) ==> ts[n][q].cpus <= ts[n][p].cpus
    ensures !Prefix(p, q) && !Prefix(q, p) && p[0].Uid? && q[0].Uid? ==> ts[n][p].cpus !! ts[n][q].cpus
  {
    SteadyInOrder(ts, es, all, kill, n);
    hide Next, Harmful;
    JobsApart(ts, es, all, n, p, q);
  }
}
