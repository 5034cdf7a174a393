/** The tree of cpusets under /slurm, and what the steps taken under its lock do to it. */
module CpusetSpec {

  /** The name of a directory: of a user, of an orphaned user, or of a job, step or task. */
  datatype Name = Uid(uid: nat) | Orphan(uid: nat) | Id(id: int)

  /** From /slurm down; the empty path is /slurm. */
  type Path = seq<Name>

  datatype Dir = Dir(cpus: set<nat>, tasks: set<nat>)

  type Tree = map<Path, Dir>

  function Parent(p: Path): Path
    requires p != []
  {
    p[..|p| - 1]
  }

  /** The cpuset is directly in p. */
  predicate ChildOf(q: Path, p: Path) {
    |q| == |p| + 1 && q[..|p|] == p
  }

  function Children(t: Tree, p: Path): set<Path> {
    set q | q in t && ChildOf(q, p)
  }

  predicate Counts(q: Path) {
    q != [] && !q[|q| - 1].Orphan?
  }

  /** used_cpus_bitmask_path, short of the CPUs outside: those of all cpusets in p but
      orphans. */
  function UsedBelow(t: Tree, p: Path): set<nat> {
    set q, c | q in t && ChildOf(q, p) && Counts(q) && c in t[q].cpus :: c
  }

  // ---- what every step keeps ----

  predicate Named(p: Path) {
    p == [] || (!p[0].Id? && forall i :: 0 < i < |p| ==> p[i].Id?)
  }

  predicate Rooted(t: Tree, all: set<nat>) {
    [] in t && t[[]].cpus == all
  }

  ghost predicate Tops(t: Tree) {
    forall u :: !([Uid(u)] in t && [Orphan(u)] in t)
  }

  ghost predicate Nested(t: Tree) {
    forall p :: p in t && p != [] ==> Named(p) && Parent(p) in t && t[p].cpus <= t[Parent(p)].cpus
  }

  predicate Beside(p: Path, q: Path) {
    p != q && Counts(p) && Counts(q) && Parent(p) == Parent(q)
  }

  /** Cpusets side by side share no CPU; but for one that is put aside. */
  ghost predicate SidesBut(t: Tree, but: Path) {
    forall p, q :: p in t && q in t && Beside(p, q) && p != but && q != but ==> t[p].cpus !! t[q].cpus
  }

  ghost predicate SideBySide(t: Tree) {
    SidesBut(t, [])
  }

  /** Nothing inside an orphan has CPUs. */
  ghost predicate OrphansBare(t: Tree) {
    forall p: Path :: p in t && |p| >= 2 && p[0].Orphan? ==> t[p].cpus == {}
  }

  ghost predicate Valid(t: Tree, all: set<nat>) {
    Rooted(t, all) && Tops(t) && Nested(t) && SideBySide(t) && OrphansBare(t)
  }

  // ---- renaming ----

  function Swap(p: Path, x: Name, y: Name): Path {
    if p == [] then p
    else if p[0] == x then [y] + p[1..]
    else if p[0] == y then [x] + p[1..]
    else p
  }

  lemma SwapMeaning(p: Path, x: Name, y: Name)
    ensures Swap(Swap(p, x, y), x, y) == p
    ensures |Swap(p, x, y)| == |p|
    ensures forall i :: 0 < i < |p| ==> Swap(p, x, y)[i] == p[i]
    ensures p != [] ==> Parent(Swap(p, x, y)) == Swap(Parent(p), x, y)
  {
    if p != [] {
      SwapFirst(p, x, y);
      SwapFirst(Swap(p, x, y), x, y);
      if |p| > 1 { SwapFirst(Parent(p), x, y); }
    }
  }

  lemma SwapFirst(p: Path, x: Name, y: Name)
    requires p != []
    ensures Swap(p, x, y) == [if p[0] == x then y else if p[0] == y then x else p[0]] + p[1..]
  {
    assert p == [p[0]] + p[1..];
  }

  /** Rename a directory at the top, with all that is in it, to a name that is free. */
  function Renamed(t: Tree, x: Name, y: Name): (r: Tree)
    ensures forall p :: p in r <==> Swap(p, x, y) in t
    ensures forall p :: p in r ==> r[p] == t[Swap(p, x, y)]
  {
    var keys := set p | p in t :: Swap(p, x, y);
    assert forall p :: p in keys <==> Swap(p, x, y) in t by {
      forall p ensures p in keys <==> Swap(p, x, y) in t {
        SwapMeaning(p, x, y);
        if p in keys {
          var q :| q in t && p == Swap(q, x, y);
          SwapMeaning(q, x, y);
        }
      }
    }
    map p | p in keys :: t[Swap(p, x, y)]
  }

  // ---- user_cpuset_update ----

  /** An orphan is moved back, unless the user has a cpuset. */
  predicate MovedBack(t: Tree, uid: nat) {
    [Orphan(uid)] in t && [Uid(uid)] !in t
  }

  function Opened(t: Tree, uid: nat): (r: Tree)
    ensures [Uid(uid)] in r
  {
    assert Swap([Uid(uid)], Orphan(uid), Uid(uid)) == [Orphan(uid)];
    if MovedBack(t, uid) then Renamed(t, Orphan(uid), Uid(uid))
    else if [Uid(uid)] in t then t
    else t[[Uid(uid)] := Dir({}, {})]
  }

  function Wanted(t: Tree, uid: nat, alloc: set<nat>): set<nat> {
    (if MovedBack(t, uid) then {} else UsedBelow(Opened(t, uid), [Uid(uid)])) + alloc
  }

  function Updated(t: Tree, uid: nat, alloc: set<nat>, killOrphans: bool): Tree {
    var o, used := Opened(t, uid), Wanted(t, uid, alloc);
    if used != {} then
      o[[Uid(uid)] := Dir(used, o[[Uid(uid)]].tasks)]
    else if killOrphans || [Orphan(uid)] in o then o
    else Renamed(o, Uid(uid), Orphan(uid))
  }

  // ---- proofs ----

  lemma RenamedKeeps(t: Tree, all: set<nat>, x: Name, y: Name)
    requires Rooted(t, all) && Nested(t) && !x.Id? && !y.Id?
    ensures Rooted(Renamed(t, x, y), all) && Nested(Renamed(t, x, y))
  {
    var r := Renamed(t, x, y);
    assert Swap([], x, y) == [];
    forall p | p in r && p != [] ensures Named(p) && Parent(p) in r && r[p].cpus <= r[Parent(p)].cpus {
      SwapMeaning(p, x, y);
      var q := Swap(p, x, y);
      assert q in t && Named(q);
      assert p[0] == q[0] || p[0] == x || p[0] == y;
    }
  }

  /** The CPUs of a cpuset below the top, the same before and after a directory above it is
      renamed. */
  lemma UsedRenamed(t: Tree, x: Name, y: Name)
    ensures UsedBelow(Renamed(t, x, y), [y]) == UsedBelow(t, [x])
  {
    var r := Renamed(t, x, y);
    hide Renamed, UsedBelow;
    forall c ensures c in UsedBelow(r, [y]) <==> c in UsedBelow(t, [x]) {
      if c in UsedBelow(r, [y]) {
        var q := UserOf(r, [y], c);
        SwapChild(q, x, y);
        UsedIn(t, [x], Swap(q, x, y));
      }
      if c in UsedBelow(t, [x]) {
        var q := UserOf(t, [x], c);
        SwapMeaning(q, x, y);
        SwapChild(Swap(q, x, y), x, y);
        UsedIn(r, [y], Swap(q, x, y));
      }
    }
  }

  lemma UserOf(t: Tree, p: Path, c: nat) returns (q: Path)
    requires c in UsedBelow(t, p)
    ensures q in t && ChildOf(q, p) && Counts(q) && c in t[q].cpus
  {
    q :| q in t && ChildOf(q, p) && Counts(q) && c in t[q].cpus;
  }

  lemma SwapChild(q: Path, x: Name, y: Name)
    ensures ChildOf(q, [y]) <==> ChildOf(Swap(q, x, y), [x])
    ensures |q| == 2 ==> Counts(q) == Counts(Swap(q, x, y))
  {
    SwapMeaning(q, x, y);
  }

  lemma UsedIn(t: Tree, p: Path, q: Path)
    requires q in t && ChildOf(q, p) && Counts(q)
    ensures t[q].cpus <= UsedBelow(t, p)
  {}

  lemma SameUsed(t: Tree, r: Tree, p: Path)
    requires forall q :: ChildOf(q, p) ==> (q in r <==> q in t) && (q in t ==> r[q] == t[q])
    ensures UsedBelow(r, p) == UsedBelow(t, p)
  {
    forall c ensures c in UsedBelow(r, p) <==> c in UsedBelow(t, p) {
      if c in UsedBelow(r, p) {
        var q :| q in r && ChildOf(q, p) && Counts(q) && c in r[q].cpus;
        UsedIn(t, p, q);
      }
      if c in UsedBelow(t, p) {
        var q :| q in t && ChildOf(q, p) && Counts(q) && c in t[q].cpus;
        UsedIn(r, p, q);
      }
    }
  }

  lemma NothingUsed(t: Tree, p: Path, q: Path)
    requires UsedBelow(t, p) == {} && q in t && ChildOf(q, p) && Counts(q)
    ensures t[q].cpus == {}
  {
    UsedIn(t, p, q);
  }

  /** If the cpusets in p have no CPUs, nor has anything further down. */
  lemma {:induction false} BareBelow(t: Tree, p: Path, q: Path)
    requires Nested(t) && UsedBelow(t, p) == {} && p in t && p != [] && q in t && |q| > |p| && q[..|p|] == p
    ensures t[q].cpus == {}
    decreases |q|
  {
    if |q| == |p| + 1 {
      assert Named(q);
      NothingUsed(t, p, q);
    } else {
      assert Parent(q) in t && Parent(q)[..|p|] == p;
      BareBelow(t, p, Parent(q));
    }
  }

  lemma RenamedSides(t: Tree, x: Name, y: Name)
    requires SidesBut(t, [x]) && [y] !in t && ((x.Uid? && y.Orphan?) || (x.Orphan? && y.Uid?))
    ensures SidesBut(Renamed(t, x, y), [y])
    ensures y.Orphan? ==> SideBySide(Renamed(t, x, y))
  {
    var r := Renamed(t, x, y);
    hide Renamed;
    forall p, q | p in r && q in r && Beside(p, q) && p != [y] && q != [y] ensures r[p].cpus !! r[q].cpus {
      SwapCounts(t, p, x, y);
      SwapCounts(t, q, x, y);
      SwapMeaning(p, x, y);
      SwapMeaning(q, x, y);
      assert Beside(Swap(p, x, y), Swap(q, x, y));
      hide Swap, Beside;
    }
  }

  lemma SwapCounts(t: Tree, p: Path, x: Name, y: Name)
    requires [y] !in t && ((x.Uid? && y.Orphan?) || (x.Orphan? && y.Uid?))
    requires Swap(p, x, y) in t && p != [y] && Counts(p)
    ensures Counts(Swap(p, x, y)) && Swap(p, x, y) != []
  {
    SwapMeaning(p, x, y);
    if |p| == 1 {
      assert p == [p[0]] && Swap([x], x, y) == [y];
    }
  }

  /** A cpuset has all the CPUs of those in it. */
  lemma UsedWithin(t: Tree, p: Path)
    requires Nested(t) && p in t
    ensures UsedBelow(t, p) <= t[p].cpus
  {
    forall c | c in UsedBelow(t, p) ensures c in t[p].cpus {
      var q :| q in t && ChildOf(q, p) && Counts(q) && c in t[q].cpus;
      assert Parent(q) == p;
    }
  }

  lemma NoParentNothing(t: Tree, p: Path)
    requires Nested(t) && p !in t
    ensures UsedBelow(t, p) == {}
  {
    assert forall q :: ChildOf(q, p) ==> Parent(q) == p;
  }

  lemma RenamedTops(t: Tree, uid: nat, x: Name, y: Name)
    requires Tops(t) && ((x == Uid(uid) && y == Orphan(uid)) || (x == Orphan(uid) && y == Uid(uid)))
    ensures Tops(Renamed(t, x, y))
  {
    var r := Renamed(t, x, y);
    hide Renamed;
    forall u ensures !([Uid(u)] in r && [Orphan(u)] in r) {
      assert Swap([Uid(u)], x, y) == if u == uid then [Orphan(u)] else [Uid(u)];
      assert Swap([Orphan(u)], x, y) == if u == uid then [Uid(u)] else [Orphan(u)];
    }
  }

  lemma RenamedBare(t: Tree, x: Name, y: Name)
    requires OrphansBare(t) && ((x.Uid? && y.Orphan?) || (x.Orphan? && y.Uid?))
    requires forall p: Path :: p in t && |p| >= 2 && (p[0] == x || p[0] == y) ==> t[p].cpus == {}
    ensures OrphansBare(Renamed(t, x, y))
  {
    forall p: Path | p in Renamed(t, x, y) && |p| >= 2 && p[0].Orphan? ensures Renamed(t, x, y)[p].cpus == {} {
      SwapMeaning(p, x, y);
      assert Swap(p, x, y) == p || Swap(p, x, y)[0] == x || Swap(p, x, y)[0] == y;
    }
  }

  /** The user's cpuset when it has been opened: what is wrong, if anything, is that it can
      have CPUs of others. */
  lemma OpenedKeeps(t: Tree, all: set<nat>, uid: nat)
    requires Valid(t, all)
    ensures var o := Opened(t, uid);
            && Rooted(o, all) && Tops(o) && Nested(o) && OrphansBare(o) && SidesBut(o, [Uid(uid)])
            && [Uid(uid)] in o && (!MovedBack(t, uid) ==> SideBySide(o))
    ensures MovedBack(t, uid) ==> UsedBelow(Opened(t, uid), [Uid(uid)]) == {}
  {
    var x, y := Orphan(uid), Uid(uid);
    if MovedBack(t, uid) {
      hide Renamed, Rooted, Tops, SideBySide;
      RenamedKeeps(t, all, x, y);
      RenamedSides(t, x, y);
      UsedRenamed(t, x, y);
      RenamedTops(t, uid, x, y);
      forall p: Path | p in t && |p| >= 2 && (p[0] == x || p[0] == y) ensures t[p].cpus == {} {
        AboveIn(t, p);
        assert p[..1] == [p[0]];
      }
      RenamedBare(t, x, y);
      assert Swap([y], x, y) == [x];
      assert UsedBelow(t, [x]) == {} by { OrphanBare(t, uid); }
    } else if [Uid(uid)] !in t {
      MadeKeeps(t, all, uid);
    }
  }

  lemma OrphanBare(t: Tree, uid: nat)
    requires OrphansBare(t)
    ensures UsedBelow(t, [Orphan(uid)]) == {}
  {
    assert forall q: Path :: q in t && ChildOf(q, [Orphan(uid)]) ==> |q| >= 2 && q[0] == q[..1][0] == Orphan(uid);
  }

  lemma MadeKeeps(t: Tree, all: set<nat>, uid: nat)
    requires Valid(t, all) && [Uid(uid)] !in t && [Orphan(uid)] !in t
    ensures Valid(t[[Uid(uid)] := Dir({}, {})], all)
  {
    var o, y := t[[Uid(uid)] := Dir({}, {})], [Uid(uid)];
    assert Parent(y) == [];
    assert forall p :: p in t ==> p in o && o[p] == t[p];
    assert forall p :: p in o ==> p == y || p in t;
  }

  /** The directory at the top is there as long as anything in it is. */
  lemma {:induction false} AboveIn(t: Tree, p: Path)
    requires Nested(t) && p in t && p != []
    ensures p[..1] in t
  {
    if |p| == 1 {
      assert p[..1] == p;
    } else {
      assert p[..1] == Parent(p)[..1];
      AboveIn(t, Parent(p));
    }
  }

  // ---- what an update keeps ----

  /** The one update that does harm: with kill-orphans set, an orphan that gets no CPU is
      moved back and left with the CPUs it had, and others have some of them. */
  predicate Harms(t: Tree, uid: nat, alloc: set<nat>, killOrphans: bool) {
    && MovedBack(t, uid) && alloc == {} && killOrphans
    && t[[Orphan(uid)]].cpus * UsedBelow(t, []) != {}
  }

  /** The user's cpuset is given the CPUs of the jobs in it, and alloc. */
  lemma SetKeeps(o: Tree, all: set<nat>, uid: nat, used: set<nat>)
    requires Rooted(o, all) && Tops(o) && Nested(o) && OrphansBare(o) && SidesBut(o, [Uid(uid)]) && [Uid(uid)] in o
    requires used <= all && UsedBelow(o, [Uid(uid)]) <= used
    requires forall q :: q in o && Beside(q, [Uid(uid)]) ==> o[q].cpus !! used
    ensures Valid(o[[Uid(uid)] := Dir(used, o[[Uid(uid)]].tasks)], all)
  {
    var y := [Uid(uid)];
    var r := o[y := Dir(used, o[y].tasks)];
    assert Parent(y) == [];
    assert forall p :: p in r <==> p in o;
    assert forall p :: p in o && p != y ==> r[p] == o[p];
    forall p | p in r && p != [] ensures Named(p) && Parent(p) in r && r[p].cpus <= r[Parent(p)].cpus {
      if Parent(p) == y {
        assert ChildOf(p, y) && Named(p);
        UsedIn(o, y, p);
      }
    }
    forall p, q | p in r && q in r && Beside(p, q) && p != [] && q != [] ensures r[p].cpus !! r[q].cpus {
      assert Beside(q, p);
    }
  }

  /** The cpusets beside that of a user are those of other users. */
  lemma BesideUser(t: Tree, all: set<nat>, uid: nat, q: Path)
    requires Valid(t, all) && q in Opened(t, uid) && Beside(q, [Uid(uid)])
    ensures q in t && ChildOf(q, []) && Counts(q) && q != [Orphan(uid)] && Opened(t, uid)[q] == t[q]
  {
    assert Parent([Uid(uid)]) == [] && q == [q[0]];
    assert q[0] != Uid(uid) && q[0] != Orphan(uid);
  }

  lemma WantedIs(t: Tree, all: set<nat>, uid: nat, alloc: set<nat>)
    requires Valid(t, all) && alloc <= all && alloc !! UsedBelow(t, [])
    ensures var o, used := Opened(t, uid), Wanted(t, uid, alloc);
            && UsedBelow(o, [Uid(uid)]) <= used <= all
            && forall q :: q in o && Beside(q, [Uid(uid)]) ==> o[q].cpus !! used
  {
    hide Opened, UsedBelow, Valid, Rooted, Tops, Nested, OrphansBare, SidesBut;
    var o, used, y := Opened(t, uid), Wanted(t, uid, alloc), [Uid(uid)];
    OpenedKeeps(t, all, uid);
    UsedWithin(o, y);
    assert o[y].cpus <= all by { TopWithin(o, all, y); }
    forall q | q in o && Beside(q, y) ensures o[q].cpus !! used {
      BesideUser(t, all, uid, q);
      UsedIn(t, [], q);
      if !MovedBack(t, uid) { SidesMeaning(o, q, y); }
    }
  }

  lemma SidesMeaning(t: Tree, p: Path, q: Path)
    requires SideBySide(t) && p in t && q in t && Beside(p, q)
    ensures t[p].cpus !! t[q].cpus
  {}

  lemma TopWithin(t: Tree, all: set<nat>, p: Path)
    requires Rooted(t, all) && Nested(t) && p in t && |p| == 1
    ensures t[p].cpus <= all
  {
    assert Parent(p) == [];
  }

  /** An update keeps the tree in order, unless it does the harm above. */
  lemma UpdateKeeps(t: Tree, all: set<nat>, uid: nat, alloc: set<nat>, killOrphans: bool)
    requires Valid(t, all) && alloc <= all && alloc !! UsedBelow(t, [])
    ensures Valid(Updated(t, uid, alloc, killOrphans), all) <==> !Harms(t, uid, alloc, killOrphans)
  {
    hide Opened, UsedBelow, Renamed, Wanted, Rooted, Tops, Nested, OrphansBare, SidesBut;
    var o, used, y := Opened(t, uid), Wanted(t, uid, alloc), [Uid(uid)];
    OpenedKeeps(t, all, uid);
    WantedIs(t, all, uid, alloc);
    if used != {} {
      SetKeeps(o, all, uid, used);
      assert !Harms(t, uid, alloc, killOrphans) by { WantedNothing(t, uid, alloc); }
    } else if killOrphans {
      WantedNothing(t, uid, alloc);
      if MovedBack(t, uid) { MovedBackKeeps(t, all, uid); }
    } else {
      assert [Orphan(uid)] !in o by { NotBoth(o, uid); }
      OrphanedKeeps(o, all, uid);
    }
  }

  lemma NotBoth(t: Tree, uid: nat)
    requires Tops(t) && [Uid(uid)] in t
    ensures [Orphan(uid)] !in t
  {}

  lemma WantedNothing(t: Tree, uid: nat, alloc: set<nat>)
    ensures MovedBack(t, uid) ==> Wanted(t, uid, alloc) == alloc
    ensures Wanted(t, uid, alloc) == {} ==> alloc == {}
  {}

  /** An orphan moved back with its CPUs is in order just when no other user has them. */
  lemma MovedBackKeeps(t: Tree, all: set<nat>, uid: nat)
    requires Valid(t, all) && MovedBack(t, uid)
    ensures SideBySide(Opened(t, uid)) <==> t[[Orphan(uid)]].cpus !! UsedBelow(t, [])
  {
    var o, x, y := Opened(t, uid), [Orphan(uid)], [Uid(uid)];
    assert Swap(y, Orphan(uid), Uid(uid)) == x;
    assert y in o && o[y] == t[x] && Parent(y) == [] && Counts(y);
    OpenedKeeps(t, all, uid);
    hide Opened;
    if t[x].cpus !! UsedBelow(t, []) {
      forall p, q | p in o && q in o && Beside(p, q) && p != [] && q != [] ensures o[p].cpus !! o[q].cpus {
        assert Beside(q, p);
        if q == y {
          BesideUser(t, all, uid, p);
          UsedIn(t, [], p);
        } else if p == y {
          BesideUser(t, all, uid, q);
          UsedIn(t, [], q);
        }
      }
    } else {
      var c :| c in t[x].cpus && c in UsedBelow(t, []);
      var q :| q in t && ChildOf(q, []) && Counts(q) && c in t[q].cpus;
      OthersStay(t, uid, q);
      assert Beside(q, y);
    }
  }

  lemma OthersStay(t: Tree, uid: nat, q: Path)
    requires MovedBack(t, uid) && q in t && ChildOf(q, []) && Counts(q)
    ensures q in Opened(t, uid) && Opened(t, uid)[q] == t[q] && q != [Uid(uid)] && Parent(q) == []
  {
    assert q == [q[0]];
    assert Swap(q, Orphan(uid), Uid(uid)) == q;
  }

  /** A user without jobs' CPUs is put away. */
  lemma OrphanedKeeps(o: Tree, all: set<nat>, uid: nat)
    requires Rooted(o, all) && Tops(o) && Nested(o) && OrphansBare(o) && SidesBut(o, [Uid(uid)])
    requires [Uid(uid)] in o && [Orphan(uid)] !in o && UsedBelow(o, [Uid(uid)]) == {}
    ensures Valid(Renamed(o, Uid(uid), Orphan(uid)), all)
  {
    var x, y := Uid(uid), Orphan(uid);
    hide Renamed;
    RenamedKeeps(o, all, x, y);
    RenamedTops(o, uid, x, y);
    forall p: Path | p in o && |p| >= 2 && (p[0] == x || p[0] == y) ensures o[p].cpus == {} {
      AboveIn(o, p);
      assert p[..1] == [p[0]];
      BareBelow(o, [x], p);
    }
    RenamedBare(o, x, y);
    RenamedSides(o, x, y);
  }

  // ---- new cpusets ----

  /** cpuset_create: it makes the directory unless it is there or has nowhere to be. */
  function Created(t: Tree, cur: Path, id: int, cpus: set<nat>): Tree {
    if cur in t && cur + [Id(id)] !in t then t[cur + [Id(id)] := Dir(cpus, {})] else t
  }

  function JobCreated(t: Tree, uid: nat, jobid: int, alloc: set<nat>, killOrphans: bool): Tree {
    Created(Updated(t, uid, alloc, killOrphans), [Uid(uid)], jobid, alloc)
  }

  lemma CreateKeeps(t: Tree, all: set<nat>, cur: Path, id: int, cpus: set<nat>)
    requires Valid(t, all) && cur != []
    requires cur in t ==> cpus <= t[cur].cpus && cpus !! UsedBelow(t, cur) && (cur[0].Orphan? ==> cpus == {})
    ensures Valid(Created(t, cur, id, cpus), all)
  {
    if cur in t && cur + [Id(id)] !in t {
      var n := cur + [Id(id)];
      var r := t[n := Dir(cpus, {})];
      assert Parent(n) == cur && Named(cur) && Named(n);
      assert forall p :: p in t ==> p in r && r[p] == t[p];
      assert forall p :: p in r ==> p == n || p in t;
      forall q | q in t && Beside(q, n) ensures t[q].cpus !! cpus {
        assert ChildOf(q, cur);
        UsedIn(t, cur, q);
      }
      forall p, q | p in r && q in r && Beside(p, q) && p != [] && q != [] ensures r[p].cpus !! r[q].cpus {
        assert Beside(q, p);
      }
    }
  }

  /** What a new job gets is among the CPUs its user then has, and no other job has it. */
  lemma JobFits(t: Tree, all: set<nat>, uid: nat, alloc: set<nat>, killOrphans: bool)
    requires Valid(t, all) && alloc <= all && alloc !! UsedBelow(t, [])
    ensures var u := Updated(t, uid, alloc, killOrphans);
            [Uid(uid)] in u ==> alloc <= u[[Uid(uid)]].cpus && alloc !! UsedBelow(u, [Uid(uid)])
  {
    hide Opened, Valid, UsedBelow, Wanted;
    var o, y := Opened(t, uid), [Uid(uid)];
    OpenedFree(t, all, uid, alloc);
    WantedNothing(t, uid, alloc);
    if Wanted(t, uid, alloc) != {} {
      SetUsed(o, y, Wanted(t, uid, alloc));
      assert alloc <= Wanted(t, uid, alloc) by { AllocWanted(t, uid, alloc); }
    }
  }

  lemma AllocWanted(t: Tree, uid: nat, alloc: set<nat>)
    ensures alloc <= Wanted(t, uid, alloc)
  {}

  lemma OpenedFree(t: Tree, all: set<nat>, uid: nat, alloc: set<nat>)
    requires Valid(t, all) && alloc !! UsedBelow(t, [])
    ensures alloc !! UsedBelow(Opened(t, uid), [Uid(uid)])
  {
    hide UsedBelow;
    var o, y := Opened(t, uid), [Uid(uid)];
    OpenedKeeps(t, all, uid);
    if !MovedBack(t, uid) {
      if y in t {
        UsedWithin(t, y);
        UsedIn(t, [], y);
      } else {
        NoParentNothing(t, y);
        NewEmpty(t, y);
      }
    }
  }

  lemma NewEmpty(t: Tree, y: Path)
    requires y !in t
    ensures UsedBelow(t[y := Dir({}, {})], y) == UsedBelow(t, y)
  {
    SameUsed(t, t[y := Dir({}, {})], y);
  }

  /** Creating a job's cpuset keeps the tree in order. */
  lemma JobKeeps(t: Tree, all: set<nat>, uid: nat, jobid: int, alloc: set<nat>, killOrphans: bool)
    requires Valid(t, all) && alloc <= all && alloc !! UsedBelow(t, []) && !Harms(t, uid, alloc, killOrphans)
    ensures Valid(JobCreated(t, uid, jobid, alloc, killOrphans), all)
  {
    hide Valid, Updated, UsedBelow, Harms;
    UpdateKeeps(t, all, uid, alloc, killOrphans);
    JobFits(t, all, uid, alloc, killOrphans);
    CreateKeeps(Updated(t, uid, alloc, killOrphans), all, [Uid(uid)], jobid, alloc);
  }

  // ---- update_user_cpusets ----

  /** The updates for the users that are listed, in the order they are. */
  function UpdatedEach(t: Tree, uids: seq<nat>, killOrphans: bool): Tree {
    if uids == [] then t
    else Updated(UpdatedEach(t, uids[..|uids| - 1], killOrphans), uids[|uids| - 1], {}, killOrphans)
  }

  /** The user has just the CPUs of the user's jobs; or, where orphans are killed, still has
      some while the jobs have none. */
  predicate SettledAt(t: Tree, uid: nat, killOrphans: bool) {
    [Uid(uid)] in t ==>
      t[[Uid(uid)]].cpus == UsedBelow(t, [Uid(uid)]) || (killOrphans && UsedBelow(t, [Uid(uid)]) == {})
  }

  predicate OfUser(p: Path, uid: nat) {
    p != [] && (p[0] == Uid(uid) || p[0] == Orphan(uid))
  }

  ghost predicate SameBut(r: Tree, t: Tree, uid: nat) {
    forall p :: !OfUser(p, uid) ==> (p in r <==> p in t) && (p in t ==> r[p] == t[p])
  }

  /** The cpusets of jobs that have CPUs are as they were, and there are none but they. */
  ghost predicate JobsKept(r: Tree, t: Tree) {
    && (forall p: Path :: p in r && |p| >= 2 && p[0].Uid? ==> p in t && r[p] == t[p])
    && (forall p: Path :: p in t && |p| >= 2 && p[0].Uid? && t[p].cpus != {} ==> p in r && r[p] == t[p])
  }

  lemma UpdateSettles(t: Tree, all: set<nat>, uid: nat, killOrphans: bool)
    requires Valid(t, all) && [Uid(uid)] in t
    ensures Valid(Updated(t, uid, {}, killOrphans), all)
    ensures SettledAt(Updated(t, uid, {}, killOrphans), uid, killOrphans)
    ensures SameBut(Updated(t, uid, {}, killOrphans), t, uid)
    ensures JobsKept(Updated(t, uid, {}, killOrphans), t)
  {
    hide Valid, Renamed, UsedBelow, JobsKept, SameBut;
    UpdateKeeps(t, all, uid, {}, killOrphans);
    var y := [Uid(uid)];
    var r := Updated(t, uid, {}, killOrphans);
    JobsKeptSelf(t);
    SameButSelf(t, uid);
    if UsedBelow(t, y) != {} {
      assert Wanted(t, uid, {}) == UsedBelow(t, y);
      SetUsed(t, y, UsedBelow(t, y));
      SetSame(t, uid, UsedBelow(t, y));
    } else if !killOrphans {
      NotBoth(t, uid) by { ValidTops(t, all); }
      PutAwayKeeps(t, all, uid);
    }
  }

  lemma SameButSelf(t: Tree, uid: nat)
    ensures SameBut(t, t, uid)
  {}

  lemma SetSame(t: Tree, uid: nat, cpus: set<nat>)
    requires [Uid(uid)] in t
    ensures var r := t[[Uid(uid)] := Dir(cpus, t[[Uid(uid)]].tasks)];
            SameBut(r, t, uid) && JobsKept(r, t)
  {}

  lemma ValidTops(t: Tree, all: set<nat>)
    requires Valid(t, all)
    ensures Tops(t)
  {}

  lemma SetUsed(t: Tree, y: Path, cpus: set<nat>)
    requires y in t
    ensures UsedBelow(t[y := Dir(cpus, t[y].tasks)], y) == UsedBelow(t, y)
  {
    SameUsed(t, t[y := Dir(cpus, t[y].tasks)], y);
  }

  lemma PutAwayKeeps(t: Tree, all: set<nat>, uid: nat)
    requires Valid(t, all) && UsedBelow(t, [Uid(uid)]) == {} && [Uid(uid)] in t && [Orphan(uid)] !in t
    ensures [Uid(uid)] !in Renamed(t, Uid(uid), Orphan(uid))
    ensures SameBut(Renamed(t, Uid(uid), Orphan(uid)), t, uid)
    ensures JobsKept(Renamed(t, Uid(uid), Orphan(uid)), t)
  {
    var x, y := Uid(uid), Orphan(uid);
    var r := Renamed(t, x, y);
    hide Renamed;
    assert Swap([x], x, y) == [y];
    forall p ensures !OfUser(p, uid) ==> Swap(p, x, y) == p {}
    forall p: Path | p in r && |p| >= 2 && p[0].Uid? ensures p in t && r[p] == t[p] {
      assert Swap(p, x, y) in t;
      AboveIn(t, Swap(p, x, y));
      assert Swap(p, x, y)[..1] == [Swap(p, x, y)[0]];
    }
    forall p: Path | p in t && |p| >= 2 && p[0].Uid? && t[p].cpus != {} ensures p in r && r[p] == t[p] {
      if p[0] == x {
        assert p[..1] == [x];
        BareBelow(t, [x], p);
      }
    }
  }

  lemma SettledStays(r: Tree, t: Tree, uid: nat, other: nat, killOrphans: bool)
    requires SameBut(r, t, other) && uid != other && SettledAt(t, uid, killOrphans)
    ensures SettledAt(r, uid, killOrphans)
  {
    var y := [Uid(uid)];
    assert !OfUser(y, other);
    assert forall q: Path :: ChildOf(q, y) ==> q[0] == q[..1][0] && !OfUser(q, other);
    SameUsed(t, r, y);
  }

  /** When all users have been seen to, each has just the CPUs of the jobs. */
  lemma {:induction false} EachSettled(t: Tree, all: set<nat>, uids: seq<nat>, killOrphans: bool)
    requires Valid(t, all)
    requires forall i :: 0 <= i < |uids| ==> [Uid(uids[i])] in t
    requires forall i, j :: 0 <= i < j < |uids| ==> uids[i] != uids[j]
    ensures var r := UpdatedEach(t, uids, killOrphans);
            && Valid(r, all) && JobsKept(r, t)
            && (forall u :: u in uids ==> SettledAt(r, u, killOrphans))
            && (forall u :: u !in uids ==> ([Uid(u)] in r <==> [Uid(u)] in t))
  {
    hide Updated, Valid, SameBut, JobsKept, SettledAt;
    if uids == [] {
      JobsKeptSelf(t);
    } else {
      var n := |uids| - 1;
      var before, u := UpdatedEach(t, uids[..n], killOrphans), uids[n];
      EachSettled(t, all, uids[..n], killOrphans);
      assert u !in uids[..n] && [Uid(u)] in before;
      UpdateSettles(before, all, u, killOrphans);
      var r := Updated(before, u, {}, killOrphans);
      JobsKeptOn(r, before, t);
      forall v | v in uids ensures SettledAt(r, v, killOrphans) {
        if v != u {
          assert v in uids[..n];
          SettledStays(r, before, v, u, killOrphans);
        }
      }
      forall v | v !in uids ensures [Uid(v)] in r <==> [Uid(v)] in t {
        assert v !in uids[..n] && v != u;
        SameAt(r, before, u, v);
      }
    }
  }

  lemma JobsKeptSelf(t: Tree)
    ensures JobsKept(t, t)
  {}

  lemma JobsKeptOn(r: Tree, s: Tree, t: Tree)
    requires JobsKept(r, s) && JobsKept(s, t)
    ensures JobsKept(r, t)
  {}

  lemma SameAt(r: Tree, t: Tree, other: nat, uid: nat)
    requires SameBut(r, t, other) && uid != other
    ensures [Uid(uid)] in r <==> [Uid(uid)] in t
  {
    assert !OfUser([Uid(uid)], other);
  }
}
