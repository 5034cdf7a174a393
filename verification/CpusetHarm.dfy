/** A run in which the one update that does harm is made: an orphan is moved back with its
    CPUs, which another user has by then. */
module CpusetHarm {
  import opened CpusetSpec
  import opened CpusetTree

  const TOP: Dir := Dir({0, 1}, {})
  const ONE: Dir := Dir({0}, {})

  function LoggedIn(pid: nat): Dir {
    Dir({0}, {pid})
  }

  /** User 1, put away while logged in, with CPU 0, which user 2 has now. */
  function PutAway(): Tree {
    map[[] := TOP, [Orphan(1)] := LoggedIn(7), [Uid(2)] := ONE]
  }

  // ---- the steps of the run ----

  /** A user's first job. */
  lemma FirstJob(t: Tree, uid: nat, id: int, alloc: set<nat>, kill: bool)
    requires Nested(t) && [Uid(uid)] !in t && [Orphan(uid)] !in t && alloc != {}
    ensures JobCreated(t, uid, id, alloc, kill) ==
            t[[Uid(uid)] := Dir(alloc, {})][[Uid(uid), Id(id)] := Dir(alloc, {})]
  {
    hide UsedBelow;
    var y := [Uid(uid)];
    assert UsedBelow(Opened(t, uid), y) == {} by {
      NoParentNothing(t, y);
      assert !ChildOf(y, y);
      SameUsed(t, Opened(t, uid), y);
    }
    assert Wanted(t, uid, alloc) == alloc;
    assert Opened(t, uid) == t[y := Dir({}, {})];
    assert t[y := Dir({}, {})][y := Dir(alloc, {})] == t[y := Dir(alloc, {})];
    assert y + [Id(id)] == [Uid(uid), Id(id)];
    assert Parent([Uid(uid), Id(id)]) == y;
  }

  /** Beside the orphan, if any, a user who is logged in, and the user's only job. */
  function WithJob(others: Tree, uid: nat, pid: nat, id: int): Tree {
    others[[] := TOP][[Uid(uid)] := LoggedIn(pid)][[Uid(uid), Id(id)] := ONE]
  }

  function WithoutJob(others: Tree, uid: nat, pid: nat): Tree {
    others[[] := TOP][[Uid(uid)] := LoggedIn(pid)]
  }

  /** Other cpusets, each with tasks of its own. */
  predicate Busy(others: Tree, uid: nat) {
    forall p :: p in others ==> |p| == 1 && p[0] != Uid(uid) && others[p].tasks != {}
  }

  /** When no job runs any more, cleaning leaves the user's cpuset, for the task in it. */
  lemma JobCleaned(others: Tree, uid: nat, pid: nat, id: int)
    requires Busy(others, uid)
    ensures Cleaned(WithJob(others, uid, pid, id), Known({})) == WithoutJob(others, uid, pid)
  {
    var t, jobs := WithJob(others, uid, pid, id), Known({});
    var job := [Uid(uid), Id(id)];
    assert !Needed(t, job, jobs) by {
      forall q | q in t && Prefix(job, q) ensures t[q].tasks == {} && !Held(t, q, jobs) {
        assert q == job;
      }
    }
    forall p | p in t && p != [] && p != job ensures Needed(t, p, jobs) {
      NeedsSelf(t, p, jobs);
    }
  }

  /** A user without jobs is put away, or left as it is where orphans are to be killed. */
  lemma NoJobsLeft(others: Tree, uid: nat, pid: nat, kill: bool)
    requires Busy(others, uid) && [Orphan(uid)] !in others
    ensures UpdatedEach(WithoutJob(others, uid, pid), [uid], kill) ==
            if kill then WithoutJob(others, uid, pid) else others[[] := TOP][[Orphan(uid)] := LoggedIn(pid)]
  {
    hide Renamed, UsedBelow;
    var t := WithoutJob(others, uid, pid);
    assert UpdatedEach(t, [uid], kill) == Updated(t, uid, {}, kill) by {
      assert [uid][..0] == [] && UpdatedEach(t, [], kill) == t;
    }
    NothingIn(others, uid, pid);
    assert Wanted(t, uid, {}) == {};
    if !kill { RenamedAway(others, uid, pid); }
  }

  lemma NothingIn(others: Tree, uid: nat, pid: nat)
    requires Busy(others, uid)
    ensures UsedBelow(WithoutJob(others, uid, pid), [Uid(uid)]) == {}
  {
    assert forall p :: p in WithoutJob(others, uid, pid) ==> |p| <= 1;
  }

  lemma RenamedAway(others: Tree, uid: nat, pid: nat)
    requires Busy(others, uid) && [Orphan(uid)] !in others
    ensures Renamed(WithoutJob(others, uid, pid), Uid(uid), Orphan(uid)) ==
            others[[] := TOP][[Orphan(uid)] := LoggedIn(pid)]
  {
    hide Renamed;
    var t, r := WithoutJob(others, uid, pid), others[[] := TOP][[Orphan(uid)] := LoggedIn(pid)];
    var x, y := Uid(uid), Orphan(uid);
    forall p ensures p in r <==> Swap(p, x, y) in t {
      SwapAtTop(others, p, uid);
    }
    forall p | p in r ensures r[p] == t[Swap(p, x, y)] {
      SwapAtTop(others, p, uid);
    }
  }

  lemma SwapAtTop(others: Tree, p: Path, uid: nat)
    requires Busy(others, uid) && [Orphan(uid)] !in others
    ensures var q := Swap(p, Uid(uid), Orphan(uid));
            && (p == [] <==> q == []) && (p == [Orphan(uid)] <==> q == [Uid(uid)])
            && (p in others ==> q == p)
            && (q in others ==> q == p) && (p == [Uid(uid)] <==> q == [Orphan(uid)])
  {
    SwapMeaning(p, Uid(uid), Orphan(uid));
    var q := Swap(p, Uid(uid), Orphan(uid));
    if |p| == 1 { assert p == [p[0]] && q == [q[0]]; }
  }

  lemma LogsIn(t: Tree, uid: nat, pid: nat)
    requires [Uid(uid)] in t && t[[Uid(uid)]] == ONE
    ensures Next(t, Enters([Uid(uid)], pid), t[[Uid(uid)] := LoggedIn(pid)])
  {
    assert {} + {pid} == {pid};
  }

  lemma LogsOut(t: Tree, uid: nat, pid: nat)
    requires [Uid(uid)] in t && t[[Uid(uid)]] == LoggedIn(pid)
    ensures Next(t, Leaves([Uid(uid)], pid), t[[Uid(uid)] := ONE])
  {
    assert {pid} - {pid} == {};
  }

  // ---- the run ----

  function AfterFirst(): Tree {
    map[[] := TOP, [Orphan(1)] := LoggedIn(7)]
  }

  function Orphaned(): Tree {
    map[[Orphan(1)] := LoggedIn(7)]
  }

  /** User 1 has a job and logs in; the job ends, and the user is put away. */
  lemma FirstUser(t1: Tree, t2: Tree)
    requires t1 == map[[] := TOP, [Uid(1)] := ONE, [Uid(1), Id(5)] := ONE]
    requires t2 == WithJob(map[], 1, 7, 5)
    ensures Next(map[[] := TOP], JobStarts(1, 5, {0}, false), t1)
    ensures Next(t1, Enters([Uid(1)], 7), t2)
    ensures Next(t2, Cleans(Known({}), [1], false), AfterFirst())
  {
    hide JobCreated, UpdatedEach, Cleaned;
    LogsIn(t1, 1, 7);
    assert t2 == t1[[Uid(1)] := LoggedIn(7)];
    FirstJob(map[[] := TOP], 1, 5, {0}, false);
    JobCleaned(map[], 1, 7, 5);
    NoJobsLeft(map[], 1, 7, false);
    assert WithoutJob(map[], 1, 7) == map[[] := TOP, [Uid(1)] := LoggedIn(7)];
    assert UsedBelow(map[[] := TOP], []) == {};
  }

  /** User 2 is given the CPU that user 1 had. */
  lemma SecondUser(t4: Tree, t5: Tree)
    requires t4 == AfterFirst()[[Uid(2)] := ONE][[Uid(2), Id(6)] := ONE]
    requires t5 == WithJob(Orphaned(), 2, 9, 6)
    ensures Next(AfterFirst(), JobStarts(2, 6, {0}, false), t4)
    ensures Next(t4, Enters([Uid(2)], 9), t5)
  {
    hide JobCreated, UpdatedEach, Cleaned;
    LogsIn(t4, 2, 9);
    assert t5 == t4[[Uid(2)] := LoggedIn(9)];
    FirstJob(AfterFirst(), 2, 6, {0}, false);
    assert UsedBelow(AfterFirst(), []) == {};
  }

  /** User 2 keeps it after the job, orphans being killed by then. */
  lemma SecondUserStays(t5: Tree, t6: Tree)
    requires t5 == WithJob(Orphaned(), 2, 9, 6) && t6 == WithoutJob(Orphaned(), 2, 9)
    ensures Next(t5, Cleans(Known({}), [2], true), t6)
    ensures Next(t6, Leaves([Uid(2)], 9), PutAway())
  {
    hide UpdatedEach, Cleaned;
    LogsOut(t6, 2, 9);
    assert PutAway() == t6[[Uid(2)] := ONE];
    JobCleaned(Orphaned(), 2, 9, 6);
    NoJobsLeft(Orphaned(), 2, 9, true);
  }

  /** A run that leads from the empty /slurm to the harm: when, orphans being killed, user 1
      is started a job of no CPUs, both users have CPU 0. */
  lemma HarmHappens() returns (ts: seq<Tree>, es: seq<Event>)
    ensures Run(ts, es, {0, 1}) && |es| == 8
    ensures ts[7] == PutAway() && es[7] == JobStarts(1, 5, {}, true) && Harmful(ts[7], es[7])
    ensures forall i :: 0 <= i < 7 ==> !Harmful(ts[i], es[i])
    ensures Valid(ts[7], {0, 1}) && !Valid(ts[8], {0, 1})
    ensures [Uid(1)] in ts[8] && [Uid(2)] in ts[8] && 0 in ts[8][[Uid(1)]].cpus && 0 in ts[8][[Uid(2)]].cpus
  {
    hide Next, Harmful, Valid, JobCreated;
    var t0: Tree, t3 := map[[] := TOP], AfterFirst();
    var t1 := map[[] := TOP, [Uid(1)] := ONE, [Uid(1), Id(5)] := ONE];
    var t2 := WithJob(map[], 1, 7, 5);
    var t4 := t3[[Uid(2)] := ONE][[Uid(2), Id(6)] := ONE];
    var t5, t6 := WithJob(Orphaned(), 2, 9, 6), WithoutJob(Orphaned(), 2, 9);
    var t8 := JobCreated(PutAway(), 1, 5, {}, true);
    FirstUser(t1, t2);
    SecondUser(t4, t5);
    SecondUserStays(t5, t6);
    LastJob(t8);
    ts := [t0, t1, t2, t3, t4, t5, t6, PutAway(), t8];
    es := [JobStarts(1, 5, {0}, false), Enters([Uid(1)], 7), Cleans(Known({}), [1], false),
           JobStarts(2, 6, {0}, false), Enters([Uid(2)], 9), Cleans(Known({}), [2], true), Leaves([Uid(2)], 9),
           JobStarts(1, 5, {}, true)];
    forall i | 0 <= i < 7 ensures !Harmful(ts[i], es[i]) { AllocNoHarm(ts[i], es[i]); }
    RunsInOrder(ts, es, {0, 1}, 7);
    NextKeeps(ts[7], {0, 1}, es[7], ts[8]);
  }

  lemma AllocNoHarm(t: Tree, e: Event)
    requires e.JobStarts? ==> e.alloc != {}
    ensures !Harmful(t, e)
  {}

  lemma LastJob(r: Tree)
    requires r == JobCreated(PutAway(), 1, 5, {}, true)
    ensures Next(PutAway(), JobStarts(1, 5, {}, true), r) && Harmful(PutAway(), JobStarts(1, 5, {}, true))
    ensures [Uid(1)] in r && [Uid(2)] in r && 0 in r[[Uid(1)]].cpus && 0 in r[[Uid(2)]].cpus
  {
    hide Renamed, UsedBelow;
    var t, o := PutAway(), Opened(PutAway(), 1);
    UsedIn(t, [], [Uid(2)]);
    assert 0 in t[[Orphan(1)]].cpus * UsedBelow(t, []);
    assert Swap([Uid(1)], Orphan(1), Uid(1)) == [Orphan(1)] && Swap([Uid(2)], Orphan(1), Uid(1)) == [Uid(2)];
    assert o[[Uid(1)]] == t[[Orphan(1)]] && o[[Uid(2)]] == t[[Uid(2)]];
    OrphanIsBare(t);
    assert Updated(t, 1, {}, true) == o;
  }

  lemma OrphanIsBare(t: Tree)
    requires t == PutAway()
    ensures Wanted(t, 1, {}) == {}
  {
    hide Renamed, UsedBelow;
  }
}
