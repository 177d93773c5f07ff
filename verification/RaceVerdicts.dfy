/**
 * Consequences of the exact verdict: which runs are silent, what a silent run proves, what a store reports after loads
 * only and after stores only, and what barriers and atomic accesses change.
 */
module RaceVerdicts {
  import opened ByteStatus
  import opened RaceAutomaton
  import opened RaceRuns

  // ------------------------------------------------------------------ silence, exactly

  /** A thread that reads the word in this step is about to make an access that goes unreported. */
  ghost predicate Peaceful(s: State, e: Event) {
    e.Event? && e.thread < |s.threads| && s.threads[e.thread].Ready? ==> !Conflicts(s.log, NextDone(s, e.thread))
  }

  ghost predicate AllPeaceful(s: State, schedule: seq<Event>)
    decreases |schedule|
  {
    schedule == [] || (Peaceful(s, schedule[0]) && AllPeaceful(Step(s, schedule[0]), schedule[1..]))
  }

  /** No access of the log was reported. */
  ghost predicate Unheard(log: seq<Done>) { forall k :: 0 <= k < |log| ==> !Conflicts(log[..k], log[k]) }

  /** While nothing has been reported. */
  ghost predicate Quiet(space: Space, s: State) {
    Worded(space, s) && s.reports == [] && Unheard(s.log) && SnapsQuiet(s.threads)
  }

  lemma UnheardNext(log: seq<Done>, d: Done)
    requires Unheard(log) && !Conflicts(log, d)
    ensures Unheard(log + [d])
  {
    var log' := log + [d];
    forall k | 0 <= k < |log'| ensures !Conflicts(log'[..k], log'[k]) {
      if k < |log| { assert log'[..k] == log[..k]; } else { assert log'[..k] == log; }
    }
  }

  /** No thread that has read the word found a conflict in it. */
  ghost predicate SnapsQuiet(threads: seq<Local>) {
    forall t :: 0 <= t < |threads| && threads[t].Snapped? ==> Try(threads[t].was, t, threads[t].access).conflict == {}
  }

  lemma SnapQuiet(space: Space, s: State, t: nat)
    requires Worded(space, s) && SnapsQuiet(s.threads) && t < |s.threads| && s.threads[t].Ready?
    ensures NextReports(s, t) == [] <==> !Conflicts(s.log, NextDone(s, t))
    ensures var a := s.threads[t].access;
            !Conflicts(s.log, NextDone(s, t)) ==> forall o :: SnapsQuiet(s.threads[t := Snapped(a, o, s.cell)])
  {
    EveryAttemptFollows(space, s.log, NextDone(s, t));
  }

  lemma SwapQuiet(space: Space, s: State, t: nat)
    requires Worded(space, s) && SnapsQuiet(s.threads) && Unheard(s.log)
    requires t < |s.threads| && s.threads[t].Snapped? && s.cell == s.threads[t].was
    ensures Unheard(s.log + [DoneBy(t, s.threads[t].access, s.epoch)])
  {
    var d := DoneBy(t, s.threads[t].access, s.epoch);
    EveryAttemptFollows(space, s.log, d);
    UnheardNext(s.log, d);
  }

  lemma QuietAfterSnap(space: Space, s: State, e: Event)
    requires Quiet(space, s) && e.Event? && e.thread < |s.threads| && s.threads[e.thread].Ready?
    requires Worded(space, Step(s, e))
    ensures Step(s, e).reports == [] <==> Peaceful(s, e)
    ensures Peaceful(s, e) ==> Quiet(space, Step(s, e))
  {
    SnapQuiet(space, s, e.thread);
  }

  lemma QuietAfterSwap(space: Space, s: State, e: Event)
    requires Quiet(space, s) && e.Event? && e.thread < |s.threads| && s.threads[e.thread].Snapped?
    requires s.cell == s.threads[e.thread].was && Worded(space, Step(s, e))
    ensures Quiet(space, Step(s, e))
  {
    SwapQuiet(space, s, e.thread);
  }

  /** From a quiet state a step reports nothing exactly when it is peaceful, and then the state stays quiet. */
  lemma StepQuiet(space: Space, s: State, e: Event)
    requires Quiet(space, s) && EventIn(space, e)
    ensures Step(s, e).reports == [] <==> Peaceful(s, e)
    ensures Peaceful(s, e) ==> Quiet(space, Step(s, e))
  {
    StepWorded(space, s, e);
    if e.Event? && e.thread < |s.threads| && s.threads[e.thread].Ready? {
      QuietAfterSnap(space, s, e);
    } else if e.Event? && e.thread < |s.threads| && s.threads[e.thread].Snapped? && s.cell == s.threads[e.thread].was {
      QuietAfterSwap(space, s, e);
    } else {
      SameLog(s, e);
    }
  }

  /** The other steps only change who is where. */
  lemma SameLog(s: State, e: Event)
    requires e.Event? && e.thread < |s.threads| && s.threads[e.thread].Snapped? ==> s.cell != s.threads[e.thread].was
    requires SnapsQuiet(s.threads) && (e.Event? && e.thread < |s.threads| ==> !s.threads[e.thread].Ready?)
    ensures var s' := Step(s, e); s'.log == s.log && s'.reports == s.reports && SnapsQuiet(s'.threads)
  {
  }

  lemma {:induction false} ReportsStay(s: State, schedule: seq<Event>)
    ensures s.reports <= Run(s, schedule).reports
    decreases |schedule|
  {
    if schedule != [] {
      ReportsStay(Step(s, schedule[0]), schedule[1..]);
    }
  }

  lemma {:induction false} RunQuiet(space: Space, s: State, schedule: seq<Event>)
    requires Quiet(space, s) && InSpace(space, schedule)
    ensures Run(s, schedule).reports == [] <==> AllPeaceful(s, schedule)
    ensures AllPeaceful(s, schedule) ==> Quiet(space, Run(s, schedule))
    decreases |schedule|
  {
    if schedule != [] {
      assert schedule[0] in schedule;
      StepQuiet(space, s, schedule[0]);
      if Peaceful(s, schedule[0]) {
        assert InSpace(space, schedule[1..]);
        RunQuiet(space, Step(s, schedule[0]), schedule[1..]);
      } else {
        ReportsStay(Step(s, schedule[0]), schedule[1..]);
      }
    }
  }

  /**
   * A run is silent exactly when no access, whenever it reads the word, conflicts with the accesses completed by
   * then; and no access that a silent run completes conflicts with those before it.
   */
  lemma SilentExactly(space: Space, threads: nat, schedule: seq<Event>)
    requires threads <= MAX_THREADS && InSpace(space, schedule)
    ensures var s := Run(Init(threads), schedule);
            && (s.reports == [] <==> AllPeaceful(Init(threads), schedule))
            && (s.reports == [] ==> Unheard(s.log))
  {
    RunQuiet(space, Init(threads), schedule);
  }

  // ------------------------------------------------------------------ loads only

  /** The position of the first store in the log, or its length. */
  function FirstStore(log: seq<Done>): (i: nat)
    ensures i <= |log|
    ensures forall k :: 0 <= k < i ==> !log[k].store
    ensures i < |log| ==> log[i].store
  {
    if log == [] then 0 else if log[0].store then 0 else 1 + FirstStore(log[1..])
  }

  lemma {:induction false} FirstStoreOfExtension(log: seq<Done>, d: Done)
    ensures FirstStore(log + [d]) == if FirstStore(log) < |log| || d.store then FirstStore(log) else |log| + 1
  {
    if log == [] {
      assert [d][1..] == [];
    } else {
      assert (log + [d])[1..] == log[1..] + [d];
      FirstStoreOfExtension(log[1..], d);
    }
  }

  /** Before the first store nothing is reported, and the word speaks of the whole log. */
  lemma {:induction false} LoadsAreTheStretch(log: seq<Done>)
    requires FirstStore(log) == |log|
    ensures Stretch(log) == log && Stores(log) == [] && !Heard(log)
  {
    if log != [] {
      var init, d := log[..|log| - 1], Last(log);
      assert log == init + [d];
      FirstStoreOfExtension(init, d);
      LoadsAreTheStretch(init);
      StretchNext(init, d);
      StoresNext(init, d);
      HeardNext(init, d);
    }
  }

  /**
   * In every run, silent so far or not: a store that reads the word after loads only is reported exactly when the last
   * load was not atomic and came after the last barrier, the loads are not all by its thread, and the thread named is
   * in another warp or the last load was at the store's instruction; the one report then names that thread.
   */
  lemma StoreAfterLoads(space: Space, threads: nat, schedule: seq<Event>, t: nat)
    requires threads <= MAX_THREADS && InSpace(space, schedule) && t < threads
    requires var s := Run(Init(threads), schedule);
             |s.threads| == threads && s.threads[t].Ready? && s.threads[t].access.store && FirstStore(s.log) == |s.log|
    ensures var s := Run(Init(threads), schedule);
            var d := NextDone(s, t);
            NextReports(s, t)
            == if s.log != [] && Racy(Last(s.log), s.epoch) && !AllBy(s.log, t) && Unsynchronised(Named(s.log), Last(s.log).pc, d)
               then [Race(ReadWrite, t, true, Named(s.log), |s.log|, s.epoch)] else []
  {
    ReportedExactly(space, threads, schedule, t);
    LoadsAreTheStretch(Run(Init(threads), schedule).log);
  }

  /**
   * In every run a read/write report names the reporter itself exactly when the word speaks of loads, written
   * non-atomically since the last barrier, not all of them by the reporter, who is the thread named, and the last of
   * them was at the store's instruction.
   */
  lemma ReporterNamedExactly(space: Space, threads: nat, schedule: seq<Event>, t: nat)
    requires threads <= MAX_THREADS && InSpace(space, schedule) && t < threads
    requires var s := Run(Init(threads), schedule);
             |s.threads| == threads && s.threads[t].Ready? && s.threads[t].access.store
    ensures var s := Run(Init(threads), schedule);
            var d, loads := NextDone(s, t), Stretch(s.log);
            Race(ReadWrite, t, true, t, |s.log|, s.epoch) in NextReports(s, t)
            <==> loads != [] && Stores(loads) == [] && Racy(Last(loads), s.epoch) && !AllBy(loads, t)
                 && Named(loads) == t && Seen(Last(loads).pc) == d.pc
  {
    ReportedExactly(space, threads, schedule, t);
    var log := Run(Init(threads), schedule).log;
    if log != [] {
      LastOfStretch(log);
      if Heard(log) { HeardHasStore(log); }
    }
  }

  // ------------------------------------------------------------------ barriers and atomic accesses

  /** Right after a barrier, and after an atomic access that wrote the word, nothing is reported. */
  lemma BarrierAndAtomicSilence(space: Space, threads: nat, schedule: seq<Event>, t: nat)
    requires threads <= MAX_THREADS && InSpace(space, schedule) && t < threads
    requires var s := Run(Init(threads), schedule); |s.threads| == threads && s.threads[t].Ready?
    requires var s := Run(Init(threads), schedule);
             (forall d <- s.log :: d.epoch < s.epoch) || (s.log != [] && Writer(s.log).atomic)
    ensures NextReports(Run(Init(threads), schedule), t) == []
  {
    ReportedExactly(space, threads, schedule, t);
    var log := Run(Init(threads), schedule).log;
    if log != [] { WriterFromLog(log); }
  }

  /** Some other thread has loaded non-atomically since the last barrier: a read/write report is justified. */
  ghost predicate Justified(log: seq<Done>, d: Done) { exists u :: u != d.thread && DidPlain(log, |log|, u, false, d.epoch) }

  /**
   * A read/write report is a false alarm exactly when no other thread has so loaded, the last load of the stretch was
   * made by the reporter since the barrier, another thread loaded before it, and the thread named is not synchronised
   * with the store: loads that a barrier separates from the store still count as long as the word remembers them.
   */
  lemma FalseAlarmExactly(log: seq<Done>, d: Done)
    requires d.store && Stores(Stretch(log)) == []
    ensures Conflicts(log, d) && !Justified(log, d)
            <==> && !Justified(log, d) && log != [] && Last(log).thread == d.thread && Racy(Last(log), d.epoch)
                 && !AllBy(Stretch(log), d.thread) && Unsynchronised(Named(Stretch(log)), Last(log).pc, d)
  {
    if log != [] {
      LastOfStretch(log);
      if Heard(log) { HeardHasStore(log); }
      if Racy(Last(log), d.epoch) { LastLoadJustifies(log, d); }
    }
  }

  lemma LastLoadJustifies(log: seq<Done>, d: Done)
    requires log != [] && Stores(Stretch(log)) == [] && Racy(Last(log), d.epoch)
    ensures Last(log).thread != d.thread ==> Justified(log, d)
  {
    LastOfStretch(log);
    var s, n := Stretch(log), |Stretch(log)| - 1;
    assert !s[n].store;
    assert Plainly(log[|log| - 1], Last(log).thread, false, d.epoch);
    assert DidPlain(log, |log|, Last(log).thread, false, d.epoch);
  }

  // ------------------------------------------------------------------ runs without barriers and atomic accesses

  /** All completed accesses are non-atomic and of the first epoch. */
  ghost predicate Calm(log: seq<Done>) { forall d <- log :: !d.atomic && d.epoch == 0 }

  ghost predicate OnlyStores(log: seq<Done>) { forall d <- log :: d.store }

  /** Stores only: the word speaks of all of them, even though an unreported one starts a new stretch. */
  lemma {:induction false} StoresAreNamed(log: seq<Done>)
    requires OnlyStores(log) && Calm(log) && log != []
    ensures SpeaksOf(log)
  {
    var init, d := log[..|log| - 1], Last(log);
    assert log == init + [d] && d in log && forall x <- init :: x in log;
    if init == [] {
      StretchNext(init, d);
      WriterNext(init, d);
      SingleStore(d);
    } else {
      StoresAreNamed(init);
      assert Last(init) in init;
      SpeaksOfNext(init, d);
    }
  }

  ghost predicate SpeaksOf(log: seq<Done>)
    requires log != []
  {
    var st := Stores(Stretch(log));
    st != [] && Named(st) == Named(log) && Last(st) == Last(log) && Writer(log) == Last(log)
  }

  lemma SpeaksOfNext(log: seq<Done>, d: Done)
    requires log != [] && SpeaksOf(log) && d.store && Racy(Last(log), d.epoch)
    ensures SpeaksOf(log + [d])
  {
    var st := Stores(Stretch(log));
    StretchNext(log, d);
    WriterNext(log, d);
    NamedNext(log, d);
    if Conflicts(log, d) {
      NamedNext(st, d);
      StoresNext(Stretch(log), d);
    } else {
      SingleStore(d);
    }
  }

  /** A schedule without barriers and atomic accesses. */
  ghost predicate CalmEvents(schedule: seq<Event>) {
    forall e <- schedule :: e.Event? && (e.action.Begin? ==> !e.action.access.atomic)
  }

  ghost predicate CalmState(s: State) {
    s.epoch == 0 && Calm(s.log) && forall t :: 0 <= t < |s.threads| && !s.threads[t].Idle? ==> !s.threads[t].access.atomic
  }

  lemma {:induction false} RunCalm(s: State, schedule: seq<Event>)
    requires CalmState(s) && CalmEvents(schedule)
    ensures CalmState(Run(s, schedule))
    decreases |schedule|
  {
    if schedule != [] {
      assert schedule[0] in schedule;
      assert CalmState(Step(s, schedule[0])) && CalmEvents(schedule[1..]);
      RunCalm(Step(s, schedule[0]), schedule[1..]);
    }
  }

  /**
   * In every run in which only stores have completed, however many of them were reported: the next store is reported,
   * as a write/write race and, unless it has counted one before, as an overlap, exactly when the thread named is
   * another; a load exactly when besides it is of another warp or at the instruction of the last store.
   */
  lemma AfterStores(space: Space, threads: nat, schedule: seq<Event>, t: nat)
    requires threads <= MAX_THREADS && InSpace(space, schedule) && CalmEvents(schedule) && t < threads
    requires var s := Run(Init(threads), schedule);
             |s.threads| == threads && s.threads[t].Ready? && s.log != [] && OnlyStores(s.log)
    ensures var s := Run(Init(threads), schedule);
            var d, u := NextDone(s, t), Named(s.log);
            NextReports(s, t)
            == if t == u then []
               else if d.store then
                 [Race(WriteWrite, t, true, u, |s.log|, 0)]
                 + if Counted(s.log, s.reports, t) then [] else [Overlap(t, true, u, |s.log|, 0)]
               else if Unsynchronised(u, Last(s.log).pc, d) then [Race(WriteRead, t, false, u, |s.log|, 0)]
               else []
  {
    ReportedExactly(space, threads, schedule, t);
    RunCalm(Init(threads), schedule);
    var log := Run(Init(threads), schedule).log;
    StoresAreNamed(log);
    assert Last(log) in log;
  }

  /** Every read/write report of such a run is justified. */
  lemma CalmReportIsARace(space: Space, threads: nat, schedule: seq<Event>, r: Report)
    requires threads <= MAX_THREADS && InSpace(space, schedule) && CalmEvents(schedule)
    requires r in Run(Init(threads), schedule).reports && r.Race? && r.kind == ReadWrite
    ensures exists u :: u != r.thread && DidPlain(Run(Init(threads), schedule).log, r.seen, u, false, 0)
  {
    EveryReportIsARace(space, threads, schedule, r);
    RunCalm(Init(threads), schedule);
    var log := Run(Init(threads), schedule).log;
    var u :| u != r.thread && Did(log, r.seen, u, false);
    var i :| 0 <= i < r.seen && i < |log| && log[i].thread == u && log[i].store == false;
    assert log[i] in log && Plainly(log[i], u, false, 0);
    assert DidPlain(log, r.seen, u, false, 0);
  }

  function LastStorePc(log: seq<Done>): nat
    requires FirstStore(log) < |log|
  {
    var n := |log| - 1;
    if log[n].store then log[n].pc
    else
      StoreBefore(log);
      LastStorePc(log[..n])
  }

  lemma StoreBefore(log: seq<Done>)
    requires FirstStore(log) < |log| && !log[|log| - 1].store
    ensures FirstStore(log[..|log| - 1]) < |log| - 1
  {
    assert log == log[..|log| - 1] + [log[|log| - 1]];
    FirstStoreOfExtension(log[..|log| - 1], log[|log| - 1]);
  }

  /**
   * The access goes unreported after a log of unreported accesses.  Before the first store only a store can be
   * reported: not when its thread made all the loads, and not when the thread named shares its warp and the last load
   * was at another instruction.  After it, stores must come from the same thread and loads from that thread, or from
   * its warp at another instruction than the last store.
   */
  ghost predicate Allowed(log: seq<Done>, d: Done) {
    var f := FirstStore(log);
    if log == [] then true
    else if f == |log| then
      !d.store || AllBy(log, d.thread) || (SameWarp(Named(log), d.thread) && Seen(Last(log).pc) != d.pc)
    else if d.store then d.thread == log[f].thread
    else d.thread == log[f].thread || (SameWarp(d.thread, log[f].thread) && Seen(LastStorePc(log)) != d.pc)
  }

  /** The word speaks of one store, by the first writer and at the last store's instruction. */
  ghost predicate OneStore(log: seq<Done>)
    requires FirstStore(log) < |log|
  {
    var st := Stores(Stretch(log));
    && |st| == 1 && st[0].thread == log[FirstStore(log)].thread && st[0].pc == LastStorePc(log)
    && !Heard(log) && Racy(Writer(log), 0)
  }

  lemma UnheardInit(log: seq<Done>, d: Done)
    requires Unheard(log + [d])
    ensures Unheard(log) && !Conflicts(log, d) && !Heard(log + [d])
  {
    var log' := log + [d];
    assert log'[..|log|] == log && log'[|log|] == d;
    forall k | 0 <= k < |log| ensures !Conflicts(log[..k], log[k]) {
      assert log'[..k] == log[..k] && log'[k] == log[k];
    }
  }

  lemma OneStoreByStore(log: seq<Done>, d: Done)
    requires d.store && !d.atomic && d.epoch == 0 && !Conflicts(log, d) && !Heard(log + [d])
    requires FirstStore(log) < |log| ==> OneStore(log)
    ensures FirstStore(log + [d]) < |log| + 1 && OneStore(log + [d])
  {
    FirstStoreOfExtension(log, d);
    StretchNext(log, d);
    SingleStore(d);
    WriterNext(log, d);
    if FirstStore(log) < |log| { assert Named(Stores(Stretch(log))) == d.thread; }
  }

  lemma OneStoreByLoad(log: seq<Done>, d: Done)
    requires !d.store && !Conflicts(log, d) && FirstStore(log) < |log| && OneStore(log) && !Heard(log + [d])
    ensures FirstStore(log + [d]) < |log| + 1 && OneStore(log + [d])
  {
    FirstStoreOfExtension(log, d);
    StretchNext(log, d);
    StoresNext(Stretch(log), d);
    assert (log + [d])[..|log|] == log;
  }

  lemma {:induction false} UnheardShape(log: seq<Done>)
    requires Unheard(log) && Calm(log) && FirstStore(log) < |log|
    ensures OneStore(log)
  {
    var init, d := log[..|log| - 1], Last(log);
    assert log == init + [d] && d in log && forall x <- init :: x in log;
    UnheardInit(init, d);
    FirstStoreOfExtension(init, d);
    if FirstStore(init) < |init| { UnheardShape(init); }
    if d.store { OneStoreByStore(init, d); } else { OneStoreByLoad(init, d); }
  }

  /** After unreported accesses of such a run the next access is unreported exactly when it is allowed. */
  lemma AllowedExactly(log: seq<Done>, d: Done)
    requires Unheard(log) && Calm(log) && !d.atomic && d.epoch == 0
    ensures !Conflicts(log, d) <==> Allowed(log, d)
  {
    if FirstStore(log) < |log| {
      UnheardShape(log);
    } else if log != [] {
      LoadsAreTheStretch(log);
      assert Last(log) in log;
    }
  }

  /** One thread does all the stores, and after its first store only its warp loads. */
  ghost predicate Ordered(log: seq<Done>) {
    var f := FirstStore(log);
    forall k :: f <= k < |log| ==>
      if log[k].store then log[k].thread == log[f].thread else SameWarp(log[k].thread, log[f].thread)
  }

  lemma {:induction false} UnheardIsOrdered(log: seq<Done>)
    requires Unheard(log) && Calm(log)
    ensures Ordered(log)
  {
    if log != [] {
      var init, d := log[..|log| - 1], Last(log);
      assert log == init + [d] && d in log && forall x <- init :: x in log;
      UnheardInit(init, d);
      UnheardIsOrdered(init);
      AllowedExactly(init, d);
      OrderedNext(init, d);
    }
  }

  lemma OrderedNext(log: seq<Done>, d: Done)
    requires Ordered(log) && Allowed(log, d)
    ensures Ordered(log + [d])
  {
    FirstStoreOfExtension(log, d);
  }

  /**
   * A run without barriers, atomic accesses and reports has a single writing thread, and every load completed after its
   * first store comes from that thread's warp; equivalently, any other such run raises a report.
   */
  lemma SilentRunIsOrdered(space: Space, threads: nat, schedule: seq<Event>)
    requires threads <= MAX_THREADS && InSpace(space, schedule) && CalmEvents(schedule)
    requires Run(Init(threads), schedule).reports == []
    ensures Ordered(Run(Init(threads), schedule).log)
  {
    SilentExactly(space, threads, schedule);
    RunCalm(Init(threads), schedule);
    UnheardIsOrdered(Run(Init(threads), schedule).log);
  }

  // ------------------------------------------------------------------ examples

  /** One access by one thread, undisturbed. */
  function Solo(t: nat, store: bool, pc: nat): seq<Event> {
    [Event(t, Begin(Access(store, pc, GM, false))), Event(t, Advance), Event(t, Advance)]
  }

  lemma {:induction false} RunAppend(s: State, x: seq<Event>, y: seq<Event>)
    ensures Run(s, x + y) == Run(Run(s, x), y)
    decreases |x|
  {
    if x == [] {
      assert x + y == y;
    } else {
      assert (x + y)[1..] == x[1..] + y;
      RunAppend(Step(s, x[0]), x[1..], y);
    }
  }

  /** An undisturbed access applies one attempt to the word, and is silent when the attempt is. */
  lemma SoloRun(s: State, t: nat, store: bool, pc: nat)
    requires t < |s.threads| && s.threads[t].Idle?
    ensures var a := Access(store, pc, GM, false);
            var r := Run(s, Solo(t, store, pc));
            && r.cell == Try(s.cell, t, a).next && r.threads == s.threads
            && r.log == s.log + [Done(t, store, pc, false, s.epoch)] && r.epoch == s.epoch
            && r.reports == s.reports + Reports(s.cell, t, a, false, |s.log|, s.epoch)
  {
    var a := Access(store, pc, GM, false);
    var x := Solo(t, store, pc);
    var s1 := Step(s, x[0]);
    var s2 := Step(s1, x[1]);
    var s3 := Step(s2, x[2]);
    assert Run(s3, x[1..][1..][1..]) == s3;
    assert Run(s, x) == Run(s1, x[1..]) == Run(s2, x[1..][1..]) == s3;
    assert s3.threads == s.threads;
  }

  /** No access is lost: left alone, a thread completes the access it is at, whatever it had read before. */
  lemma CompletesAlone(s: State, t: nat)
    requires t < |s.threads| && !s.threads[t].Idle?
    ensures var e := Event(t, Advance);
            var r := Run(s, [e, e, e]);
            && r.threads == s.threads[t := Idle] && r.epoch == s.epoch
            && r.log == s.log + [DoneBy(t, s.threads[t].access, s.epoch)]
            && r.cell == Try(s.cell, t, s.threads[t].access).next
  {
    var e, a := Event(t, Advance), s.threads[t].access;
    var s1 := Step(s, e);
    var s2 := Step(s1, e);
    var s3 := Step(s2, e);
    assert Run(s, [e, e, e]) == s3 by {
      assert [e, e, e][1..] == [e, e] && [e, e][1..] == [e] && [e][1..] == [];
      assert Run(s3, []) == s3 && Run(s2, [e]) == s3 && Run(s1, [e, e]) == s3;
    }
    StepsOfOne(s, t);
  }

  /** After three steps the thread is through, and after its last one the others change nothing. */
  lemma StepsOfOne(s: State, t: nat)
    requires t < |s.threads| && !s.threads[t].Idle?
    ensures var e := Event(t, Advance);
            var r := Step(Step(Step(s, e), e), e);
            && r.threads == s.threads[t := Idle] && r.epoch == s.epoch
            && r.log == s.log + [DoneBy(t, s.threads[t].access, s.epoch)]
            && r.cell == Try(s.cell, t, s.threads[t].access).next
  {
  }

  predicate At(a: Access) { !a.atomic && a.space == GM }

  function ThreeAccesses(t: nat, p: Access, u: nat, q: Access, v: nat, r: Access): seq<Event> {
    Solo(t, p.store, p.pc) + Solo(u, q.store, q.pc) + Solo(v, r.store, r.pc)
  }

  lemma TwoRuns(n: nat, t: nat, p: Access, u: nat, q: Access)
    requires t < n && u < n && At(p) && At(q)
    ensures var s := Run(Init(n), Solo(t, p.store, p.pc) + Solo(u, q.store, q.pc));
            var c1 := Try(EMPTY, t, p).next;
            && s.epoch == 0 && s.cell == Try(c1, u, q).next && s.threads == Init(n).threads
            && s.log == [Done(t, p.store, p.pc, false, 0), Done(u, q.store, q.pc, false, 0)]
            && s.reports == Reports(EMPTY, t, p, false, 0, 0) + Reports(c1, u, q, false, 1, 0)
  {
    var x, y := Solo(t, p.store, p.pc), Solo(u, q.store, q.pc);
    SoloRun(Init(n), t, p.store, p.pc);
    SoloRun(Run(Init(n), x), u, q.store, q.pc);
    RunAppend(Init(n), x, y);
  }

  lemma ThreeRuns(n: nat, t: nat, p: Access, u: nat, q: Access, v: nat, r: Access)
    requires t < n && u < n && v < n
    requires At(p) && At(q) && At(r)
    ensures var s := Run(Init(n), ThreeAccesses(t, p, u, q, v, r));
            var c1 := Try(EMPTY, t, p).next;
            var c2 := Try(c1, u, q).next;
            && s.log == [Done(t, p.store, p.pc, false, 0), Done(u, q.store, q.pc, false, 0), Done(v, r.store, r.pc, false, 0)]
            && s.reports == Reports(EMPTY, t, p, false, 0, 0) + Reports(c1, u, q, false, 1, 0) + Reports(c2, v, r, false, 2, 0)
  {
    var x, z := Solo(t, p.store, p.pc) + Solo(u, q.store, q.pc), Solo(v, r.store, r.pc);
    TwoRuns(n, t, p, u, q);
    SoloRun(Run(Init(n), x), v, r.store, r.pc);
    RunAppend(Init(n), x, z);
  }

  lemma ThreeInSpace(t: nat, p: Access, u: nat, q: Access, v: nat, r: Access)
    ensures InSpace(GM, ThreeAccesses(t, p, u, q, v, r))
  {
  }

  /**
   * Silence does not order loads that came before the first store: thread 40 loads, then threads 0 and 1
   * of another warp load and store, and nothing is reported.
   */
  lemma UnreportedReadWrite()
    ensures exists schedule :: InSpace(GM, schedule)
              && var s := Run(Init(64), schedule);
                 s.reports == [] && s.log == [Done(40, false, 1, false, 0), Done(0, false, 2, false, 0), Done(1, true, 3, false, 0)]
                 && !SameWarp(40, 1)
  {
    var p, q, r := Access(false, 1, GM, false), Access(false, 2, GM, false), Access(true, 3, GM, false);
    ThreeRuns(64, 40, p, 0, q, 1, r);
    assert Try(EMPTY, 40, p).next == Cell(READ, 40, 1, GM, false, true);
    assert Try(Cell(READ, 40, 1, GM, false, true), 0, q).next == Cell(GLOBAL_READ, 0, 2, GM, false, true);
    ThreeInSpace(40, p, 0, q, 1, r);
  }

  /** A ReadWrite report may name the reporter itself; the other reader exists but is not the one named. */
  lemma ReporterMayBeNamed()
    ensures exists schedule :: InSpace(GM, schedule) && Race(ReadWrite, 0, true, 0, 2, 0) in Run(Init(2), schedule).reports
  {
    var p, r := Access(false, 5, GM, false), Access(true, 5, GM, false);
    ThreeRuns(2, 0, p, 1, p, 0, r);
    assert Try(EMPTY, 0, p).next == Cell(READ, 0, 5, GM, false, true);
    var c2 := Cell(GLOBAL_READ, 0, 5, GM, false, true);
    assert Try(Cell(READ, 0, 5, GM, false, true), 1, p).next == c2;
    assert Reports(c2, 0, r, false, 2, 0)[0] == Race(ReadWrite, 0, true, 0, 2, 0);
    ThreeInSpace(0, p, 1, p, 0, r);
  }

  /** Threads 0, 32 and 64 store one after the other: the byte that raced is reported again, naming the last storer. */
  lemma RacesAgain()
    ensures exists schedule :: InSpace(GM, schedule)
              && Run(Init(96), schedule).reports
                 == [Race(WriteWrite, 32, true, 0, 1, 0), Overlap(32, true, 0, 1, 0),
                     Race(WriteWrite, 64, true, 32, 2, 0), Overlap(64, true, 32, 2, 0)]
  {
    var p, q, r := Access(true, 1, GM, false), Access(true, 2, GM, false), Access(true, 3, GM, false);
    ThreeRuns(96, 0, p, 32, q, 64, r);
    var c1, c2 := Cell(WRITE, 0, 1, GM, false, true), Cell(RACE, 32, 2, GM, false, true);
    assert Try(EMPTY, 0, p).next == c1 && Try(c1, 32, q).next == c2;
    assert Reports(c2, 64, r, false, 2, 0) == [Race(WriteWrite, 64, true, 32, 2, 0), Overlap(64, true, 32, 2, 0)];
    ThreeInSpace(0, p, 32, q, 64, r);
  }

  /**
   * A false alarm: thread 0 loads, all threads pass a barrier, thread 32 loads at the same instruction and then stores.
   * The store is reported against thread 0, whose load the barrier separates from it.
   */
  lemma FalseAlarm()
    ensures exists schedule :: InSpace(GM, schedule)
              && var s := Run(Init(64), schedule);
                 && s.log == [Done(0, false, 5, false, 0), Done(32, false, 5, false, 1), Done(32, true, 6, false, 1)]
                 && s.reports == [Race(ReadWrite, 32, true, 0, 2, 1)]
                 && !Justified(s.log[..2], s.log[2])
  {
    var schedule := Solo(0, false, 5) + [Sync] + Solo(32, false, 5) + Solo(32, true, 6);
    AlarmRun();
    var s := Run(Init(64), schedule);
    forall u | u != 32 ensures !DidPlain(s.log[..2], 2, u, false, 1) {
      assert s.log[..2][0].epoch == 0 && s.log[..2][1].thread == 32;
    }
    assert InSpace(GM, schedule);
  }

  lemma AlarmRun()
    ensures var s := Run(Init(64), Solo(0, false, 5) + [Sync] + Solo(32, false, 5) + Solo(32, true, 6));
            && s.log == [Done(0, false, 5, false, 0), Done(32, false, 5, false, 1), Done(32, true, 6, false, 1)]
            && s.reports == [Race(ReadWrite, 32, true, 0, 2, 1)]
  {
    var x, p, q := Solo(0, false, 5), Access(false, 5, GM, false), Access(true, 6, GM, false);
    var y, z := Solo(32, false, 5), Solo(32, true, 6);
    SoloRun(Init(64), 0, false, 5);
    var s1 := Run(Init(64), x);
    RunAppend(Init(64), x, [Sync]);
    var s2 := Step(s1, Sync);
    assert Run(s1, [Sync]) == s2 by { assert [Sync][1..] == []; assert Run(s2, []) == s2; }
    SoloRun(s2, 32, false, 5);
    var s3 := Run(s2, y);
    RunAppend(Init(64), x + [Sync], y);
    SoloRun(s3, 32, true, 6);
    RunAppend(Init(64), x + [Sync] + y, z);
    assert s2.cell == Cell(READ, 0, 5, GM, false, false);
    assert Try(s2.cell, 32, p) == Attempt(Cell(GLOBAL_READ, 0, 5, GM, false, true), {});
    assert Reports(s3.cell, 32, q, false, 2, 1) == [Race(ReadWrite, 32, true, 0, 2, 1)];
  }
}
