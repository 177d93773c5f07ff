/**
 * What the race automaton reports at every point of every run, barriers, atomic accesses and earlier reports included,
 * told by the completed accesses.  The word speaks of a stretch at the end of the log; within it a conflict is judged by
 * the stores, if there are any, and by the loads otherwise.  A stretch begins with an unreported store, or with a
 * load that goes unreported right after a reported access.
 */
module RaceRuns {
  import opened ByteStatus
  import opened RaceAutomaton

  // ------------------------------------------------------------------ who the word names

  function Seen(pc: nat): nat { pc % PC_SEEN }

  ghost predicate AllBy(log: seq<Done>, t: nat) { forall d <- log :: d.thread == t }

  function Last(log: seq<Done>): Done
    requires log != []
  {
    log[|log| - 1]
  }

  /** The last of these accesses, or a smaller id that was named before and made its access at the same instruction. */
  function Named(log: seq<Done>): nat
    requires log != []
  {
    var n := |log| - 1;
    if n > 0 && log[n].pc == Seen(log[n - 1].pc) && Named(log[..n]) < log[n].thread then Named(log[..n])
    else log[n].thread
  }

  lemma PcSeen(pc: nat)
    ensures pc % PC_RANGE % PC_SEEN == Seen(pc)
  {
    var q, r := pc / PC_RANGE, pc % PC_RANGE;
    assert pc == PC_SEEN * (q * PC_SEEN) + r;
  }

  lemma {:induction false} NamedByOne(log: seq<Done>, t: nat)
    requires log != [] && AllBy(log, t)
    ensures Named(log) == t
  {
    var n := |log| - 1;
    assert log[n] in log;
    if n > 0 { NamedByOne(log[..n], t); }
  }

  lemma {:induction false} NamedIsOne(log: seq<Done>)
    requires log != []
    ensures exists d :: d in log && d.thread == Named(log)
  {
    var n := |log| - 1;
    assert log[n] in log;
    if n > 0 {
      NamedIsOne(log[..n]);
      var d :| d in log[..n] && d.thread == Named(log[..n]);
      assert d in log;
    }
  }

  lemma NamedNext(log: seq<Done>, d: Done)
    requires log != []
    ensures Named(log + [d]) == if d.pc == Seen(log[|log| - 1].pc) && Named(log) < d.thread then Named(log) else d.thread
  {
    assert (log + [d])[..|log|] == log;
  }

  lemma AllByNext(log: seq<Done>, d: Done, t: nat)
    ensures AllBy(log + [d], t) <==> AllBy(log, t) && d.thread == t
  {
    assert d in log + [d];
    forall x | x in log ensures x in log + [d] { }
  }

  lemma ReadersNext(log: seq<Done>, d: Done)
    requires log != []
    ensures AllBy(log + [d], (log + [d])[0].thread) <==> AllBy(log, log[0].thread) && Named(log) == d.thread
  {
    var t := log[0].thread;
    assert (log + [d])[0] == log[0];
    AllByNext(log, d, t);
    if AllBy(log, t) { NamedByOne(log, t); }
  }

  function AccessOf(space: Space, d: Done): Access { Access(d.store, d.pc, space, d.atomic) }

  // ------------------------------------------------------------------ the verdict by the log

  ghost function Stores(log: seq<Done>): (st: seq<Done>)
    ensures forall d <- st :: d in log
  {
    if log == [] then []
    else
      var n := |log| - 1;
      if log[n].store then Stores(log[..n]) + [log[n]] else Stores(log[..n])
  }

  /** The completed accesses the word still speaks of. */
  ghost function Stretch(log: seq<Done>): seq<Done>
    decreases |log|, 0
  {
    if log == [] then []
    else
      var n := |log| - 1;
      var init, d := log[..n], log[n];
      if !Conflicts(init, d) && (d.store || Heard(init)) then [d] else Stretch(init) + [d]
  }

  /** The last access was reported. */
  ghost predicate Heard(log: seq<Done>)
    decreases |log|, 1
  {
    log != [] && Conflicts(log[..|log| - 1], Last(log))
  }

  /** The access that wrote the word: the last one, or the last store when only unreported loads came after it. */
  ghost function Writer(log: seq<Done>): Done
    requires log != []
    decreases |log|, 2
  {
    var st := Stores(Stretch(log));
    if Heard(log) || st == [] then Last(log) else Last(st)
  }

  /** The word can race with an access of this epoch. */
  predicate Racy(writer: Done, epoch: nat) { !writer.atomic && writer.epoch == epoch }

  /** The thread named is in another warp, or executed the instruction of this access. */
  predicate Unsynchronised(named: nat, pc: nat, d: Done) { !SameWarp(named, d.thread) || Seen(pc) == d.pc }

  /**
   * The access is reported after this log.  The word must have been written non-atomically since the last barrier.
   * Once the stretch has a store: any store by another thread than the one named, and any load by such a thread that
   * is unsynchronised with it.  Before that: a store, unless its thread made all the loads, that is unsynchronised
   * with the thread named.
   */
  ghost predicate Conflicts(log: seq<Done>, d: Done)
    decreases |log|, 3
  {
    log != [] && Racy(Writer(log), d.epoch) &&
    var s := Stretch(log);
    var st := Stores(s);
    if st != [] then d.thread != Named(st) && (d.store || Unsynchronised(Named(st), Last(st).pc, d))
    else d.store && s != [] && !AllBy(s, d.thread) && Unsynchronised(Named(s), Last(s).pc, d)
  }

  /** What an access reports when it reads the word after this log. */
  ghost function Verdict(log: seq<Done>, d: Done, overlap: bool): seq<Report> {
    var s := Stretch(log);
    var st := Stores(s);
    if !Conflicts(log, d) then []
    else if st == [] then [Race(ReadWrite, d.thread, true, Named(s), |log|, d.epoch)]
    else if !d.store then [Race(WriteRead, d.thread, false, Named(st), |log|, d.epoch)]
    else
      [Race(WriteWrite, d.thread, true, Named(st), |log|, d.epoch)]
      + if overlap then [] else [Overlap(d.thread, true, Named(st), |log|, d.epoch)]
  }

  /** The closed form of the word. */
  ghost function Word(space: Space, log: seq<Done>, epoch: nat): Cell {
    var s := Stretch(log);
    var st := Stores(s);
    if log == [] || s == [] then EMPTY
    else
      var atomic, raceable := Writer(log).atomic, Writer(log).epoch == epoch;
      if st == [] then
        Cell(if AllBy(s, s[0].thread) then READ else GLOBAL_READ, Named(s), Last(s).pc % PC_RANGE, space, atomic, raceable)
      else
        Cell(if Heard(log) then RACE else WRITE, Named(st),
             if Heard(log) && !Last(log).store then Seen(Last(st).pc) else Last(st).pc % PC_RANGE, space, atomic, raceable)
  }

  // ------------------------------------------------------------------ one more access

  lemma StoresNext(log: seq<Done>, d: Done)
    ensures Stores(log + [d]) == if d.store then Stores(log) + [d] else Stores(log)
  {
    assert (log + [d])[..|log|] == log;
  }

  lemma HeardNext(log: seq<Done>, d: Done)
    ensures Heard(log + [d]) <==> Conflicts(log, d)
  {
    assert (log + [d])[..|log|] == log;
  }

  lemma StretchNext(log: seq<Done>, d: Done)
    ensures Stretch(log + [d]) == if !Conflicts(log, d) && (d.store || Heard(log)) then [d] else Stretch(log) + [d]
  {
    assert (log + [d])[..|log|] == log;
  }

  lemma {:induction false} LastOfStretch(log: seq<Done>)
    requires log != []
    ensures Stretch(log) != [] && Last(Stretch(log)) == Last(log)
  {
  }

  /** A reported access leaves a store in the stretch. */
  lemma HeardHasStore(log: seq<Done>)
    requires Heard(log)
    ensures Stores(Stretch(log)) != []
  {
    var init, d := log[..|log| - 1], Last(log);
    assert log == init + [d];
    StretchNext(init, d);
    StoresNext(Stretch(init), d);
  }

  lemma {:induction false} StretchFromLog(log: seq<Done>)
    ensures forall d <- Stretch(log) :: d in log
  {
    if log != [] {
      StretchFromLog(log[..|log| - 1]);
      forall d | d in Stretch(log) ensures d in log {
        assert d in Stretch(log[..|log| - 1]) || d == Last(log);
      }
    }
  }

  lemma NamedBelow(log: seq<Done>)
    requires log != [] && forall d <- log :: d.thread < MAX_THREADS
    ensures Named(log) < MAX_THREADS
  {
    NamedIsOne(log);
  }

  // ------------------------------------------------------------------ attempts on a word

  lemma SeenTwice(pc: nat)
    ensures Seen(Seen(pc)) == Seen(pc) && pc % PC_RANGE % PC_SEEN == Seen(pc)
  {
    PcSeen(pc);
  }

  predicate MarksWriters(space: Space, was: Cell) {
    (was.status == WRITE || was.status == RACE) && was.thread < MAX_THREADS && was.space == space
  }

  predicate MarksReaders(space: Space, was: Cell) {
    (was.status == READ || was.status == GLOBAL_READ) && was.thread < MAX_THREADS && was.space == space
  }

  /** An access that writes the word marks it raceable, and atomic if it is so itself. */
  function Marked(status: Status, t: nat, pc: nat, space: Space, d: Done): Cell { Cell(status, t, pc, space, d.atomic, true) }

  lemma StoreOnWriters(space: Space, was: Cell, d: Done)
    requires MarksWriters(space, was) && d.store && d.thread < MAX_THREADS
    ensures var r := Try(was, d.thread, AccessOf(space, d));
            var loud := !was.atomic && was.raceable && d.thread != was.thread;
            && r.conflict == (if loud then {WriteWrite} else {})
            && r.next == if loud then Marked(RACE, if d.pc == ExtractPc(was) && was.thread < d.thread then was.thread else d.thread,
                                             d.pc % PC_RANGE, space, d)
                         else Marked(WRITE, d.thread, d.pc % PC_RANGE, space, d)
  {
  }

  lemma LoadOnWriters(space: Space, was: Cell, d: Done)
    requires MarksWriters(space, was) && !d.store && d.thread < MAX_THREADS
    ensures var r := Try(was, d.thread, AccessOf(space, d));
            var loud := && !was.atomic && was.raceable && d.thread != was.thread
                        && (!SameWarp(was.thread, d.thread) || ExtractPc(was) == d.pc);
            && r.conflict == (if loud then {WriteRead} else {})
            && r.next == if loud then Marked(RACE, was.thread, ExtractPc(was), space, d)
                         else if was.status == RACE then Marked(READ, d.thread, d.pc % PC_RANGE, space, d)
                         else was
  {
    assert ExtractPc(was) % PC_RANGE == ExtractPc(was);
  }

  lemma StoreOnReaders(space: Space, was: Cell, d: Done)
    requires MarksReaders(space, was) && d.store && d.thread < MAX_THREADS
    ensures var r := Try(was, d.thread, AccessOf(space, d));
            var loud := && !was.atomic && was.raceable && (was.status == READ ==> was.thread != d.thread)
                        && (!SameWarp(was.thread, d.thread) || ExtractPc(was) == d.pc);
            && r.conflict == (if loud then {ReadWrite} else {})
            && r.next == Marked(if loud then RACE else WRITE, d.thread, d.pc % PC_RANGE, space, d)
  {
  }

  lemma LoadOnReaders(space: Space, was: Cell, d: Done)
    requires MarksReaders(space, was) && !d.store && d.thread < MAX_THREADS
    ensures var r := Try(was, d.thread, AccessOf(space, d));
            && r.conflict == {}
            && r.next == Marked(if was.status == READ && was.thread == d.thread then READ else GLOBAL_READ,
                                if d.pc == ExtractPc(was) && was.thread < d.thread then was.thread else d.thread,
                                d.pc % PC_RANGE, space, d)
  {
  }

  // ------------------------------------------------------------------ the word follows the log

  /** The attempt on the word is judged as the log says, and installs the word of the longer log. */
  ghost predicate Follows(space: Space, log: seq<Done>, d: Done) {
    var r := Try(Word(space, log, d.epoch), d.thread, AccessOf(space, d));
    && r.next == Word(space, log + [d], d.epoch)
    && r.conflict == if !Conflicts(log, d) then {}
                     else if Stores(Stretch(log)) == [] then {ReadWrite}
                     else if d.store then {WriteWrite} else {WriteRead}
  }

  ghost predicate SmallIds(log: seq<Done>) { forall d <- log :: d.thread < MAX_THREADS }

  lemma WritersWord(space: Space, log: seq<Done>, epoch: nat)
    requires SmallIds(log) && Stores(Stretch(log)) != []
    ensures var w, st := Word(space, log, epoch), Stores(Stretch(log));
            && log != [] && MarksWriters(space, w) && w.thread == Named(st) && ExtractPc(w) == Seen(Last(st).pc)
            && (w.status == RACE <==> Heard(log)) && (!w.atomic && w.raceable <==> Racy(Writer(log), epoch))
  {
    var st := Stores(Stretch(log));
    StretchFromLog(log);
    NamedBelow(st);
    SeenTwice(Last(st).pc);
  }

  /** What the longer log says of its last access, when that access writes the word. */
  lemma WriterNext(log: seq<Done>, d: Done)
    requires Conflicts(log, d) || d.store || Stores(Stretch(log + [d])) == []
    ensures Last(log + [d]) == d && Writer(log + [d]) == d
  {
    HeardNext(log, d);
    StretchNext(log, d);
    if d.store {
      if Conflicts(log, d) { StoresNext(Stretch(log), d); } else { SingleStore(d); }
    }
  }

  lemma SingleStore(d: Done)
    requires d.store
    ensures Stores([d]) == [d]
  {
    assert [d] == [] + [d];
    StoresNext([], d);
  }

  lemma SingleLoad(d: Done)
    requires !d.store
    ensures Stores([d]) == [] && Named([d]) == d.thread && AllBy([d], d.thread) && Last([d]) == d
  {
    assert [d] == [] + [d];
    StoresNext([], d);
  }

  lemma LoudStoreWord(space: Space, log: seq<Done>, d: Done, st: seq<Done>)
    requires Conflicts(log, d) && d.store && st == Stores(Stretch(log)) + [d]
    ensures Word(space, log + [d], d.epoch) == Marked(RACE, Named(st), d.pc % PC_RANGE, space, d)
  {
    HeardNext(log, d);
    StretchNext(log, d);
    StoresNext(Stretch(log), d);
    WriterNext(log, d);
  }

  lemma SilentStoreWord(space: Space, log: seq<Done>, d: Done)
    requires !Conflicts(log, d) && d.store
    ensures Word(space, log + [d], d.epoch) == Marked(WRITE, d.thread, d.pc % PC_RANGE, space, d)
  {
    HeardNext(log, d);
    StretchNext(log, d);
    SingleStore(d);
    WriterNext(log, d);
  }

  lemma StoreFollowsStores(space: Space, log: seq<Done>, d: Done)
    requires SmallIds(log) && d.store && d.thread < MAX_THREADS && Stores(Stretch(log)) != []
    ensures Follows(space, log, d)
  {
    var w, st := Word(space, log, d.epoch), Stores(Stretch(log));
    WritersWord(space, log, d.epoch);
    StoreOnWriters(space, w, d);
    if Conflicts(log, d) {
      LoudStoreWord(space, log, d, st + [d]);
      NamedNext(st, d);
    } else {
      SilentStoreWord(space, log, d);
    }
  }

  lemma LoudLoadWord(space: Space, log: seq<Done>, d: Done)
    requires Conflicts(log, d) && !d.store
    ensures var st := Stores(Stretch(log));
            st != [] && Word(space, log + [d], d.epoch) == Marked(RACE, Named(st), Seen(Last(st).pc), space, d)
  {
    HeardNext(log, d);
    StretchNext(log, d);
    StoresNext(Stretch(log), d);
    WriterNext(log, d);
  }

  lemma ForgivingLoadWord(space: Space, log: seq<Done>, d: Done)
    requires !Conflicts(log, d) && !d.store && Heard(log)
    ensures Word(space, log + [d], d.epoch) == Marked(READ, d.thread, d.pc % PC_RANGE, space, d)
  {
    StretchNext(log, d);
    SingleLoad(d);
    WriterNext(log, d);
  }

  lemma IdleLoadWord(space: Space, log: seq<Done>, d: Done)
    requires !Conflicts(log, d) && !d.store && !Heard(log) && Stores(Stretch(log)) != []
    ensures Word(space, log + [d], d.epoch) == Word(space, log, d.epoch)
  {
    HeardNext(log, d);
    StretchNext(log, d);
    StoresNext(Stretch(log), d);
  }

  lemma LoadFollowsStores(space: Space, log: seq<Done>, d: Done)
    requires SmallIds(log) && !d.store && d.thread < MAX_THREADS && Stores(Stretch(log)) != []
    ensures Follows(space, log, d)
  {
    WritersWord(space, log, d.epoch);
    LoadOnWriters(space, Word(space, log, d.epoch), d);
    if Conflicts(log, d) {
      LoudLoadWord(space, log, d);
    } else if Heard(log) {
      ForgivingLoadWord(space, log, d);
    } else {
      IdleLoadWord(space, log, d);
    }
  }

  lemma ReadersWord(space: Space, log: seq<Done>, epoch: nat)
    requires SmallIds(log) && log != [] && Stores(Stretch(log)) == []
    ensures var w, s := Word(space, log, epoch), Stretch(log);
            && s != [] && !Heard(log) && MarksReaders(space, w) && (!w.atomic && w.raceable <==> Racy(Writer(log), epoch))
            && w.thread == Named(s) && ExtractPc(w) == Seen(Last(s).pc)
            && (w.status == READ <==> AllBy(s, s[0].thread))
  {
    var s := Stretch(log);
    LastOfStretch(log);
    StretchFromLog(log);
    NamedBelow(s);
    SeenTwice(Last(s).pc);
    if Heard(log) { HeardHasStore(log); }
  }

  lemma LoadFollowsLoads(space: Space, log: seq<Done>, d: Done)
    requires SmallIds(log) && log != [] && !d.store && d.thread < MAX_THREADS && Stores(Stretch(log)) == []
    ensures Follows(space, log, d)
  {
    var w, s := Word(space, log, d.epoch), Stretch(log);
    ReadersWord(space, log, d.epoch);
    LoadOnReaders(space, w, d);
    StretchNext(log, d);
    StoresNext(s, d);
    WriterNext(log, d);
    ReadersNext(s, d);
    NamedNext(s, d);
    assert Last(s + [d]) == d;
  }

  lemma OneReader(s: seq<Done>, t: nat)
    requires s != []
    ensures AllBy(s, t) <==> AllBy(s, s[0].thread) && Named(s) == t
  {
    assert s[0] in s;
    if AllBy(s, s[0].thread) { NamedByOne(s, s[0].thread); }
  }

  lemma StoreFollowsLoads(space: Space, log: seq<Done>, d: Done)
    requires SmallIds(log) && log != [] && d.store && d.thread < MAX_THREADS && Stores(Stretch(log)) == []
    ensures Follows(space, log, d)
  {
    var w, s := Word(space, log, d.epoch), Stretch(log);
    ReadersWord(space, log, d.epoch);
    OneReader(s, d.thread);
    StoreOnReaders(space, w, d);
    if Conflicts(log, d) { LoudStoreWord(space, log, d, [d]); } else { SilentStoreWord(space, log, d); }
  }

  lemma FirstFollows(space: Space, d: Done)
    requires d.thread < MAX_THREADS
    ensures Follows(space, [], d)
  {
    if d.store {
      SilentStoreWord(space, [], d);
    } else {
      StretchNext([], d);
      assert [] + [d] == [d];
      SingleLoad(d);
      WriterNext([], d);
    }
  }

  lemma EveryAttemptFollows(space: Space, log: seq<Done>, d: Done)
    requires SmallIds(log) && d.thread < MAX_THREADS
    ensures Follows(space, log, d)
  {
    if log == [] {
      FirstFollows(space, d);
    } else if Stores(Stretch(log)) == [] {
      if d.store { StoreFollowsLoads(space, log, d); } else { LoadFollowsLoads(space, log, d); }
    } else {
      if d.store { StoreFollowsStores(space, log, d); } else { LoadFollowsStores(space, log, d); }
    }
  }

  lemma VerdictFromWord(space: Space, log: seq<Done>, d: Done, overlap: bool)
    requires SmallIds(log) && d.thread < MAX_THREADS
    ensures Reports(Word(space, log, d.epoch), d.thread, AccessOf(space, d), overlap, |log|, d.epoch) == Verdict(log, d, overlap)
  {
    EveryAttemptFollows(space, log, d);
    if Stores(Stretch(log)) != [] {
      WritersWord(space, log, d.epoch);
    } else if log != [] {
      ReadersWord(space, log, d.epoch);
    }
  }

  // ------------------------------------------------------------------ every run

  ghost predicate Dated(log: seq<Done>, epoch: nat) { forall d <- log :: d.epoch <= epoch }

  /** The word has its closed form. */
  ghost predicate Worded(space: Space, s: State) {
    Sound(space, s) && SmallIds(s.log) && Dated(s.log, s.epoch) && s.cell == Word(space, s.log, s.epoch)
  }

  lemma WriterFromLog(log: seq<Done>)
    requires log != []
    ensures Writer(log) in log
  {
    StretchFromLog(log);
  }

  /** A barrier takes the word's mark away. */
  lemma SyncWord(space: Space, log: seq<Done>, epoch: nat)
    requires Dated(log, epoch)
    ensures Word(space, log, epoch + 1) == Word(space, log, epoch).(raceable := false)
  {
    if log != [] { WriterFromLog(log); }
  }

  lemma StepWorded(space: Space, s: State, e: Event)
    requires Worded(space, s) && EventIn(space, e)
    ensures Worded(space, Step(s, e)) && |Step(s, e).threads| == |s.threads|
  {
    StepSound(space, s, e);
    if e.Sync? {
      SyncWord(space, s.log, s.epoch);
    } else if e.thread < |s.threads| {
      var l := s.threads[e.thread];
      if l.Snapped? && s.cell == l.was {
        EveryAttemptFollows(space, s.log, DoneBy(e.thread, l.access, s.epoch));
      }
    }
  }

  /** The access that thread t is at has already counted an overlap: it did so after t's last completed access. */
  ghost predicate Counted(log: seq<Done>, reports: seq<Report>, t: nat) {
    exists r <- reports :: r.Overlap? && r.thread == t && forall k :: r.seen <= k < |log| ==> log[k].thread != t
  }

  predicate Flag(l: Local) { !l.Idle? && l.overlap }

  ghost predicate FlagsTrue(s: State) {
    forall t :: 0 <= t < |s.threads| ==> (Flag(s.threads[t]) <==> Counted(s.log, s.reports, t))
  }

  lemma CountedByReport(log: seq<Done>, reports: seq<Report>, more: seq<Report>, t: nat)
    ensures Counted(log, reports + more, t) <==> Counted(log, reports, t) || Counted(log, more, t)
  {
    forall r | r in reports || r in more ensures r in reports + more { }
  }

  lemma CountedByAttempt(log: seq<Done>, was: Cell, t: nat, a: Access, overlap: bool, epoch: nat, u: nat)
    ensures Counted(log, Reports(was, t, a, overlap, |log|, epoch), u)
            <==> u == t && !overlap && WriteWrite in Try(was, t, a).conflict
  {
    var rs := Reports(was, t, a, overlap, |log|, epoch);
    if !overlap && WriteWrite in Try(was, t, a).conflict { assert Overlap(t, a.store, was.thread, |log|, epoch) in rs; }
  }

  lemma CountedByAccess(log: seq<Done>, d: Done, reports: seq<Report>, u: nat)
    requires forall r <- reports :: r.seen <= |log|
    ensures Counted(log + [d], reports, u) <==> Counted(log, reports, u) && u != d.thread
  {
    var log' := log + [d];
    assert log'[|log|] == d && forall k :: 0 <= k < |log| ==> log'[k] == log[k];
    forall r | r in reports
      ensures (forall k :: r.seen <= k < |log'| ==> log'[k].thread != u)
              <==> (forall k :: r.seen <= k < |log| ==> log[k].thread != u) && u != d.thread
    {
      if forall k :: r.seen <= k < |log'| ==> log'[k].thread != u {
        assert log'[|log|].thread != u;
        forall k | r.seen <= k < |log| ensures log[k].thread != u { assert log'[k].thread != u; }
      }
    }
  }

  lemma StepFlags(space: Space, s: State, e: Event)
    requires Sound(space, s) && FlagsTrue(s)
    ensures FlagsTrue(Step(s, e))
  {
    if e.Event? && e.thread < |s.threads| {
      var t, l, s' := e.thread, s.threads[e.thread], Step(s, e);
      forall u | 0 <= u < |s'.threads| ensures Flag(s'.threads[u]) <==> Counted(s'.log, s'.reports, u) {
        assert Flag(s.threads[u]) <==> Counted(s.log, s.reports, u);
        if l.Ready? {
          var more := Reports(s.cell, t, l.access, l.overlap, |s.log|, s.epoch);
          CountedByReport(s.log, s.reports, more, u);
          CountedByAttempt(s.log, s.cell, t, l.access, l.overlap, s.epoch, u);
        } else if l.Snapped? && s.cell == l.was {
          assert forall r <- s.reports :: Witnessed(r, s.log);
          CountedByAccess(s.log, DoneBy(t, l.access, s.epoch), s.reports, u);
        }
      }
    }
  }

  lemma {:induction false} RunWorded(space: Space, s: State, schedule: seq<Event>)
    requires Worded(space, s) && FlagsTrue(s) && InSpace(space, schedule)
    ensures Worded(space, Run(s, schedule)) && FlagsTrue(Run(s, schedule)) && |Run(s, schedule).threads| == |s.threads|
    decreases |schedule|
  {
    if schedule != [] {
      assert schedule[0] in schedule;
      StepWorded(space, s, schedule[0]);
      StepFlags(space, s, schedule[0]);
      assert InSpace(space, schedule[1..]);
      RunWorded(space, Step(s, schedule[0]), schedule[1..]);
    }
  }

  /** What thread t reports when it next reads the word. */
  ghost function NextReports(s: State, t: nat): seq<Report>
    requires t < |s.threads| && s.threads[t].Ready?
  {
    Reports(s.cell, t, s.threads[t].access, s.threads[t].overlap, |s.log|, s.epoch)
  }

  /** The access thread t is at, as it would be logged now. */
  function NextDone(s: State, t: nat): Done
    requires t < |s.threads| && s.threads[t].Ready?
  {
    DoneBy(t, s.threads[t].access, s.epoch)
  }

  /**
   * In every run, at every point, the word has its closed form, and an access that reads it there reports exactly
   * what the completed accesses call for, an overlap only once.
   */
  lemma ReportedExactly(space: Space, threads: nat, schedule: seq<Event>, t: nat)
    requires threads <= MAX_THREADS && InSpace(space, schedule) && t < threads
    ensures var s := Run(Init(threads), schedule);
            && |s.threads| == threads && s.cell == Word(space, s.log, s.epoch)
            && (s.threads[t].Ready? ==>
                  NextReports(s, t) == Verdict(s.log, NextDone(s, t), Counted(s.log, s.reports, t)))
  {
    RunWorded(space, Init(threads), schedule);
    var s := Run(Init(threads), schedule);
    if s.threads[t].Ready? { VerdictFromWord(space, s.log, NextDone(s, t), s.threads[t].overlap); }
  }

  // ------------------------------------------------------------------ where a stretch begins

  /** The access at k went unreported, and it is a store or comes right after a reported access. */
  ghost predicate Restarts(log: seq<Done>, k: nat)
    requires k < |log|
  {
    !Conflicts(log[..k], log[k]) && (log[k].store || Heard(log[..k]))
  }

  ghost predicate BeginsAt(log: seq<Done>, p: nat) {
    p < |log| && Stretch(log) == log[p..] && (p == 0 || Restarts(log, p)) && forall k :: p < k < |log| ==> !Restarts(log, k)
  }

  lemma RestartsBefore(log: seq<Done>, d: Done, k: nat)
    requires k < |log|
    ensures Restarts(log + [d], k) <==> Restarts(log, k)
  {
    assert (log + [d])[..k] == log[..k] && (log + [d])[k] == log[k];
  }

  lemma RestartsLast(log: seq<Done>, d: Done)
    ensures Restarts(log + [d], |log|) <==> !Conflicts(log, d) && (d.store || Heard(log))
  {
    assert (log + [d])[..|log|] == log && (log + [d])[|log|] == d;
  }

  lemma BeginsStill(log: seq<Done>, d: Done, p: nat)
    requires BeginsAt(log, p) && !Restarts(log + [d], |log|)
    ensures BeginsAt(log + [d], p)
  {
    var log' := log + [d];
    RestartsLast(log, d);
    StretchNext(log, d);
    assert log'[p..] == log[p..] + [d];
    forall k | p <= k < |log| ensures Restarts(log', k) <==> Restarts(log, k) { RestartsBefore(log, d, k); }
  }

  lemma BeginsAnew(log: seq<Done>, d: Done)
    requires Restarts(log + [d], |log|) || log == []
    ensures BeginsAt(log + [d], |log|)
  {
    RestartsLast(log, d);
    StretchNext(log, d);
    assert (log + [d])[|log|..] == [d];
  }

  /** A stretch runs from the last such access, or from the beginning, to the end of the log. */
  lemma {:induction false} StretchExactly(log: seq<Done>)
    requires log != []
    ensures exists p :: BeginsAt(log, p)
  {
    var init, d := log[..|log| - 1], Last(log);
    assert log == init + [d];
    if init == [] || Restarts(init + [d], |init|) {
      BeginsAnew(init, d);
    } else {
      StretchExactly(init);
      var p :| BeginsAt(init, p);
      BeginsStill(init, d, p);
    }
  }
}
