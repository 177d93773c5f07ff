/**
 * The per-byte race automaton of the online shadow memory.  Threads load and store one byte, atomically or not; each
 * access snapshots the status word, computes the next word and perhaps a race report, and installs the word with a
 * compare-and-swap, starting over when another thread got in between.  A barrier clears the mark that makes the
 * word raceable.
 *
 * A schedule is any interleaving of these steps.
 */
module RaceAutomaton {
  import opened ByteStatus

  datatype Access = Access(store: bool, pc: nat, space: Space, atomic: bool)

  datatype Kind = WriteRead | ReadWrite | WriteWrite

  /** The outcome of one attempt: the word to install and the conflict it found, if any. */
  datatype Attempt = Attempt(next: Cell, conflict: set<Kind>)

  /** Progress of a thread; `overlap` remembers that this access already counted an overlap. */
  datatype Local =
    | Idle
    | Ready(access: Access, overlap: bool)
    | Snapped(access: Access, overlap: bool, was: Cell)

  /**
   * A completed access, in the order in which the compare-and-swaps succeeded; `epoch` is the number of barriers
   * before it.
   */
  datatype Done = Done(thread: nat, store: bool, pc: nat, atomic: bool, epoch: nat)

  /**
   * A report by `thread` about its load or store, naming the thread found in the status word.
   * `seen` is the number of accesses completed when the word was read, and `epoch` that of barriers.
   */
  datatype Report =
    | Race(kind: Kind, thread: nat, store: bool, named: nat, seen: nat, epoch: nat)
    | Overlap(thread: nat, store: bool, named: nat, seen: nat, epoch: nat)

  datatype State = State(cell: Cell, threads: seq<Local>, log: seq<Done>, reports: seq<Report>, epoch: nat)

  datatype Action = Begin(access: Access) | Advance

  /** A step of a thread, or a barrier that all of them have reached. */
  datatype Event = Event(thread: nat, action: Action) | Sync

  // ------------------------------------------------------------------ one attempt

  predicate ExistRace(cell: Cell, space: Space) {
    !cell.atomic && cell.raceable && cell.space == space
  }

  predicate SameWarp(t: nat, u: nat) { t / WARP_SIZE == u / WARP_SIZE }

  /** Threads of one warp may interleave reads and writes unless they execute the same instruction. */
  predicate Unordered(was: Cell, t: nat, a: Access) {
    !SameWarp(was.thread, t) || ExtractPc(was) == a.pc
  }

  function By(status: Status, t: nat, a: Access): Cell { Construct(status, t, a.pc, a.space, a.atomic) }

  /** ExtractSamePcStatus: at the same instruction the smaller thread id is kept. */
  function SamePc(status: Status, was: Cell, t: nat, a: Access): Cell {
    if a.pc == ExtractPc(was) && was.thread < t then By(status, was.thread, a) else By(status, t, a)
  }

  function TryLoad(was: Cell, t: nat, a: Access): Attempt {
    var conflict := was.thread != t && ExistRace(was, a.space) && Unordered(was, t, a);
    match was.status
    case DEFAULT => Attempt(By(READ, t, a), {})
    case READ => Attempt(if was.thread == t then By(READ, t, a) else SamePc(GLOBAL_READ, was, t, a), {})
    case GLOBAL_READ => Attempt(SamePc(GLOBAL_READ, was, t, a), {})
    case WRITE =>
      if conflict then Attempt(Construct(RACE, was.thread, ExtractPc(was), a.space, a.atomic), {WriteRead})
      else Attempt(was, {})
    case RACE =>
      if conflict then Attempt(Construct(RACE, was.thread, ExtractPc(was), a.space, a.atomic), {WriteRead})
      else Attempt(By(READ, t, a), {})
  }

  function TryStore(was: Cell, t: nat, a: Access): Attempt {
    var race := ExistRace(was, a.space);
    match was.status
    case DEFAULT => Attempt(By(WRITE, t, a), {})
    case READ =>
      if was.thread != t && race && Unordered(was, t, a) then Attempt(By(RACE, t, a), {ReadWrite})
      else Attempt(By(WRITE, t, a), {})
    case GLOBAL_READ =>
      if race && Unordered(was, t, a) then Attempt(By(RACE, t, a), {ReadWrite})
      else Attempt(By(WRITE, t, a), {})
    case WRITE =>
      if was.thread != t && race then Attempt(SamePc(RACE, was, t, a), {WriteWrite})
      else Attempt(By(WRITE, t, a), {})
    case RACE =>
      if was.thread != t && race then Attempt(SamePc(RACE, was, t, a), {WriteWrite})
      else Attempt(By(WRITE, t, a), {})
  }

  function Try(was: Cell, t: nat, a: Access): Attempt {
    if a.store then TryStore(was, t, a) else TryLoad(was, t, a)
  }

  // ------------------------------------------------------------------ interleaving

  function Reports(was: Cell, t: nat, a: Access, overlap: bool, seen: nat, epoch: nat): seq<Report> {
    var c := Try(was, t, a).conflict;
    (if WriteRead in c then [Race(WriteRead, t, a.store, was.thread, seen, epoch)] else [])
    + (if ReadWrite in c then [Race(ReadWrite, t, a.store, was.thread, seen, epoch)] else [])
    + (if WriteWrite in c then [Race(WriteWrite, t, a.store, was.thread, seen, epoch)] else [])
    + (if WriteWrite in c && !overlap then [Overlap(t, a.store, was.thread, seen, epoch)] else [])
  }

  function DoneBy(t: nat, a: Access, epoch: nat): Done { Done(t, a.store, a.pc, a.atomic, epoch) }

  function Step(s: State, e: Event): State {
    if e.Sync? then s.(cell := s.cell.(raceable := false), epoch := s.epoch + 1)
    else if e.thread >= |s.threads| then s
    else
      var t := e.thread;
      match s.threads[t]
      case Idle =>
        if e.action.Begin? then s.(threads := s.threads[t := Ready(e.action.access, false)]) else s
      case Ready(a, overlap) =>
        var overlap' := overlap || WriteWrite in Try(s.cell, t, a).conflict;
        s.(threads := s.threads[t := Snapped(a, overlap', s.cell)],
           reports := s.reports + Reports(s.cell, t, a, overlap, |s.log|, s.epoch))
      case Snapped(a, overlap, was) =>
        if s.cell == was
        then s.(cell := Try(was, t, a).next, threads := s.threads[t := Idle], log := s.log + [DoneBy(t, a, s.epoch)])
        else s.(threads := s.threads[t := Ready(a, overlap)])
  }

  function Init(threads: nat): State { State(EMPTY, seq(threads, _ => Idle), [], [], 0) }

  function Run(s: State, schedule: seq<Event>): State
    decreases |schedule|
  {
    if schedule == [] then s else Run(Step(s, schedule[0]), schedule[1..])
  }

  /** All accesses are to one address space, to which the byte belongs. */
  ghost predicate InSpace(space: Space, schedule: seq<Event>) { forall e <- schedule :: EventIn(space, e) }

  predicate EventIn(space: Space, e: Event) { e.Event? && e.action.Begin? ==> e.action.access.space == space }

  // ------------------------------------------------------------------ reports are witnessed

  ghost predicate Did(log: seq<Done>, n: nat, t: nat, store: bool) {
    exists i :: 0 <= i < n && i < |log| && log[i].thread == t && log[i].store == store
  }

  /** Among the first `n` completed accesses, some thread other than `t` made one of this kind. */
  ghost predicate OtherDid(log: seq<Done>, n: nat, t: nat, store: bool) {
    exists u :: u != t && Did(log, n, u, store)
  }

  /** An access that can race: not atomic, and made since the last barrier. */
  ghost predicate DidPlain(log: seq<Done>, n: nat, t: nat, store: bool, epoch: nat) {
    exists i :: 0 <= i < n && i < |log| && Plainly(log[i], t, store, epoch)
  }

  predicate Plainly(d: Done, t: nat, store: bool, epoch: nat) {
    d.thread == t && d.store == store && !d.atomic && d.epoch == epoch
  }

  ghost predicate SomePlainLoad(log: seq<Done>, n: nat, epoch: nat) { exists u :: DidPlain(log, n, u, false, epoch) }

  /** The status word tells the truth about the accesses completed so far. */
  ghost predicate Truthful(space: Space, c: Cell, log: seq<Done>, epoch: nat) {
    var n, racy := |log|, c.raceable && !c.atomic;
    && c.thread < MAX_THREADS && (c.status != DEFAULT ==> c.space == space)
    && (c.status == READ ==> Did(log, n, c.thread, false) && (racy ==> DidPlain(log, n, c.thread, false, epoch)))
    && (c.status == GLOBAL_READ ==> Did(log, n, c.thread, false) && (forall t :: OtherDid(log, n, t, false))
                                    && (racy ==> SomePlainLoad(log, n, epoch)))
    && ((c.status == WRITE || c.status == RACE) && racy ==> DidPlain(log, n, c.thread, true, epoch))
  }

  /**
   * What a report proves.  The reporter is in the middle of a load for WriteRead and of a store for the others.
   * Another thread, the one named, had stored non-atomically since the last barrier before the reporter read the
   * word.  For ReadWrite some thread had so loaded, and some other thread than the reporter had loaded at all.
   */
  ghost predicate Witnessed(r: Report, log: seq<Done>) {
    && r.seen <= |log|
    && match r
       case Race(WriteRead, t, store, named, seen, epoch) => !store && named != t && DidPlain(log, seen, named, true, epoch)
       case Race(WriteWrite, t, store, named, seen, epoch) => store && named != t && DidPlain(log, seen, named, true, epoch)
       case Overlap(t, store, named, seen, epoch) => store && named != t && DidPlain(log, seen, named, true, epoch)
       case Race(ReadWrite, t, store, named, seen, epoch) =>
         store && Did(log, seen, named, false) && OtherDid(log, seen, t, false) && SomePlainLoad(log, seen, epoch)
  }

  ghost predicate Sound(space: Space, s: State) {
    && |s.threads| <= MAX_THREADS
    && Truthful(space, s.cell, s.log, s.epoch)
    && (forall t :: 0 <= t < |s.threads| && !s.threads[t].Idle? ==> s.threads[t].access.space == space)
    && (forall r <- s.reports :: Witnessed(r, s.log))
  }

  lemma DidGrows(log: seq<Done>, d: Done, n: nat, t: nat, store: bool)
    requires Did(log, n, t, store)
    ensures Did(log + [d], n, t, store) && Did(log + [d], n + 1, t, store)
  {
    var i :| 0 <= i < n && i < |log| && log[i].thread == t && log[i].store == store;
    assert (log + [d])[i] == log[i];
  }

  lemma DidPlainGrows(log: seq<Done>, d: Done, n: nat, t: nat, store: bool, epoch: nat)
    requires DidPlain(log, n, t, store, epoch)
    ensures DidPlain(log + [d], n, t, store, epoch) && DidPlain(log + [d], n + 1, t, store, epoch)
  {
    var i :| 0 <= i < n && i < |log| && Plainly(log[i], t, store, epoch);
    assert (log + [d])[i] == log[i];
  }

  lemma AllGrow(log: seq<Done>, d: Done, n: nat)
    ensures forall t, store :: Did(log, n, t, store) ==> Did(log + [d], n, t, store) && Did(log + [d], n + 1, t, store)
    ensures forall t, store, epoch :: DidPlain(log, n, t, store, epoch) ==>
              DidPlain(log + [d], n, t, store, epoch) && DidPlain(log + [d], n + 1, t, store, epoch)
  {
    forall t, store | Did(log, n, t, store)
      ensures Did(log + [d], n, t, store) && Did(log + [d], n + 1, t, store)
    {
      DidGrows(log, d, n, t, store);
    }
    forall t, store, epoch | DidPlain(log, n, t, store, epoch)
      ensures DidPlain(log + [d], n, t, store, epoch) && DidPlain(log + [d], n + 1, t, store, epoch)
    {
      DidPlainGrows(log, d, n, t, store, epoch);
    }
  }

  lemma TruthfulGrows(space: Space, c: Cell, log: seq<Done>, d: Done, epoch: nat)
    requires Truthful(space, c, log, epoch)
    ensures Truthful(space, c, log + [d], epoch)
  {
    AllGrow(log, d, |log|);
    if c.status == GLOBAL_READ {
      var log' := log + [d];
      forall t ensures OtherDid(log', |log'|, t, false) {
        assert OtherDid(log, |log|, t, false);
      }
    }
  }

  lemma WitnessedGrows(r: Report, log: seq<Done>, d: Done)
    requires Witnessed(r, log)
    ensures Witnessed(r, log + [d])
  {
    AllGrow(log, d, r.seen);
  }

  /** The new access itself is on record. */
  lemma LastDid(log: seq<Done>, d: Done)
    ensures Did(log + [d], |log| + 1, d.thread, d.store)
    ensures !d.atomic ==> DidPlain(log + [d], |log| + 1, d.thread, d.store, d.epoch)
  {
    assert (log + [d])[|log|] == d;
  }

  lemma LoadTruthful(space: Space, was: Cell, t: nat, a: Access, log: seq<Done>, epoch: nat)
    requires Truthful(space, was, log, epoch) && a.space == space && t < MAX_THREADS && !a.store
    ensures Truthful(space, Try(was, t, a).next, log + [DoneBy(t, a, epoch)], epoch)
  {
    var d := DoneBy(t, a, epoch);
    var log' := log + [d];
    TruthfulGrows(space, was, log, d, epoch);
    LastDid(log, d);
    if was.status == READ && was.thread != t { TwoReaders(log', was.thread, t); }
  }

  lemma TwoReaders(log: seq<Done>, v: nat, w: nat)
    requires Did(log, |log|, v, false) && Did(log, |log|, w, false) && v != w
    ensures forall u :: OtherDid(log, |log|, u, false)
  {
    forall u ensures OtherDid(log, |log|, u, false) {
      if u == w { assert v != u; } else { assert w != u; }
    }
  }

  lemma StoreTruthful(space: Space, was: Cell, t: nat, a: Access, log: seq<Done>, epoch: nat)
    requires Truthful(space, was, log, epoch) && a.space == space && t < MAX_THREADS && a.store
    ensures Truthful(space, Try(was, t, a).next, log + [DoneBy(t, a, epoch)], epoch)
  {
    var d := DoneBy(t, a, epoch);
    TruthfulGrows(space, was, log, d, epoch);
    LastDid(log, d);
  }

  lemma ReportsWitnessed(space: Space, was: Cell, t: nat, a: Access, overlap: bool, log: seq<Done>, epoch: nat)
    requires Truthful(space, was, log, epoch) && a.space == space
    ensures forall r <- Reports(was, t, a, overlap, |log|, epoch) :: Witnessed(r, log)
  {
    if was.status == READ && was.thread != t {
      assert Did(log, |log|, was.thread, false);
      assert OtherDid(log, |log|, t, false);
    }
  }

  lemma SnapSound(space: Space, s: State, t: nat)
    requires Sound(space, s) && t < |s.threads| && s.threads[t].Ready?
    ensures Sound(space, Step(s, Event(t, Advance)))
  {
    var l, s' := s.threads[t], Step(s, Event(t, Advance));
    ReportsWitnessed(space, s.cell, t, l.access, l.overlap, s.log, s.epoch);
    forall r | r in s'.reports ensures Witnessed(r, s'.log) {
      assert r in s.reports || r in Reports(s.cell, t, l.access, l.overlap, |s.log|, s.epoch);
    }
  }

  lemma SwapSound(space: Space, s: State, t: nat)
    requires Sound(space, s) && t < |s.threads| && s.threads[t].Snapped? && s.cell == s.threads[t].was
    ensures Sound(space, Step(s, Event(t, Advance)))
  {
    var a := s.threads[t].access;
    if a.store { StoreTruthful(space, s.cell, t, a, s.log, s.epoch); } else { LoadTruthful(space, s.cell, t, a, s.log, s.epoch); }
    forall r | r in s.reports ensures Witnessed(r, s.log + [DoneBy(t, a, s.epoch)]) {
      WitnessedGrows(r, s.log, DoneBy(t, a, s.epoch));
    }
  }

  lemma StepSound(space: Space, s: State, e: Event)
    requires Sound(space, s) && EventIn(space, e)
    ensures Sound(space, Step(s, e))
  {
    if e.Event? && e.thread < |s.threads| {
      var l := s.threads[e.thread];
      if l.Ready? {
        SnapSound(space, s, e.thread);
        assert Step(s, e) == Step(s, Event(e.thread, Advance));
      } else if l.Snapped? && s.cell == l.was {
        SwapSound(space, s, e.thread);
        assert Step(s, e) == Step(s, Event(e.thread, Advance));
      }
    }
  }

  lemma {:induction false} RunSound(space: Space, s: State, schedule: seq<Event>)
    requires Sound(space, s) && InSpace(space, schedule)
    ensures Sound(space, Run(s, schedule))
    decreases |schedule|
  {
    if schedule != [] {
      assert schedule[0] in schedule;
      StepSound(space, s, schedule[0]);
      assert InSpace(space, schedule[1..]);
      RunSound(space, Step(s, schedule[0]), schedule[1..]);
    }
  }

  /**
   * Every report of every run, barriers and atomic accesses included, even one raised by an attempt whose
   * compare-and-swap then failed, has its witness.
   */
  lemma EveryReportIsARace(space: Space, threads: nat, schedule: seq<Event>, r: Report)
    requires threads <= MAX_THREADS && InSpace(space, schedule)
    requires r in Run(Init(threads), schedule).reports
    ensures Witnessed(r, Run(Init(threads), schedule).log)
  {
    RunSound(space, Init(threads), schedule);
  }
}
