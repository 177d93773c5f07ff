/**
 * The per-byte automaton when only the initialisation check is on.  A load marks an untouched byte as
 * read; a store marks an untouched or read byte as written, and before overwriting a read mark it
 * copies the shadow memory out, so that the read is not lost.  Reading the word, copying it out and
 * the compare-and-swap are separate steps that other threads may interleave with.
 */
module InitAutomaton {
  import opened ByteStatus

  datatype Access = Access(store: bool, pc: nat, space: Space)

  /** `was` is the word read, `copied` what the copy-out saw. */
  datatype Local =
    | Idle
    | Ready(access: Access)
    | CopyOut(access: Access, was: Cell)
    | Swap(access: Access, was: Cell, copied: Cell)

  /** A finished access; `over` is the read mark it replaced and `copied` the word it had copied out. */
  datatype Done = Done(thread: nat, access: Access, over: Cell, copied: Cell)

  datatype State = State(cell: Cell, threads: seq<Local>, log: seq<Done>)

  datatype Action = Begin(access: Access) | Advance
  datatype Event = Event(thread: nat, action: Action)

  predicate Wants(a: Access, status: Status) {
    status == DEFAULT || (a.store && status == READ)
  }

  function Mark(a: Access, t: nat): Cell {
    Construct(if a.store then WRITE else READ, t, a.pc, a.space, false)
  }

  function Step(s: State, e: Event): State {
    if e.thread >= |s.threads| then s
    else
      var t := e.thread;
      match s.threads[t]
      case Idle =>
        if e.action.Begin? then s.(threads := s.threads[t := Ready(e.action.access)]) else s
      case Ready(a) =>
        if !Wants(a, s.cell.status)
        then s.(threads := s.threads[t := Idle], log := s.log + [Done(t, a, EMPTY, EMPTY)])
        else s.(threads := s.threads[t := if s.cell.status == READ then CopyOut(a, s.cell) else Swap(a, s.cell, s.cell)])
      case CopyOut(a, was) => s.(threads := s.threads[t := Swap(a, was, s.cell)])
      case Swap(a, was, copied) =>
        if s.cell == was
        then State(Mark(a, t), s.threads[t := Idle], s.log + [Done(t, a, was, copied)])
        else s.(threads := s.threads[t := Ready(a)])
  }

  function Init(threads: nat): State { State(EMPTY, seq(threads, _ => Idle), []) }

  function Run(s: State, schedule: seq<Event>): State
    decreases |schedule|
  {
    if schedule == [] then s else Run(Step(s, schedule[0]), schedule[1..])
  }

  function Rank(c: Cell): nat {
    match c.status
    case DEFAULT => 0
    case READ => 1
    case GLOBAL_READ => 1
    case WRITE => 2
    case RACE => 2
  }

  /** `c` is `d`, or has since been replaced by something further up. */
  predicate Before(c: Cell, d: Cell) { c == d || Rank(c) < Rank(d) }

  ghost predicate LocalInv(s: State, l: Local) {
    match l
    case Idle => true
    case Ready(_) => true
    case CopyOut(a, was) => a.store && was.status == READ && Before(was, s.cell)
    case Swap(a, was, copied) => Wants(a, was.status) && Before(was, copied) && Before(copied, s.cell)
  }

  ghost predicate Stored(log: seq<Done>) { exists i :: 0 <= i < |log| && log[i].access.store }

  ghost predicate NoStoreBefore(log: seq<Done>, i: nat) { forall k :: 0 <= k < i && k < |log| ==> !log[k].access.store }

  /** The access that left its mark: the first store to finish or, as long as there is none, the first access. */
  ghost predicate Leaves(log: seq<Done>, i: nat) {
    i < |log| && if log[i].access.store then NoStoreBefore(log, i) else i == 0 && !Stored(log)
  }

  /** What the mark of an access says: who made it, where and what it was. */
  ghost function Names(d: Done): Cell {
    Cell(if d.access.store then WRITE else READ, d.thread % MAX_THREADS, d.access.pc % PC_RANGE, d.access.space, false, true)
  }

  /** A store replaced a read mark if and only if it is the first and something was loaded before; and it had copied that load's mark. */
  ghost predicate MarkSaved(log: seq<Done>, i: nat)
    requires i < |log|
  {
    var d := log[i];
    && (d.over.status == READ <==> d.access.store && i > 0 && NoStoreBefore(log, i))
    && (d.over.status == READ ==> d.copied == d.over == Names(log[0]))
  }

  ghost predicate Inv(s: State) {
    && s.cell.status in {DEFAULT, READ, WRITE}
    && (s.cell.status == DEFAULT ==> s.cell == EMPTY)
    && (s.cell.status == DEFAULT <==> s.log == [])
    && (s.cell.status == WRITE <==> Stored(s.log))
    && (forall t :: 0 <= t < |s.threads| ==> LocalInv(s, s.threads[t]))
    && (forall i :: 0 <= i < |s.log| ==> MarkSaved(s.log, i))
    && (forall i: nat :: Leaves(s.log, i) ==> s.cell == Names(s.log[i]))
  }

  lemma StoredGrows(log: seq<Done>, d: Done)
    ensures Stored(log + [d]) <==> Stored(log) || d.access.store
  {
    if Stored(log) {
      var i :| 0 <= i < |log| && log[i].access.store;
      assert (log + [d])[i].access.store;
    }
    if d.access.store { assert (log + [d])[|log|].access.store; }
    if Stored(log + [d]) {
      var i :| 0 <= i < |log + [d]| && (log + [d])[i].access.store;
      assert i < |log| ==> log[i].access.store;
    }
  }

  lemma LogGrows(log: seq<Done>, d: Done, i: nat)
    requires i < |log|
    ensures (log + [d])[i] == log[i] && (log + [d])[0] == log[0]
    ensures NoStoreBefore(log + [d], i) <==> NoStoreBefore(log, i)
    ensures MarkSaved(log + [d], i) <==> MarkSaved(log, i)
    ensures Leaves(log + [d], i) ==> Leaves(log, i) && (d.access.store ==> log[i].access.store)
  {
    StoredGrows(log, d);
    forall k | 0 <= k < |log| ensures (log + [d])[k] == log[k] { }
  }

  lemma LastLeaves(log: seq<Done>, d: Done)
    ensures NoStoreBefore(log + [d], |log|) <==> !Stored(log)
    ensures Leaves(log + [d], |log|) <==> if d.access.store then !Stored(log) else log == []
  {
    StoredGrows(log, d);
    forall k | 0 <= k < |log| ensures (log + [d])[k] == log[k] { }
  }

  /** An access finishes: it left its mark, or had none to leave. */
  lemma FinishKeepsLog(s: State, t: nat, cell: Cell, d: Done)
    requires Inv(s) && d.thread == t
    requires if cell == s.cell then !Wants(d.access, s.cell.status) && d.over == EMPTY
             else Wants(d.access, s.cell.status) && cell == Names(d) && d.over == s.cell && d.copied == s.cell
    ensures var log' := s.log + [d];
            && (forall i :: 0 <= i < |log'| ==> MarkSaved(log', i))
            && (forall i: nat :: Leaves(log', i) ==> cell == Names(log'[i]))
  {
    var log' := s.log + [d];
    assert log'[|s.log|] == d;
    LastLeaves(s.log, d);
    forall i | 0 <= i < |log'| ensures MarkSaved(log', i) {
      if i < |s.log| { LogGrows(s.log, d, i); } else if i > 0 && !Stored(s.log) { FirstLoadLeaves(s.log); }
    }
    forall i: nat | Leaves(log', i) ensures cell == Names(log'[i]) {
      if i < |s.log| { LogGrows(s.log, d, i); }
    }
  }

  lemma FirstLoadLeaves(log: seq<Done>)
    requires log != [] && !Stored(log)
    ensures Leaves(log, 0)
  {
    assert !log[0].access.store;
  }

  lemma FinishedLocals(s: State, e: Event)
    requires Inv(s)
    ensures var s' := Step(s, e);
            && Before(s.cell, s'.cell)
            && forall u :: 0 <= u < |s'.threads| ==> LocalInv(s', s'.threads[u])
  {
    var s' := Step(s, e);
    if e.thread < |s.threads| {
      assert LocalInv(s, s.threads[e.thread]);
      forall u | 0 <= u < |s'.threads| ensures LocalInv(s', s'.threads[u]) {
        assert LocalInv(s, s.threads[u]);
      }
    }
  }

  /** A word climbs: it is never replaced by one of the same rank, so it cannot come back. */
  lemma StepClimbs(s: State, e: Event)
    requires Inv(s)
    ensures Inv(Step(s, e)) && Before(s.cell, Step(s, e).cell)
  {
    var s' := Step(s, e);
    FinishedLocals(s, e);
    if e.thread < |s.threads| {
      assert LocalInv(s, s.threads[e.thread]);
      if |s'.log| > |s.log| {
        var d := s'.log[|s.log|];
        assert s'.log == s.log + [d];
        StoredGrows(s.log, d);
        FinishKeepsLog(s, e.thread, s'.cell, d);
      }
    }
  }

  lemma {:induction false} RunClimbs(s: State, schedule: seq<Event>)
    requires Inv(s)
    ensures Inv(Run(s, schedule)) && Rank(s.cell) <= Rank(Run(s, schedule).cell)
    ensures Before(s.cell, Run(s, schedule).cell)
    decreases |schedule|
  {
    if schedule != [] {
      StepClimbs(s, schedule[0]);
      RunClimbs(Step(s, schedule[0]), schedule[1..]);
    }
  }

  /**
   * Under every interleaving the byte ends as written exactly when some store has finished and as untouched exactly
   * when no access has; its word names the thread, instruction and space of the first store to finish or, without
   * one, of the first load.  The first store behind a load, and no other access, replaced a read mark, and it had
   * copied out that very mark, which is the first load's.
   */
  lemma InitOutcome(threads: nat, schedule: seq<Event>)
    ensures var s := Run(Init(threads), schedule);
            && (s.cell.status == WRITE <==> Stored(s.log))
            && (s.cell.status == DEFAULT <==> s.log == [])
            && s.cell.status in {DEFAULT, READ, WRITE}
            && (s.log != [] ==> exists i: nat :: Leaves(s.log, i))
            && (forall i: nat :: Leaves(s.log, i) ==> s.cell == Names(s.log[i]))
            && (forall i :: 0 <= i < |s.log| ==> MarkSaved(s.log, i))
  {
    RunClimbs(Init(threads), schedule);
    SomeoneLeaves(Run(Init(threads), schedule).log);
  }

  lemma {:induction false} SomeoneLeaves(log: seq<Done>)
    ensures log != [] ==> exists i: nat :: Leaves(log, i)
  {
    if log != [] {
      var init, d := log[..|log| - 1], log[|log| - 1];
      assert log == init + [d];
      StoredGrows(init, d);
      LastLeaves(init, d);
      if init != [] && !Leaves(log, |init|) {
        SomeoneLeaves(init);
        var i: nat :| Leaves(init, i);
        StillLeaves(init, d, i);
      }
    }
  }

  lemma StillLeaves(log: seq<Done>, d: Done, i: nat)
    requires Leaves(log, i) && (d.access.store ==> log[i].access.store)
    ensures Leaves(log + [d], i)
  {
    StoredGrows(log, d);
    LogGrows(log, d, i);
  }

  /** From any point on, the status only climbs DEFAULT < READ < WRITE, and an equal rank means the very same word. */
  lemma StatusOnlyClimbs(threads: nat, prefix: seq<Event>, suffix: seq<Event>)
    ensures var s := Run(Init(threads), prefix);
            Before(s.cell, Run(s, suffix).cell)
  {
    RunClimbs(Init(threads), prefix);
    RunClimbs(Run(Init(threads), prefix), suffix);
  }

  function Alone(s: State, t: nat, n: nat): State
    decreases n
  {
    if n == 0 then s else Alone(Step(s, Event(t, Advance)), t, n - 1)
  }

  lemma {:induction false} IdleStays(s: State, t: nat, n: nat)
    requires t < |s.threads| && s.threads[t].Idle?
    ensures Alone(s, t, n) == s
  {
    if n > 0 {
      assert Step(s, Event(t, Advance)) == s;
      IdleStays(s, t, n - 1);
    }
  }

  /** The access has been logged, and nothing else has happened but what it did to the word. */
  ghost predicate Finished(s: State, r: State, t: nat, a: Access) {
    && |r.threads| == |s.threads| && t < |r.threads| && r.threads[t].Idle?
    && |r.log| == |s.log| + 1 && s.log <= r.log && r.log[|s.log|].thread == t && r.log[|s.log|].access == a
  }

  lemma ReadyFinishes(s: State, t: nat, n: nat)
    requires t < |s.threads| && s.threads[t].Ready? && n >= 3
    ensures Finished(s, Alone(s, t, n), t, s.threads[t].access)
  {
    var e := Event(t, Advance);
    var s1 := Step(s, e);
    var s2 := Step(s1, e);
    var s3 := Step(s2, e);
    assert Alone(s, t, n) == Alone(s1, t, n - 1) == Alone(s2, t, n - 2) == Alone(s3, t, n - 3);
    if s1.threads[t].Idle? {
      IdleStays(s1, t, n - 1);
    } else if s1.threads[t].Swap? {
      IdleStays(s2, t, n - 2);
    } else {
      IdleStays(s3, t, n - 3);
    }
  }

  lemma SwapFinishes(s: State, t: nat, n: nat)
    requires t < |s.threads| && s.threads[t].Swap? && n >= 4
    ensures Finished(s, Alone(s, t, n), t, s.threads[t].access)
  {
    var s1 := Step(s, Event(t, Advance));
    if s1.threads[t].Idle? { IdleStays(s1, t, n - 1); } else { ReadyFinishes(s1, t, n - 1); }
  }

  /** No access is lost: left alone, a thread finishes the access it is at, whatever it had read before. */
  lemma FinishesAlone(s: State, t: nat, n: nat)
    requires t < |s.threads| && !s.threads[t].Idle? && n >= 5
    ensures Finished(s, Alone(s, t, n), t, s.threads[t].access)
  {
    match s.threads[t]
    case Ready(_) => ReadyFinishes(s, t, n);
    case CopyOut(_, _) => SwapFinishes(Step(s, Event(t, Advance)), t, n - 1);
    case Swap(_, _, _) => SwapFinishes(s, t, n);
  }
}
