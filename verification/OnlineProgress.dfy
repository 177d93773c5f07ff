/**
 * When a lookup in the online table succeeds.  Over every schedule, the out-of-memory mark appears only after the
 * cursor has passed the end of the heap; and a thread left alone finds its cell exactly when the slots on its path
 * are usable and the heap has room for those still empty.
 */
module OnlineProgress {
  import opened OnlineTable
  import opened OnlineLookups

  // ------------------------------------------------------------------ the mark means an exhausted heap

  /** The thread has met the out-of-memory mark, or is about to leave it. */
  predicate SawMark(pc: Pc) {
    || (pc.Publish? && pc.value == UNALLOCATABLE)
    || (pc.Failed? && (pc.error.Unallocatable? || pc.error.SlotUnallocatable?))
  }

  ghost predicate NoMarks(c: Config, h: Heap) {
    forall k :: Live(h.alloc, k) ==> Value(c, h, k) != UNALLOCATABLE
  }

  /** As long as the cursor is within the heap, no slot carries the mark and no thread has met it. */
  ghost predicate MarksLate(c: Config, s: State) {
    s.heap.current <= c.Max() ==> NoMarks(c, s.heap) && forall t :: 0 <= t < |s.threads| ==> !SawMark(s.threads[t])
  }

  lemma CursorOnlyGrows(c: Config, h: Heap, pc: Pc)
    requires pc.Grab? ==> h.current + CHUNK < WORD
    ensures h.current <= HeapAfter(h, pc).current
  {
  }

  lemma MarkOfAccess(c: Config, h: Heap, pc: Pc)
    requires HeapInv(c, h) && PcInv(c, h, pc) && (pc.Grab? ==> h.current + CHUNK < WORD)
    requires NoMarks(c, h) && !SawMark(pc) && h.current <= c.Max() < UNALLOCATABLE
    ensures !SawMark(PcAfter(c, h, pc))
  {
    if InLookup(pc) {
      var k := SlotOf(pc.level, pc.key);
      assert Live(h.alloc, k) && Load(h.mem, pc.ptr) == Value(c, h, k);
      if pc.Verify? { assert h.alloc[k] + CHUNK <= h.current; }
    }
  }

  lemma NoMarksKept(c: Config, h: Heap, pc: Pc)
    requires HeapInv(c, h) && PcInv(c, h, pc) && (pc.Grab? ==> h.current + CHUNK < WORD)
    requires NoMarks(c, h) && !SawMark(pc)
    ensures NoMarks(c, HeapAfter(h, pc))
  {
    AccessKeepsHeap(c, h, pc);
    var h' := HeapAfter(h, pc);
    forall k | Live(h'.alloc, k) ensures Value(c, h', k) != UNALLOCATABLE {
      if Live(h.alloc, k) {
        assert Value(c, h, k) != UNALLOCATABLE;
      } else {
        NewSlotIsZero(c, h, pc, k);
      }
    }
  }

  /** A slot that an access brings to life is still empty. */
  lemma NewSlotIsZero(c: Config, h: Heap, pc: Pc, k: Slot)
    requires HeapInv(c, h) && PcInv(c, h, pc) && (pc.Grab? ==> h.current + CHUNK < WORD)
    requires Live(HeapAfter(h, pc).alloc, k) && !Live(h.alloc, k)
    ensures Value(c, HeapAfter(h, pc), k) == 0
  {
    GrabGrows(c, h, SlotOf(pc.level, pc.key));
    assert HeapAfter(h, pc) == Grabbed(h, SlotOf(pc.level, pc.key));
  }

  lemma AdvanceMarksLate(c: Config, s: State, t: nat)
    requires Inv(c, s) && MarksLate(c, s) && t < |s.threads|
    ensures MarksLate(c, Advanced(c, s, t))
  {
    var pc := s.threads[t];
    RoomIfGrabbing(c, s, t);
    CursorOnlyGrows(c, s.heap, pc);
    if HeapAfter(s.heap, pc).current <= c.Max() {
      assert PcInv(c, s.heap, pc) && !SawMark(pc);
      NoMarksKept(c, s.heap, pc);
      MarkOfAccess(c, s.heap, pc);
    }
  }

  lemma WriteMarksLate(c: Config, s: State, t: nat, value: nat)
    requires Inv(c, s) && MarksLate(c, s) && t < |s.threads| && s.threads[t].Found?
    ensures MarksLate(c, s.(heap := s.heap.(mem := s.heap.mem[s.threads[t].cell := value])))
  {
    var pc := s.threads[t];
    assert PcInv(c, s.heap, pc);
    forall k | Live(s.heap.alloc, k)
      ensures Value(c, s.heap.(mem := s.heap.mem[pc.cell := value]), k) == Value(c, s.heap, k)
    {
      WriteMovesNoSlot(c, s.heap, pc, value, k);
    }
  }

  lemma StepMarksLate(c: Config, s: State, e: Event)
    requires Inv(c, s) && MarksLate(c, s)
    ensures MarksLate(c, Step(c, s, e))
  {
    if e.thread < |s.threads| {
      match e.action
      case Begin(addr) =>
      case Advance => AdvanceMarksLate(c, s, e.thread);
      case WriteStatus(value) => if s.threads[e.thread].Found? { WriteMarksLate(c, s, e.thread, value); }
    }
  }

  lemma {:induction false} RunMarksLate(c: Config, s: State, schedule: seq<Event>)
    requires Inv(c, s) && MarksLate(c, s)
    ensures MarksLate(c, Run(c, s, schedule))
    decreases |schedule|
  {
    if schedule != [] {
      StepKeepsInv(c, s, schedule[0]);
      StepMarksLate(c, s, schedule[0]);
      RunMarksLate(c, Step(c, s, schedule[0]), schedule[1..]);
    }
  }

  /**
   * Whatever the schedule, as long as the cursor is within the heap no slot is marked, and a lookup can only have
   * failed by waiting too long for a lock.
   */
  lemma FailsOnlyWhenExhausted(c: Config, threads: nat, schedule: seq<Event>)
    requires c.Valid(threads)
    requires Run(c, Init(c, threads), schedule).heap.current <= c.Max()
    ensures var s := Run(c, Init(c, threads), schedule);
            && NoMarks(c, s.heap)
            && forall t :: 0 <= t < |s.threads| && s.threads[t].Failed? ==> s.threads[t].error.LockedByOthers?
  {
    ReachableInv(c, threads, schedule);
    RunMarksLate(c, Init(c, threads), schedule);
    var s := Run(c, Init(c, threads), schedule);
    forall t | 0 <= t < |s.threads| && s.threads[t].Failed? ensures s.threads[t].error.LockedByOthers? {
      assert PcInv(c, s.heap, s.threads[t]) && !SawMark(s.threads[t]);
    }
  }

  // ------------------------------------------------------------------ what a thread left alone needs

  predicate Usable(v: nat) { v != LOCKED && v != UNALLOCATABLE }

  /** Chunks to be taken for a slot with this word. */
  function Cost(v: nat): nat { if v == 0 then 1 else 0 }

  /** The word of the L1 slot; it is zero once the L1 table exists. */
  ghost function NextWord(c: Config, h: Heap, key: Key): nat {
    var k := SlotOf(L1, key);
    if Live(h.alloc, k) then Value(c, h, k) else 0
  }

  /** The level the thread is at will end with a chunk, given room for what it costs. */
  predicate OwnOk(c: Config, current: nat, pc: Pc, v: nat) {
    match pc
    case Probe(_, _, _) => Usable(v)
    case TryLock(_, _, _) => Usable(v)
    case Spin(_, _, _, _, _) => Usable(v)
    case Fetch(_, _, _) => Usable(v)
    case Verify(_, _, _, _) => current <= c.Max()
    case Publish(_, _, _, value) => value != UNALLOCATABLE
    case _ => true
  }

  function OwnCost(pc: Pc, v: nat): nat {
    if pc.Probe? || pc.TryLock? then Cost(v) else if pc.CheckRoom? || pc.Grab? then 1 else 0
  }

  predicate Room(c: Config, current: nat, chunks: nat) { chunks == 0 || current + chunks * CHUNK <= c.Max() }

  /** The thread, left alone, will find its cell. */
  ghost predicate Clear(c: Config, h: Heap, pc: Pc) {
    if InLookup(pc) then ClearAt(c, h, pc, Load(h.mem, pc.ptr)) else pc.Found?
  }

  ghost predicate ClearAt(c: Config, h: Heap, pc: Pc, v: nat)
    requires InLookup(pc)
  {
    var next := NextWord(c, h, pc.key);
    && OwnOk(c, h.current, pc, v)
    && (pc.level == L0 ==> Usable(next))
    && Room(c, h.current, OwnCost(pc, v) + if pc.level == L0 then Cost(next) else 0)
  }

  /** A bound on the accesses still to come. */
  function Rank(pc: Pc): nat {
    (if InLookup(pc) && pc.level == L0 then MAX_SPIN + 5 else 0) +
    match pc
    case Probe(_, _, _) => MAX_SPIN + 4
    case TryLock(_, _, _) => MAX_SPIN + 3
    case CheckRoom(_, _, _) => 5
    case Grab(_, _, _) => 4
    case Verify(_, _, _, _) => 3
    case Publish(_, _, _, _) => 2
    case Spin(_, _, _, lock, count) => 2 + if lock == LOCKED && count < MAX_SPIN then MAX_SPIN - count else 0
    case Fetch(_, _, _) => 1
    case _ => 0
  }

  predicate Ended(pc: Pc) { pc.Found? || pc.Failed? }

  lemma RankFalls(c: Config, h: Heap, pc: Pc)
    requires InLookup(pc)
    ensures var pc' := PcAfter(c, h, pc);
            && Rank(pc') < Rank(pc) && (InLookup(pc') || Ended(pc')) && (!pc'.Failed? ==> pc'.key == pc.key)
  {
  }

  // ------------------------------------------------------------------ each access keeps the verdict

  lemma ReadKeepsClear(c: Config, h: Heap, pc: Pc)
    requires InLookup(pc) && (pc.Probe? || pc.Spin? || pc.CheckRoom?)
    requires pc.Spin? ==> Load(h.mem, pc.ptr) != 0
    ensures Clear(c, h, PcAfter(c, h, pc)) <==> Clear(c, h, pc)
  {
  }

  lemma VerifyKeepsClear(c: Config, h: Heap, pc: Pc)
    requires pc.Verify? && pc.base != UNALLOCATABLE
    ensures Clear(c, h, PcAfter(c, h, pc)) <==> Clear(c, h, pc)
  {
  }

  lemma NextKept(c: Config, h: Heap, pc: Pc)
    requires HeapInv(c, h) && PcInv(c, h, pc) && InLookup(pc) && (pc.Grab? ==> h.current + CHUNK < WORD)
    requires pc.level == L0
    ensures NextWord(c, HeapAfter(h, pc), pc.key) == NextWord(c, h, pc.key)
  {
    AccessKeepsHeap(c, h, pc);
    var k := SlotOf(L1, pc.key);
    if !Live(h.alloc, k) && Live(HeapAfter(h, pc).alloc, k) { NewSlotIsZero(c, h, pc, k); }
  }

  lemma LockKeepsClear(c: Config, h: Heap, pc: Pc)
    requires HeapInv(c, h) && PcInv(c, h, pc) && pc.TryLock?
    ensures Clear(c, HeapAfter(h, pc), PcAfter(c, h, pc)) <==> Clear(c, h, pc)
  {
    if pc.level == L0 { NextKept(c, h, pc); }
  }

  lemma GrabKeepsClear(c: Config, h: Heap, pc: Pc)
    requires HeapInv(c, h) && PcInv(c, h, pc) && pc.Grab? && h.current + CHUNK < WORD
    ensures Clear(c, HeapAfter(h, pc), PcAfter(c, h, pc)) <==> Clear(c, h, pc)
  {
    if pc.level == L0 { NextKept(c, h, pc); }
  }

  lemma PublishKeepsClear(c: Config, h: Heap, pc: Pc)
    requires HeapInv(c, h) && PcInv(c, h, pc) && pc.Publish?
    ensures Clear(c, HeapAfter(h, pc), PcAfter(c, h, pc)) <==> Clear(c, h, pc)
  {
    if pc.level == L0 { NextKept(c, h, pc); }
  }

  lemma FetchKeepsClear(c: Config, h: Heap, pc: Pc)
    requires HeapInv(c, h) && PcInv(c, h, pc) && pc.Fetch? && c.first <= c.Max()
    ensures Clear(c, HeapAfter(h, pc), PcAfter(c, h, pc)) <==> Clear(c, h, pc)
  {
    var k := SlotOf(pc.level, pc.key);
    var v := Value(c, h, k);
    assert Legal(c, h.alloc, k, v) && v == Load(h.mem, pc.ptr);
    if pc.level == L0 && Usable(v) {
      assert Published(c, h, k);
      EnterInv(c, h, L1, pc.key, v);
      assert PcAfter(c, h, pc) == Enter(c, L1, pc.key, v);
    }
  }

  lemma AccessKeepsClear(c: Config, h: Heap, pc: Pc)
    requires HeapInv(c, h) && PcInv(c, h, pc) && InLookup(pc) && (pc.Grab? ==> h.current + CHUNK < WORD)
    requires c.first <= c.Max() < UNALLOCATABLE && (pc.Verify? ==> pc.base < UNALLOCATABLE)
    ensures Clear(c, HeapAfter(h, pc), PcAfter(c, h, pc)) <==> Clear(c, h, pc)
  {
    match pc
    case TryLock(_, _, _) => LockKeepsClear(c, h, pc);
    case Grab(_, _, _) => GrabKeepsClear(c, h, pc);
    case Publish(_, _, _, _) => PublishKeepsClear(c, h, pc);
    case Fetch(_, _, _) => FetchKeepsClear(c, h, pc);
    case Verify(_, _, _, _) => VerifyKeepsClear(c, h, pc);
    case _ => ReadKeepsClear(c, h, pc);
  }

  lemma BaseIsAddress(c: Config, s: State, t: nat)
    requires Inv(c, s) && t < |s.threads| && s.threads[t].Verify?
    ensures s.threads[t].base < UNALLOCATABLE
  {
    var pc := s.threads[t];
    assert PcInv(c, s.heap, pc);
    assert pc.base + CHUNK <= s.heap.current;
    SubsetOfThreads(s.overshot, |s.threads|);
    assert |s.overshot| * CHUNK <= |s.threads| * CHUNK;
  }

  // ------------------------------------------------------------------ a thread left alone

  function Alone(t: nat, n: nat): seq<Event> {
    if n == 0 then [] else [Event(t, Advance)] + Alone(t, n - 1)
  }

  function Access(c: Config, s: State, t: nat): State { if t < |s.threads| then Advanced(c, s, t) else s }

  function Iterate<S>(next: S -> S, s: S, n: nat): S { if n == 0 then s else Iterate(next, next(s), n - 1) }

  lemma {:induction false} AloneIterates(c: Config, s: State, t: nat, n: nat)
    ensures Run(c, s, Alone(t, n)) == Iterate((x: State) => Access(c, x, t), s, n)
    decreases n
  {
    if n > 0 {
      assert Alone(t, n)[1..] == Alone(t, n - 1);
      AloneIterates(c, Access(c, s, t), t, n - 1);
    }
  }

  /** What is pending with a bound that every step lowers is done when the bound is used up, and stays done. */
  lemma {:induction false} EndsDone<S(!new)>(next: S -> S, pending: (S, nat) -> bool, done: S -> bool, s: S, n: nat)
    requires pending(s, n) || done(s)
    requires forall x, k: nat :: pending(x, k) ==> k > 0 && (pending(next(x), k - 1) || done(next(x)))
    requires forall x :: done(x) ==> next(x) == x
    ensures done(Iterate(next, s, n))
    decreases n
  {
    if n > 0 { EndsDone(next, pending, done, next(s), n - 1); }
  }

  /** The thread is inside a lookup for `key` that at most n more accesses will end, with success exactly if `clear`. */
  ghost predicate Pending(c: Config, s: State, t: nat, key: Key, clear: bool, n: nat) {
    && Inv(c, s) && t < |s.threads|
    && var pc := s.threads[t];
       InLookup(pc) && pc.key == key && (Clear(c, s.heap, pc) <==> clear) && n >= Rank(pc)
  }

  /** The lookup is over; it succeeded exactly if `clear`, and then its result is on record. */
  ghost predicate Concluded(s: State, t: nat, key: Key, clear: bool) {
    && t < |s.threads| && Ended(s.threads[t])
    && (s.threads[t].Found? <==> clear)
    && (clear ==> s.threads[t].key == key && (key, s.threads[t].cell) in s.found)
  }

  lemma ConcludedStays(c: Config, s: State, t: nat, key: Key, clear: bool)
    requires Concluded(s, t, key, clear)
    ensures Access(c, s, t) == s
  {
    assert s.threads[t := s.threads[t]] == s.threads;
    if clear { assert s.found + {(key, s.threads[t].cell)} == s.found; }
  }

  lemma OneAccess(c: Config, s: State, t: nat, key: Key, clear: bool, n: nat)
    requires Pending(c, s, t, key, clear, n)
    ensures n > 0
    ensures Pending(c, Access(c, s, t), t, key, clear, n - 1) || Concluded(Access(c, s, t), t, key, clear)
  {
    var s' := Access(c, s, t);
    ClearKept(c, s, t);
    RankFalls(c, s.heap, s.threads[t]);
    AccessAt(c, s, t);
    AdvanceKeepsInv(c, s, t);
    if !InLookup(s'.threads[t]) { NowConcluded(c, s', t, key, clear); }
  }

  lemma AccessAt(c: Config, s: State, t: nat)
    requires t < |s.threads|
    ensures var s' := Access(c, s, t);
            && |s'.threads| == |s.threads| && s'.heap == HeapAfter(s.heap, s.threads[t])
            && s'.threads[t] == PcAfter(c, s.heap, s.threads[t])
            && (s'.threads[t].Found? ==> (s'.threads[t].key, s'.threads[t].cell) in s'.found)
  {
  }

  lemma ClearKept(c: Config, s: State, t: nat)
    requires Inv(c, s) && t < |s.threads| && InLookup(s.threads[t])
    ensures var h, pc := s.heap, s.threads[t]; Clear(c, HeapAfter(h, pc), PcAfter(c, h, pc)) <==> Clear(c, h, pc)
  {
    var pc := s.threads[t];
    assert PcInv(c, s.heap, pc);
    RoomIfGrabbing(c, s, t);
    if pc.Verify? { BaseIsAddress(c, s, t); }
    AccessKeepsClear(c, s.heap, pc);
  }

  lemma NowConcluded(c: Config, s: State, t: nat, key: Key, clear: bool)
    requires t < |s.threads| && Ended(s.threads[t]) && (Clear(c, s.heap, s.threads[t]) <==> clear)
    requires s.threads[t].Found? ==> s.threads[t].key == key && (key, s.threads[t].cell) in s.found
    ensures Concluded(s, t, key, clear)
  {
  }

  /** Left alone inside a lookup, a thread ends it; and it succeeds if and only if its way was clear. */
  lemma AloneVerdict(c: Config, s: State, t: nat, n: nat)
    requires Inv(c, s) && t < |s.threads| && InLookup(s.threads[t]) && n >= Rank(s.threads[t])
    ensures Concluded(Run(c, s, Alone(t, n)), t, s.threads[t].key, Clear(c, s.heap, s.threads[t]))
  {
    PendingEnds(c, s, t, s.threads[t].key, Clear(c, s.heap, s.threads[t]), n);
  }

  lemma PendingEnds(c: Config, s: State, t: nat, key: Key, clear: bool, n: nat)
    requires Pending(c, s, t, key, clear, n)
    ensures Concluded(Run(c, s, Alone(t, n)), t, key, clear)
  {
    var next := (x: State) => Access(c, x, t);
    var pending := (x: State, k: nat) => Pending(c, x, t, key, clear, k);
    var done := (x: State) => Concluded(x, t, key, clear);
    forall x, k: nat | pending(x, k) ensures k > 0 && (pending(next(x), k - 1) || done(next(x))) {
      OneAccess(c, x, t, key, clear, k);
    }
    forall x | done(x) ensures next(x) == x { ConcludedStays(c, x, t, key, clear); }
    EndsDone(next, pending, done, s, n);
    AloneIterates(c, s, t, n);
  }

  // ------------------------------------------------------------------ whole lookups

  /** The accesses a lookup can take at most: two levels, each with a full wait. */
  const LONGEST: nat := 2 * MAX_SPIN + 9

  function LookupAlone(t: nat, addr: nat, n: nat): seq<Event> { [Event(t, Begin(addr))] + Alone(t, n) }

  /** The word of the L0 slot. */
  ghost function FirstWord(c: Config, h: Heap, key: Key): nat { Load(h.mem, c.start + 8 * key.l0) }

  /** Neither slot on the way is locked or marked, and there is a chunk for each that is still empty. */
  ghost predicate WayFree(c: Config, h: Heap, key: Key) {
    var v, w := FirstWord(c, h, key), NextWord(c, h, key);
    Usable(v) && Usable(w) && Room(c, h.current, Cost(v) + Cost(w))
  }

  /**
   * After any schedule, a thread that looks up an address undisturbed ends within LONGEST accesses, and it finds the
   * cell if and only if its way is free.
   */
  lemma LookupSucceedsExactly(c: Config, threads: nat, schedule: seq<Event>, t: nat, addr: nat, n: nat)
    requires c.Valid(threads) && t < threads && n >= LONGEST
    requires var s := Run(c, Init(c, threads), schedule); |s.threads| == threads && !InLookup(s.threads[t])
    ensures var s := Run(c, Init(c, threads), schedule);
            Concluded(Run(c, s, LookupAlone(t, addr, n)), t, KeyOf(addr), WayFree(c, s.heap, KeyOf(addr)))
  {
    ReachableInv(c, threads, schedule);
    FromStart(c, Run(c, Init(c, threads), schedule), t, addr, n);
  }

  lemma FromStart(c: Config, s: State, t: nat, addr: nat, n: nat)
    requires Inv(c, s) && t < |s.threads| && !InLookup(s.threads[t]) && n >= LONGEST
    ensures Concluded(Run(c, s, LookupAlone(t, addr, n)), t, KeyOf(addr), WayFree(c, s.heap, KeyOf(addr)))
  {
    var e, schedule := Event(t, Begin(addr)), LookupAlone(t, addr, n);
    Started(c, s, t, addr);
    assert schedule[0] == e && schedule[1..] == Alone(t, n);
    AloneVerdict(c, Step(c, s, e), t, n);
  }

  lemma Started(c: Config, s: State, t: nat, addr: nat)
    requires Inv(c, s) && t < |s.threads| && !InLookup(s.threads[t])
    ensures var s', key := Step(c, s, Event(t, Begin(addr))), KeyOf(addr);
            && Inv(c, s') && |s'.threads| == |s.threads| && s'.heap == s.heap
            && s'.threads[t] == Probe(L0, key, c.start + 8 * key.l0)
            && (Clear(c, s'.heap, s'.threads[t]) <==> WayFree(c, s.heap, key))
  {
    IndexBounds(addr);
    EnterInv(c, s.heap, L0, KeyOf(addr), c.start);
    StepKeepsInv(c, s, Event(t, Begin(addr)));
  }

  /** The first lookup of all succeeds, for whatever address, if and only if the heap holds two chunks. */
  lemma FirstLookup(c: Config, threads: nat, t: nat, addr: nat, n: nat)
    requires c.Valid(threads) && t < threads && n >= LONGEST
    ensures Concluded(Run(c, Init(c, threads), LookupAlone(t, addr, n)), t, KeyOf(addr), c.first + 2 * CHUNK <= c.Max())
  {
    ReachableInv(c, threads, []);
    FromStart(c, Init(c, threads), t, addr, n);
    assert NextWord(c, Init(c, threads).heap, KeyOf(addr)) == 0;
  }

  // ------------------------------------------------------------------ waiting for a lock

  /** Where a thread's accesses lead when the heaps it meets are these. */
  function Through(c: Config, hs: seq<Heap>, pc: Pc): Pc
    decreases |hs|
  {
    if hs == [] then pc else Through(c, hs[1..], PcAfter(c, hs[0], pc))
  }

  ghost predicate AllLocked(hs: seq<Heap>, ptr: nat) { forall h <- hs :: Load(h.mem, ptr) == LOCKED }

  lemma {:induction false} StillWaiting(c: Config, hs: seq<Heap>, more: seq<Heap>, pc: Pc)
    requires pc.Spin? && pc.lock == LOCKED && AllLocked(hs, pc.ptr) && pc.count + |hs| <= MAX_SPIN
    ensures Through(c, hs + more, pc) == Through(c, more, pc.(count := pc.count + |hs|))
    decreases |hs|
  {
    if hs == [] {
      assert hs + more == more;
    } else {
      assert hs[0] in hs && (hs + more)[1..] == hs[1..] + more;
      StillWaiting(c, hs[1..], more, pc.(count := pc.count + 1));
    }
  }

  /**
   * A thread that finds the slot locked goes on with whatever the owner leaves there, provided the slot has been seen
   * locked at most MAX_SPIN times; after that many further reads it gives up.
   */
  lemma WaitsForOwner(c: Config, hs: seq<Heap>, g: Heap, level: Level, key: Key, ptr: nat)
    requires AllLocked(hs, ptr) && hs != []
    ensures |hs| <= MAX_SPIN && Load(g.mem, ptr) != LOCKED ==>
              Through(c, hs + [g, g, g], TryLock(level, key, ptr)) == Classify(c, level, key, Load(g.mem, ptr))
    ensures |hs| == MAX_SPIN + 3 ==> Through(c, hs, TryLock(level, key, ptr)) == Failed(LockedByOthers(level))
  {
    var waiting := Spin(level, key, ptr, LOCKED, 0);
    assert hs[0] in hs && PcAfter(c, hs[0], TryLock(level, key, ptr)) == waiting;
    if |hs| <= MAX_SPIN && Load(g.mem, ptr) != LOCKED {
      assert (hs + [g, g, g])[1..] == hs[1..] + [g, g, g];
      StillWaiting(c, hs[1..], [g, g, g], waiting);
      TakenUp(c, g, waiting.(count := |hs| - 1));
    } else if |hs| == MAX_SPIN + 3 {
      var x, y := hs[MAX_SPIN + 1], hs[MAX_SPIN + 2];
      assert x in hs && y in hs && hs[1..] == hs[1..MAX_SPIN + 1] + [x, y];
      StillWaiting(c, hs[1..MAX_SPIN + 1], [x, y], waiting);
      GivenUp(c, x, y, waiting.(count := MAX_SPIN));
    }
  }

  lemma TakenUp(c: Config, g: Heap, pc: Pc)
    requires pc.Spin? && pc.lock == LOCKED && pc.count < MAX_SPIN && Load(g.mem, pc.ptr) != LOCKED
    ensures Through(c, [g, g, g], pc) == Classify(c, pc.level, pc.key, Load(g.mem, pc.ptr))
  {
    assert [g, g, g][1..] == [g, g] && [g, g][1..] == [g] && [g][1..] == [];
    var fetch := Fetch(pc.level, pc.key, pc.ptr);
    assert Through(c, [g, g, g], pc) == Through(c, [g, g], PcAfter(c, g, pc)) == Through(c, [g], fetch);
    assert Through(c, [g], fetch) == Through(c, [], PcAfter(c, g, fetch));
  }

  lemma GivenUp(c: Config, x: Heap, y: Heap, pc: Pc)
    requires pc.Spin? && pc.count == MAX_SPIN && Load(y.mem, pc.ptr) == LOCKED
    ensures Through(c, [x, y], pc) == Failed(LockedByOthers(pc.level))
  {
    assert [x, y][1..] == [y] && [y][1..] == [];
    var fetch := Fetch(pc.level, pc.key, pc.ptr);
    assert Through(c, [x, y], pc) == Through(c, [y], fetch) == Through(c, [], PcAfter(c, y, fetch));
  }
}
