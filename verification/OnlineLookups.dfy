/**
 * What every schedule of lookups in the online table guarantees: one cell for each address, slots that only move
 * forward, disjoint chunks, exclusive locks and branches that are never taken.
 */
module OnlineLookups {
  import opened OnlineTable

  /**
   * Two lookups, by any threads at any time, return the same status cell exactly when they looked up
   * the same 48-bit address, and otherwise cells without a common byte; and a cell is always a word inside
   * the heap, past the L0 table.
   */
  lemma LookupsAgree(c: Config, threads: nat, schedule: seq<Event>, a: nat, x: nat, b: nat, y: nat)
    requires c.Valid(threads)
    requires var s := Run(c, Init(c, threads), schedule); (KeyOf(a), x) in s.found && (KeyOf(b), y) in s.found
    ensures x == y <==> a % GLOBAL == b % GLOBAL
    ensures a % GLOBAL != b % GLOBAL ==> x + 8 <= y || y + 8 <= x
    ensures c.first <= x && x + 8 <= c.Max()
  {
    ReachableInv(c, threads, schedule);
    CellsMatchKeys(c, Run(c, Init(c, threads), schedule), KeyOf(a), x, KeyOf(b), y);
    KeysMatchAddresses(a, b);
  }

  lemma CellsMatchKeys(c: Config, s: State, k: Key, x: nat, m: Key, y: nat)
    requires Inv(c, s) && (k, x) in s.found && (m, y) in s.found
    ensures x == y <==> k == m
    ensures k != m ==> x + 8 <= y || y + 8 <= x
    ensures c.first <= x && x + 8 <= c.Max()
  {
    assert CellOf(c, s.heap, k, x) && CellOf(c, s.heap, m, y);
  }

  predicate Moves(v: nat, v': nat) { v' == v || (v == 0 && v' == LOCKED) || (v == LOCKED && Settled(v')) }

  /**
   * A slot moves only from zero to locked and from locked to a settled value, whatever step is taken:
   * in particular no status write ever lands on a slot.
   */
  lemma SlotMovesForward(c: Config, s: State, e: Event, k: Slot)
    requires Inv(c, s) && Live(s.heap.alloc, k)
    ensures var h, h' := s.heap, Step(c, s, e).heap;
            && Live(h'.alloc, k)
            && SlotAddr(c, h'.alloc, k) == SlotAddr(c, h.alloc, k)
            && Moves(Value(c, h, k), Value(c, h', k))
  {
    if e.thread < |s.threads| {
      if e.action.Advance? { RoomIfGrabbing(c, s, e.thread); }
      HeapMovesSlot(c, s.heap, s.threads[e.thread], e.action, k);
      HeapOfStep(c, s, e);
    }
  }

  /** What an event of a thread at `pc` does to the heap. */
  function HeapStep(h: Heap, pc: Pc, action: Action): Heap {
    match action
    case Begin(_) => h
    case Advance => HeapAfter(h, pc)
    case WriteStatus(value) => if pc.Found? then h.(mem := h.mem[pc.cell := value]) else h
  }

  lemma HeapOfStep(c: Config, s: State, e: Event)
    requires e.thread < |s.threads|
    ensures Step(c, s, e).heap == HeapStep(s.heap, s.threads[e.thread], e.action)
  {
  }

  lemma RoomIfGrabbing(c: Config, s: State, t: nat)
    requires CursorInv(c, s) && t < |s.threads|
    ensures s.threads[t].Grab? ==> s.heap.current + CHUNK < WORD
  {
    if s.threads[t].Grab? { CursorHasRoom(c, s, t); }
  }

  lemma HeapMovesSlot(c: Config, h: Heap, pc: Pc, action: Action, k: Slot)
    requires HeapInv(c, h) && PcInv(c, h, pc) && Live(h.alloc, k)
    requires action.Advance? && pc.Grab? ==> h.current + CHUNK < WORD
    ensures var h' := HeapStep(h, pc, action);
            && Live(h'.alloc, k)
            && SlotAddr(c, h'.alloc, k) == SlotAddr(c, h.alloc, k)
            && Moves(Value(c, h, k), Value(c, h', k))
  {
    if action.Advance? {
      AccessMovesSlot(c, h, pc, k);
    } else if action.WriteStatus? && pc.Found? {
      WriteMovesNoSlot(c, h, pc, action.value, k);
    }
  }

  lemma WriteMovesNoSlot(c: Config, h: Heap, pc: Pc, v: nat, k: Slot)
    requires HeapInv(c, h) && pc.Found? && PcInv(c, h, pc) && Live(h.alloc, k)
    ensures Value(c, h.(mem := h.mem[pc.cell := v]), k) == Value(c, h, k)
  {
    CellApartFromSlots(c, h, pc.key, pc.cell, k);
  }

  lemma AccessMovesSlot(c: Config, h: Heap, pc: Pc, k: Slot)
    requires HeapInv(c, h) && PcInv(c, h, pc) && (pc.Grab? ==> h.current + CHUNK < WORD) && Live(h.alloc, k)
    ensures var h' := HeapAfter(h, pc);
            && Live(h'.alloc, k)
            && SlotAddr(c, h'.alloc, k) == SlotAddr(c, h.alloc, k)
            && Moves(Value(c, h, k), Value(c, h', k))
  {
    AccessKeepsHeap(c, h, pc);
  }

  /** Once a slot holds an address or the out-of-memory mark, no schedule changes it again. */
  lemma {:induction false} SettledForever(c: Config, s: State, schedule: seq<Event>, k: Slot)
    requires Inv(c, s) && Live(s.heap.alloc, k) && Settled(Value(c, s.heap, k))
    ensures var h' := Run(c, s, schedule).heap; Live(h'.alloc, k) && Value(c, h', k) == Value(c, s.heap, k)
    decreases |schedule|
  {
    if schedule != [] {
      SlotMovesForward(c, s, schedule[0], k);
      StepKeepsInv(c, s, schedule[0]);
      SettledForever(c, Step(c, s, schedule[0]), schedule[1..], k);
    }
  }

  /** Published chunks are disjoint, lie inside the heap after the L0 table, and the cursor never wraps. */
  lemma ChunksDisjointInHeap(c: Config, threads: nat, schedule: seq<Event>, k: Slot, m: Slot)
    requires c.Valid(threads)
    requires var h := Run(c, Init(c, threads), schedule).heap;
             && k != m && Live(h.alloc, k) && Live(h.alloc, m)
             && Settled(Value(c, h, k)) && Value(c, h, k) != UNALLOCATABLE
             && Settled(Value(c, h, m)) && Value(c, h, m) != UNALLOCATABLE
    ensures var h := Run(c, Init(c, threads), schedule).heap;
            var x, y := Value(c, h, k), Value(c, h, m);
            && (x + CHUNK <= y || y + CHUNK <= x)
            && c.first <= x && x + CHUNK <= c.Max()
            && h.current <= c.Max() + threads * CHUNK < WORD
  {
    ReachableInv(c, threads, schedule);
    var s := Run(c, Init(c, threads), schedule);
    SubsetOfThreads(s.overshot, threads);
    assert |s.overshot| * CHUNK <= threads * CHUNK;
  }

  /** The branches for a slot still zero after the lock, a null L1 table or a slot outside the heap are dead. */
  lemma DeadBranches(c: Config, threads: nat, schedule: seq<Event>, t: nat)
    requires c.Valid(threads) && t < threads
    ensures var s := Run(c, Init(c, threads), schedule);
            |s.threads| == threads && (s.threads[t].Failed? ==> !Impossible(s.threads[t].error))
  {
    ReachableInv(c, threads, schedule);
    var s := Run(c, Init(c, threads), schedule);
    assert PcInv(c, s.heap, s.threads[t]);
  }

  /** At most one thread holds a slot's lock, and while it does the slot reads LOCKED. */
  lemma LockIsExclusive(c: Config, threads: nat, schedule: seq<Event>, t: nat, u: nat)
    requires c.Valid(threads) && t < u < threads
    requires var s := Run(c, Init(c, threads), schedule);
             |s.threads| == threads && Owns(s.threads[t]) && Owns(s.threads[u])
    ensures var s := Run(c, Init(c, threads), schedule);
            && s.threads[t].ptr != s.threads[u].ptr
            && Load(s.heap.mem, s.threads[t].ptr) == LOCKED == Load(s.heap.mem, s.threads[u].ptr)
  {
    ReachableInv(c, threads, schedule);
    var s := Run(c, Init(c, threads), schedule);
    var p, q := s.threads[t], s.threads[u];
    assert PcInv(c, s.heap, p) && PcInv(c, s.heap, q) && !SameLock(p, q);
    SlotsApart(c, s.heap, SlotOf(p.level, p.key), SlotOf(q.level, q.key));
  }
}
