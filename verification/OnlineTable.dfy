/**
 * The three-level shadow table that SIMT threads fill lazily and concurrently:
 * every L0/L1 slot is a word of the shared heap, guarded by a compare-and-swap
 * lock, and filled with a chunk taken from a fetch-add bump allocator.
 *
 * Each atomic access to shared memory is one step.  A schedule is an arbitrary
 * sequence of steps of arbitrary threads, and the theorems at the end speak
 * about the state reached by every schedule.
 */
module OnlineTable {

  const WORD: nat := 0x1_0000_0000_0000_0000
  const GLOBAL: nat := 0x1_0000_0000_0000   // ONLINE_GLOBAL_MEM_MASK + 1
  const LOCAL: nat := 0x1_0000_0000         // ONLINE_LOCAL_MEM_MASK + 1
  const SM: nat := 0x1_0000                 // ONLINE_ONE_SM_STAND_FOR_BYTE
  const L0_BLOCK: nat := LOCAL - 1          // an L0 block is the mask itself, not a power of two
  const L0_NUM: nat := 65537                // TableSizes: the source's rounded-up quotients
  const L1_NUM: nat := 65536
  const CHUNK: nat := 524288                // an L1 table and an L2 table both take this many bytes

  const LOCKED: nat := 1
  const UNALLOCATABLE: nat := WORD - 1
  const MAX_SPIN: nat := 2000

  /** The heap as the host prepared it: `first` is the first byte after the preallocated L0 table. */
  datatype Config = Config(start: nat, size: nat, first: nat) {
    function Max(): nat { start + size }

    ghost predicate Valid(threads: nat) {
      && 1 < start
      && start + 8 * L0_NUM <= first <= Max()
      && Max() + threads * CHUNK < WORD - 1
    }
  }

  datatype Level = L0 | L1

  datatype Error =
    | InvalidSlotAddress(level: Level)
    | InvalidL1Start
    | SlotUnallocatable(level: Level)
    | Unallocatable(level: Level)
    | LockedByOthers(level: Level)
    | StillZero(level: Level)

  /** Where a thread stands inside LookUp; every constructor but the last three is one pending access. */
  datatype Pc =
    | Probe(level: Level, key: Key, ptr: nat)
    | TryLock(level: Level, key: Key, ptr: nat)
    | CheckRoom(level: Level, key: Key, ptr: nat)
    | Grab(level: Level, key: Key, ptr: nat)
    | Verify(level: Level, key: Key, ptr: nat, base: nat)
    | Publish(level: Level, key: Key, ptr: nat, value: nat)
    | Spin(level: Level, key: Key, ptr: nat, lock: nat, count: nat)
    | Fetch(level: Level, key: Key, ptr: nat)
    | Found(key: Key, cell: nat)
    | Failed(error: Error)
    | Idle

  /** The three table indices of an address. */
  datatype Key = Key(l0: nat, l1: nat, l2: nat)

  /** A slot named by its place in the table rather than by its address. */
  datatype Slot = S0(i: nat) | S1(i: nat, j: nat)

  /**
   * `mem` is the heap's words (absent words are zero) and `current` the allocator's cursor.  `alloc` is
   * a history that no step reads: the chunk taken for each slot.
   */
  datatype Heap = Heap(mem: map<nat, nat>, current: nat, alloc: map<Slot, nat>)

  /**
   * Two more histories: which threads pushed the cursor past the end of the heap, and the indices and
   * cell of every lookup that succeeded.
   */
  datatype State = State(heap: Heap, threads: seq<Pc>, overshot: set<nat>, found: set<(Key, nat)>)

  datatype Action = Begin(addr: nat) | Advance | WriteStatus(value: nat)
  datatype Event = Event(thread: nat, action: Action)

  function Load(mem: map<nat, nat>, a: nat): nat {
    if a in mem then mem[a] else 0
  }

  function KeyOf(addr: nat): Key {
    Key(addr % GLOBAL / L0_BLOCK, addr % LOCAL / SM, addr % SM)
  }

  // ------------------------------------------------------------------ the program of one thread

  /** Entering LookUpInL0 / LookUpInL1: the slot pointer and its range check. */
  function Enter(c: Config, level: Level, key: Key, base: nat): Pc {
    var ptr := base + 8 * (if level == L0 then key.l0 else key.l1);
    if level == L1 && base == 0 then Failed(InvalidL1Start)
    else if ptr < c.start || c.Max() < ptr then Failed(InvalidSlotAddress(level))
    else Probe(level, key, ptr)
  }

  /** The classification of the word read last, and the way into the next level. */
  function Classify(c: Config, level: Level, key: Key, value: nat): Pc {
    if value == UNALLOCATABLE then Failed(Unallocatable(level))
    else if value == LOCKED then Failed(LockedByOthers(level))
    else if value == 0 then Failed(StillZero(level))
    else if level == L0 then Enter(c, L1, key, value)
    else Found(key, value + 8 * key.l2)
  }

  /** What one access does to the heap. */
  function HeapAfter(h: Heap, pc: Pc): Heap {
    match pc
    case TryLock(_, _, ptr) => if Load(h.mem, ptr) == 0 then h.(mem := h.mem[ptr := LOCKED]) else h
    case Grab(level, key, _) =>
      h.(current := (h.current + CHUNK) % WORD, alloc := h.alloc[SlotOf(level, key) := h.current])
    case Publish(_, _, ptr, value) => h.(mem := h.mem[ptr := value])
    case _ => h
  }

  /** Where the thread stands after the access. */
  function PcAfter(c: Config, h: Heap, pc: Pc): Pc {
    match pc
    case Probe(level, key, ptr) =>
      if Load(h.mem, ptr) == UNALLOCATABLE then Failed(SlotUnallocatable(level)) else TryLock(level, key, ptr)
    case TryLock(level, key, ptr) =>
      var lock := Load(h.mem, ptr);
      if lock == 0 then CheckRoom(level, key, ptr) else Spin(level, key, ptr, lock, 0)
    case CheckRoom(level, key, ptr) =>
      if h.current > c.Max() then Publish(level, key, ptr, UNALLOCATABLE) else Grab(level, key, ptr)
    case Grab(level, key, ptr) => Verify(level, key, ptr, h.current)
    case Verify(level, key, ptr, base) =>
      Publish(level, key, ptr, if h.current > c.Max() then UNALLOCATABLE else base)
    case Publish(level, key, ptr, _) => Fetch(level, key, ptr)
    case Spin(level, key, ptr, lock, count) =>
      if lock == LOCKED && count < MAX_SPIN then Spin(level, key, ptr, Load(h.mem, ptr), count + 1)
      else Fetch(level, key, ptr)
    case Fetch(level, key, ptr) => Classify(c, level, key, Load(h.mem, ptr))
    case _ => pc
  }

  function Advanced(c: Config, s: State, t: nat): State
    requires t < |s.threads|
  {
    var pc := s.threads[t];
    var h', pc' := HeapAfter(s.heap, pc), PcAfter(c, s.heap, pc);
    State(h', s.threads[t := pc'],
          if pc.Grab? && h'.current > c.Max() then s.overshot + {t} else s.overshot,
          if pc'.Found? then s.found + {(pc'.key, pc'.cell)} else s.found)
  }

  /** One event: a lookup starts, a lookup makes its next access, or a cell found earlier is written. */
  function Step(c: Config, s: State, e: Event): State {
    if e.thread >= |s.threads| then s
    else
      var pc := s.threads[e.thread];
      match e.action
      case Begin(addr) =>
        if pc.Idle? || pc.Found? || pc.Failed?
        then s.(threads := s.threads[e.thread := Enter(c, L0, KeyOf(addr), c.start)]) else s
      case Advance => Advanced(c, s, e.thread)
      case WriteStatus(value) =>
        if pc.Found? then s.(heap := s.heap.(mem := s.heap.mem[pc.cell := value])) else s
  }

  function Init(c: Config, threads: nat): State {
    State(Heap(map[], c.first, map[]), seq(threads, _ => Idle), {}, {})
  }

  function Run(c: Config, s: State, schedule: seq<Event>): State
    decreases |schedule|
  {
    if schedule == [] then s else Run(c, Step(c, s, schedule[0]), schedule[1..])
  }

  // ------------------------------------------------------------------ the invariant

  function SlotOf(level: Level, key: Key): Slot {
    if level == L0 then S0(key.l0) else S1(key.l0, key.l1)
  }

  ghost predicate Live(alloc: map<Slot, nat>, k: Slot) {
    match k
    case S0(i) => i < L0_NUM
    case S1(i, j) => i < L0_NUM && j < L1_NUM && S0(i) in alloc
  }

  ghost function SlotAddr(c: Config, alloc: map<Slot, nat>, k: Slot): nat
    requires Live(alloc, k)
  {
    match k
    case S0(i) => c.start + 8 * i
    case S1(i, j) => alloc[S0(i)] + 8 * j
  }

  ghost function Value(c: Config, h: Heap, k: Slot): nat
    requires Live(h.alloc, k)
  {
    Load(h.mem, SlotAddr(c, h.alloc, k))
  }

  /** The slot's word is the address of the chunk allocated for it. */
  ghost predicate Published(c: Config, h: Heap, k: Slot) {
    Live(h.alloc, k) && k in h.alloc && Value(c, h, k) == h.alloc[k]
  }

  predicate Settled(v: nat) { v != 0 && v != LOCKED }

  ghost predicate AllocInv(c: Config, h: Heap) {
    && 1 < c.start
    && c.start + 8 * L0_NUM <= c.first <= h.current
    && (forall k <- h.alloc :: Live(h.alloc, k) && c.first <= h.alloc[k] && h.alloc[k] + CHUNK <= h.current)
    && (forall k <- h.alloc, m <- h.alloc :: k != m ==>
          h.alloc[k] + CHUNK <= h.alloc[m] || h.alloc[m] + CHUNK <= h.alloc[k])
  }

  /** A word a slot may hold: a settled one is the out-of-memory mark or the slot's own chunk, inside the heap. */
  ghost predicate Legal(c: Config, alloc: map<Slot, nat>, k: Slot, v: nat) {
    && (v == 0 ==> k !in alloc)
    && (Settled(v) && v != UNALLOCATABLE ==> k in alloc && v == alloc[k] && v + CHUNK <= c.Max())
  }

  ghost predicate HeapInv(c: Config, h: Heap) {
    && AllocInv(c, h)
    && (forall a: nat :: h.current <= a ==> Load(h.mem, a) == 0)
    && (forall k :: Live(h.alloc, k) ==> Legal(c, h.alloc, k, Value(c, h, k)))
  }

  /** The thread holds the slot's lock. */
  predicate Owns(pc: Pc) { pc.CheckRoom? || pc.Grab? || pc.Verify? || pc.Publish? }

  predicate InLookup(pc: Pc) { Owns(pc) || pc.Probe? || pc.TryLock? || pc.Spin? || pc.Fetch? }

  ghost predicate AtSlot(c: Config, h: Heap, pc: Pc)
    requires InLookup(pc)
  {
    var k := SlotOf(pc.level, pc.key);
    && InTable(pc.key)
    && Live(h.alloc, k)
    && pc.ptr == SlotAddr(c, h.alloc, k)
    && (pc.level == L1 ==> Published(c, h, SlotOf(L0, pc.key)))
    && (Owns(pc) ==> Value(c, h, k) == LOCKED)
    && (pc.CheckRoom? || pc.Grab? ==> k !in h.alloc)
    && (pc.Verify? ==> k in h.alloc && pc.base == h.alloc[k])
    && (pc.Publish? ==> Settled(pc.value) && Legal(c, h.alloc, k, pc.value))
    && (pc.Spin? || pc.Fetch? ==> Value(c, h, k) != 0)
  }

  /** `cell` is the status word with these indices: a fixed offset in the chunk published in its L1 slot. */
  ghost predicate CellOf(c: Config, h: Heap, key: Key, cell: nat) {
    var k := SlotOf(L1, key);
    && InTable(key)
    && Published(c, h, SlotOf(L0, key))
    && Published(c, h, k)
    && h.alloc[k] + CHUNK <= c.Max()
    && cell == h.alloc[k] + 8 * key.l2
  }

  predicate Impossible(e: Error) {
    e.StillZero? || e.InvalidL1Start? || e.InvalidSlotAddress?
  }

  ghost predicate PcInv(c: Config, h: Heap, pc: Pc) {
    && (InLookup(pc) ==> AtSlot(c, h, pc))
    && (pc.Found? ==> CellOf(c, h, pc.key, pc.cell))
    && (pc.Failed? ==> !Impossible(pc.error))
  }

  predicate SameLock(p: Pc, q: Pc) {
    Owns(p) && Owns(q) && SlotOf(p.level, p.key) == SlotOf(q.level, q.key)
  }

  ghost predicate ThreadInv(c: Config, h: Heap, threads: seq<Pc>) {
    && (forall t :: 0 <= t < |threads| ==> PcInv(c, h, threads[t]))
    && (forall t, u :: 0 <= t < u < |threads| ==> !SameLock(threads[t], threads[u]))
  }

  ghost predicate FoundInv(c: Config, h: Heap, found: set<(Key, nat)>) {
    forall p <- found :: CellOf(c, h, p.0, p.1)
  }

  ghost predicate CursorInv(c: Config, s: State) {
    && c.Valid(|s.threads|)
    && (forall t <- s.overshot :: t < |s.threads| && !s.threads[t].Grab?)
    && s.heap.current <= c.Max() + |s.overshot| * CHUNK
    && (s.overshot != {} ==> s.heap.current > c.Max())
  }

  ghost predicate Inv(c: Config, s: State) {
    && HeapInv(c, s.heap)
    && ThreadInv(c, s.heap, s.threads)
    && FoundInv(c, s.heap, s.found)
    && CursorInv(c, s)
  }

  // ------------------------------------------------------------------ addresses

  predicate InTable(key: Key) { key.l0 < L0_NUM && key.l1 < L1_NUM && key.l2 < SM }

  lemma TableSizes()
    ensures L0_NUM == (GLOBAL - 1 + L0_BLOCK - 1) / L0_BLOCK
    ensures L1_NUM == (LOCAL - 1 + SM - 1) / SM
    ensures CHUNK == 8 * L1_NUM == 8 * SM
  {
  }

  lemma IndexBounds(addr: nat)
    ensures InTable(KeyOf(addr))
  {
  }

  lemma SplitByMask(a: nat)
    ensures a % GLOBAL % LOCAL == a % LOCAL
  {
    var q, x := a / GLOBAL, a % GLOBAL;
    var p, y := x / LOCAL, x % LOCAL;
    assert a == LOCAL * (65536 * q + p) + y;
  }

  lemma LowBits(a: nat)
    ensures a % LOCAL % SM == a % SM
  {
    var q, x := a / LOCAL, a % LOCAL;
    var p, y := x / SM, x % SM;
    assert a == SM * (65536 * q + p) + y;
  }

  /** The three indices determine the 48-bit address, although L0 blocks and L1 tables are cut differently. */
  lemma KeysMatchAddresses(a: nat, b: nat)
    ensures KeyOf(a) == KeyOf(b) <==> a % GLOBAL == b % GLOBAL
  {
    SplitByMask(a);
    SplitByMask(b);
    LowBits(a);
    LowBits(b);
    if KeyOf(a) == KeyOf(b) {
      assert a % LOCAL == 0x1_0000 * (a % LOCAL / SM) + a % LOCAL % SM;
      assert b % LOCAL == 0x1_0000 * (b % LOCAL / SM) + b % LOCAL % SM;
      SameBlockSameLow(a % GLOBAL, b % GLOBAL);
    }
  }

  lemma SameBlockSameLow(x: nat, y: nat)
    requires x / L0_BLOCK == y / L0_BLOCK && x % LOCAL == y % LOCAL
    ensures x == y
  {
    assert x == 0x1_0000_0000 * (x / LOCAL) + x % LOCAL;
    assert y == 0x1_0000_0000 * (y / LOCAL) + y % LOCAL;
  }

  lemma SlotsApart(c: Config, h: Heap, k: Slot, m: Slot)
    requires AllocInv(c, h) && Live(h.alloc, k) && Live(h.alloc, m) && k != m
    ensures SlotAddr(c, h.alloc, k) != SlotAddr(c, h.alloc, m)
  {
  }

  lemma SlotBelowCursor(c: Config, h: Heap, k: Slot)
    requires AllocInv(c, h) && Live(h.alloc, k)
    ensures SlotAddr(c, h.alloc, k) < h.current
  {
  }

  lemma CellApartFromSlots(c: Config, h: Heap, key: Key, cell: nat, k: Slot)
    requires AllocInv(c, h) && CellOf(c, h, key, cell) && Live(h.alloc, k)
    ensures cell != SlotAddr(c, h.alloc, k) && cell < h.current
  {
  }

  // ------------------------------------------------------------------ every step keeps the invariant

  /** What every step leaves alone in the heap. */
  ghost predicate Grows(c: Config, h: Heap, h': Heap) {
    && (forall k :: Live(h.alloc, k) ==> Live(h'.alloc, k) && SlotAddr(c, h'.alloc, k) == SlotAddr(c, h.alloc, k))
    && (forall k <- h.alloc :: k in h'.alloc && h'.alloc[k] == h.alloc[k])
    && (forall k :: Published(c, h, k) ==> Published(c, h', k))
  }

  lemma CellsKept(c: Config, h: Heap, h': Heap, key: Key, cell: nat)
    requires Grows(c, h, h') && CellOf(c, h, key, cell)
    ensures CellOf(c, h', key, cell)
  {
    assert Published(c, h, SlotOf(L0, key)) && Published(c, h, SlotOf(L1, key));
  }

  /** A thread is undisturbed by a step of another one that leaves its slot alone, or only fills it. */
  lemma PcKept(c: Config, h: Heap, h': Heap, pc: Pc)
    requires Grows(c, h, h') && PcInv(c, h, pc)
    requires InLookup(pc) ==>
               var k := SlotOf(pc.level, pc.key);
               && (Value(c, h', k) == Value(c, h, k) || (!Owns(pc) && Value(c, h', k) != 0))
               && (k in h'.alloc ==> k in h.alloc || !(pc.CheckRoom? || pc.Grab?))
    ensures PcInv(c, h', pc)
  {
    if pc.Found? {
      CellsKept(c, h, h', pc.key, pc.cell);
    } else if InLookup(pc) {
      var k := SlotOf(pc.level, pc.key);
      assert Live(h'.alloc, k);
      assert pc.level == L1 ==> Published(c, h, SlotOf(L0, pc.key));
    }
  }

  /** Locking or publishing writes one slot word, which no other slot shares. */
  lemma SlotWrite(c: Config, h: Heap, k: Slot, v: nat)
    requires HeapInv(c, h) && Live(h.alloc, k) && !Settled(Value(c, h, k)) && v != 0 && Legal(c, h.alloc, k, v)
    ensures var h' := h.(mem := h.mem[SlotAddr(c, h.alloc, k) := v]);
            && HeapInv(c, h') && Grows(c, h, h')
            && forall m :: Live(h.alloc, m) ==> Value(c, h', m) == if m == k then v else Value(c, h, m)
  {
    var h' := h.(mem := h.mem[SlotAddr(c, h.alloc, k) := v]);
    SlotBelowCursor(c, h, k);
    forall a: nat | h.current <= a ensures Load(h'.mem, a) == 0 { assert Load(h.mem, a) == 0; }
    forall m | Live(h.alloc, m)
      ensures Value(c, h', m) == if m == k then v else Value(c, h, m)
    {
      if m != k { SlotsApart(c, h, k, m); }
    }
  }

  function Grabbed(h: Heap, k: Slot): Heap {
    h.(current := h.current + CHUNK, alloc := h.alloc[k := h.current])
  }

  /** Taking a chunk makes its words live slots; they are all still zero. */
  lemma GrabGrows(c: Config, h: Heap, k: Slot)
    requires HeapInv(c, h) && Live(h.alloc, k) && k !in h.alloc && Value(c, h, k) == LOCKED
    ensures var h' := Grabbed(h, k);
            && Grows(c, h, h')
            && (forall m :: Live(h.alloc, m) ==> Value(c, h', m) == Value(c, h, m))
            && (forall m :: Live(h'.alloc, m) && !Live(h.alloc, m) ==> Value(c, h', m) == 0 && m !in h'.alloc)
  {
    var h' := Grabbed(h, k);
    forall m | Live(h'.alloc, m) && !Live(h.alloc, m)
      ensures Value(c, h', m) == 0 && m !in h'.alloc
    {
      assert m.S1? && S0(m.i) == k;
      assert SlotAddr(c, h'.alloc, m) >= h.current;
    }
  }

  lemma GrabKeepsAlloc(c: Config, h: Heap, k: Slot)
    requires AllocInv(c, h) && Live(h.alloc, k) && k !in h.alloc
    ensures AllocInv(c, Grabbed(h, k))
  {
    var h' := Grabbed(h, k);
    forall m | m in h'.alloc ensures Live(h'.alloc, m) {
      assert Live(h.alloc, m);
    }
  }

  lemma GrabWrite(c: Config, h: Heap, k: Slot)
    requires HeapInv(c, h) && Live(h.alloc, k) && k !in h.alloc && Value(c, h, k) == LOCKED
    ensures var h' := Grabbed(h, k);
            && HeapInv(c, h') && Grows(c, h, h')
            && forall m :: Live(h.alloc, m) ==> Value(c, h', m) == Value(c, h, m)
  {
    GrabGrows(c, h, k);
    GrabKeepsAlloc(c, h, k);
    var h' := Grabbed(h, k);
    forall m | Live(h'.alloc, m) ensures Legal(c, h'.alloc, m, Value(c, h', m)) {
      if Live(h.alloc, m) { assert Legal(c, h.alloc, m, Value(c, h, m)); }
    }
  }

  lemma StatusWrite(c: Config, h: Heap, key: Key, cell: nat, v: nat)
    requires HeapInv(c, h) && CellOf(c, h, key, cell)
    ensures var h' := h.(mem := h.mem[cell := v]);
            && HeapInv(c, h') && Grows(c, h, h')
            && forall m :: Live(h.alloc, m) ==> Value(c, h', m) == Value(c, h, m)
  {
    var h' := h.(mem := h.mem[cell := v]);
    CellApartFromSlots(c, h, key, cell, S0(0));
    forall a: nat | h.current <= a ensures Load(h'.mem, a) == 0 { assert Load(h.mem, a) == 0; }
    forall m | Live(h.alloc, m) ensures Value(c, h', m) == Value(c, h, m) {
      CellApartFromSlots(c, h, key, cell, m);
    }
  }

  /** Only the thread's own slot may change: zero to locked, or locked to the value it publishes. */
  ghost predicate OwnSlotOnly(c: Config, h: Heap, h': Heap, pc: Pc)
    requires Grows(c, h, h')
  {
    && (forall m :: Live(h.alloc, m) && Value(c, h', m) != Value(c, h, m) ==>
          && (pc.TryLock? || pc.Publish?) && m == SlotOf(pc.level, pc.key)
          && (pc.TryLock? ==> Value(c, h, m) == 0 && Value(c, h', m) == LOCKED)
          && (pc.Publish? ==> Value(c, h, m) == LOCKED && Value(c, h', m) == pc.value))
    && (forall m <- h'.alloc :: m in h.alloc || (pc.Grab? && m == SlotOf(pc.level, pc.key)))
  }

  lemma GrabKeepsHeap(c: Config, h: Heap, pc: Pc)
    requires HeapInv(c, h) && pc.Grab? && AtSlot(c, h, pc) && h.current + CHUNK < WORD
    ensures var h' := HeapAfter(h, pc);
            HeapInv(c, h') && Grows(c, h, h') && OwnSlotOnly(c, h, h', pc)
  {
    GrabWrite(c, h, SlotOf(pc.level, pc.key));
    assert HeapAfter(h, pc) == Grabbed(h, SlotOf(pc.level, pc.key));
  }

  lemma WriteKeepsHeap(c: Config, h: Heap, pc: Pc)
    requires HeapInv(c, h) && AllocInv(c, h)
    requires (pc.TryLock? && AtSlot(c, h, pc) && Load(h.mem, pc.ptr) == 0) || (pc.Publish? && AtSlot(c, h, pc))
    ensures var h' := HeapAfter(h, pc);
            HeapInv(c, h') && Grows(c, h, h') && OwnSlotOnly(c, h, h', pc)
  {
    SlotWrite(c, h, SlotOf(pc.level, pc.key), if pc.TryLock? then LOCKED else pc.value);
  }

  /** The access of a thread at `pc` keeps the heap well-formed and touches only the thread's own slot. */
  lemma AccessKeepsHeap(c: Config, h: Heap, pc: Pc)
    requires HeapInv(c, h) && PcInv(c, h, pc) && (pc.Grab? ==> h.current + CHUNK < WORD)
    ensures var h' := HeapAfter(h, pc);
            HeapInv(c, h') && Grows(c, h, h') && OwnSlotOnly(c, h, h', pc)
  {
    if pc.Grab? {
      GrabKeepsHeap(c, h, pc);
    } else if pc.Publish? || (pc.TryLock? && Load(h.mem, pc.ptr) == 0) {
      WriteKeepsHeap(c, h, pc);
    } else {
      assert HeapAfter(h, pc) == h;
    }
  }

  lemma EnterInv(c: Config, h: Heap, level: Level, key: Key, base: nat)
    requires HeapInv(c, h) && InTable(key) && c.first <= c.Max()
    requires level == L0 ==> base == c.start
    requires level == L1 ==> Published(c, h, SlotOf(L0, key)) && base == h.alloc[SlotOf(L0, key)]
                             && base + CHUNK <= c.Max()
    ensures PcInv(c, h, Enter(c, level, key, base)) && Enter(c, level, key, base).Probe?
  {
  }

  /** The last read of a level: nothing but a legal chunk address lets the lookup go on. */
  lemma FetchKeepsPc(c: Config, h: Heap, pc: Pc)
    requires HeapInv(c, h) && pc.Fetch? && AtSlot(c, h, pc) && c.first <= c.Max()
    ensures PcInv(c, h, PcAfter(c, h, pc)) && !Owns(PcAfter(c, h, pc))
  {
    var k := SlotOf(pc.level, pc.key);
    var v := Value(c, h, k);
    assert Legal(c, h.alloc, k, v);
    if Settled(v) && v != UNALLOCATABLE {
      assert Published(c, h, k);
      if pc.level == L0 { EnterInv(c, h, L1, pc.key, v); } else { CellFetched(c, h, pc.key, v); }
    }
  }

  lemma CellFetched(c: Config, h: Heap, key: Key, v: nat)
    requires InTable(key) && Published(c, h, SlotOf(L0, key)) && Published(c, h, SlotOf(L1, key))
    requires v == h.alloc[SlotOf(L1, key)] && v + CHUNK <= c.Max()
    ensures PcInv(c, h, Found(key, v + 8 * key.l2))
  {
  }

  /** An access that leaves the heap alone. */
  lemma ReadKeepsPc(c: Config, h: Heap, pc: Pc)
    requires (pc.Probe? || pc.CheckRoom? || pc.Spin?) && AtSlot(c, h, pc)
    ensures PcInv(c, h, PcAfter(c, h, pc))
  {
  }

  /** The chunk just taken is published if it ends inside the heap. */
  lemma VerifyKeepsPc(c: Config, h: Heap, pc: Pc)
    requires pc.Verify? && AtSlot(c, h, pc) && c.Max() < UNALLOCATABLE
    requires 1 < c.first <= pc.base && pc.base + CHUNK <= h.current
    ensures PcInv(c, h, PcAfter(c, h, pc))
  {
  }

  /** The slot's place in a heap that has grown. */
  lemma PlaceKept(c: Config, h: Heap, h': Heap, pc: Pc)
    requires Grows(c, h, h') && InLookup(pc) && AtSlot(c, h, pc)
    ensures var k := SlotOf(pc.level, pc.key);
            && Live(h'.alloc, k) && SlotAddr(c, h'.alloc, k) == pc.ptr
            && (pc.level == L1 ==> Published(c, h', SlotOf(L0, pc.key)))
  {
    assert Live(h.alloc, SlotOf(pc.level, pc.key));
    if pc.level == L1 { assert Published(c, h, SlotOf(L0, pc.key)); }
  }

  lemma LockKeepsPc(c: Config, h: Heap, h': Heap, pc: Pc)
    requires pc.TryLock? && AtSlot(c, h, pc) && h' == HeapAfter(h, pc) && Grows(c, h, h')
    requires Legal(c, h.alloc, SlotOf(pc.level, pc.key), Load(h.mem, pc.ptr))
    ensures PcInv(c, h', PcAfter(c, h, pc))
  {
    PlaceKept(c, h, h', pc);
  }

  lemma GrabKeepsPc(c: Config, h: Heap, h': Heap, pc: Pc)
    requires pc.Grab? && AtSlot(c, h, pc) && h' == HeapAfter(h, pc) && Grows(c, h, h')
    ensures PcInv(c, h', PcAfter(c, h, pc))
  {
    PlaceKept(c, h, h', pc);
  }

  lemma PublishKeepsPc(c: Config, h: Heap, h': Heap, pc: Pc)
    requires pc.Publish? && AtSlot(c, h, pc) && h' == HeapAfter(h, pc) && Grows(c, h, h')
    ensures PcInv(c, h', PcAfter(c, h, pc))
  {
    PlaceKept(c, h, h', pc);
  }

  /** The other accesses stay on the same slot. */
  lemma StayKeepsPc(c: Config, h: Heap, h': Heap, pc: Pc)
    requires HeapInv(c, h) && InLookup(pc) && !pc.Fetch? && AtSlot(c, h, pc)
    requires h' == HeapAfter(h, pc) && Grows(c, h, h') && c.Max() < UNALLOCATABLE
    ensures PcInv(c, h', PcAfter(c, h, pc))
  {
    match pc
    case TryLock(level, key, _) =>
      assert Legal(c, h.alloc, SlotOf(level, key), Value(c, h, SlotOf(level, key)));
      LockKeepsPc(c, h, h', pc);
    case Grab(_, _, _) => GrabKeepsPc(c, h, h', pc);
    case Publish(_, _, _, _) => PublishKeepsPc(c, h, h', pc);
    case Verify(_, _, _, _) => VerifyKeepsPc(c, h, pc);
    case _ => ReadKeepsPc(c, h, pc);
  }

  /** The same access, seen from the thread itself. */
  lemma AccessKeepsPc(c: Config, h: Heap, pc: Pc)
    requires HeapInv(c, h) && PcInv(c, h, pc) && (pc.Grab? ==> h.current + CHUNK < WORD)
    requires c.first <= c.Max() < UNALLOCATABLE
    ensures PcInv(c, HeapAfter(h, pc), PcAfter(c, h, pc))
  {
    AccessKeepsHeap(c, h, pc);
    if pc.Fetch? {
      FetchKeepsPc(c, h, pc);
    } else if InLookup(pc) {
      StayKeepsPc(c, h, HeapAfter(h, pc), pc);
    }
  }

  lemma LockTransfer(c: Config, h: Heap, pc: Pc)
    ensures var pc' := PcAfter(c, h, pc);
            Owns(pc') ==> && InLookup(pc) && pc'.key == pc.key && pc'.level == pc.level
                          && (Owns(pc) || (pc.TryLock? && Load(h.mem, pc.ptr) == 0))
  {
  }

  /** What a step leaves of another thread's slot: only a slot that thread does not own can change. */
  lemma OtherSlot(c: Config, h: Heap, h': Heap, pc: Pc, q: Pc)
    requires Grows(c, h, h') && OwnSlotOnly(c, h, h', pc) && PcInv(c, h, pc)
    requires InLookup(q) && AtSlot(c, h, q) && !SameLock(pc, q)
    ensures var k := SlotOf(q.level, q.key);
            && Live(h'.alloc, k)
            && (Value(c, h', k) == Value(c, h, k) || (!Owns(q) && Value(c, h', k) != 0))
            && (k in h'.alloc ==> k in h.alloc || !(q.CheckRoom? || q.Grab?))
  {
    var k := SlotOf(q.level, q.key);
    assert Live(h.alloc, k);
  }

  lemma OtherKept(c: Config, h: Heap, h': Heap, pc: Pc, q: Pc)
    requires Grows(c, h, h') && OwnSlotOnly(c, h, h', pc) && PcInv(c, h, pc)
    requires PcInv(c, h, q) && !SameLock(pc, q)
    ensures PcInv(c, h', q)
  {
    if InLookup(q) { OtherSlot(c, h, h', pc, q); }
    PcKept(c, h, h', q);
  }

  /** A lock taken now was free, so nobody else holds it. */
  lemma LocksApart(c: Config, h: Heap, pc: Pc, q: Pc)
    requires PcInv(c, h, pc) && PcInv(c, h, q) && !SameLock(pc, q)
    ensures !SameLock(PcAfter(c, h, pc), q) && !SameLock(q, PcAfter(c, h, pc))
  {
    LockTransfer(c, h, pc);
  }

  lemma ThreadsKept(c: Config, h: Heap, threads: seq<Pc>, t: nat)
    requires HeapInv(c, h) && ThreadInv(c, h, threads) && t < |threads|
    requires (threads[t].Grab? ==> h.current + CHUNK < WORD) && c.first <= c.Max() < UNALLOCATABLE
    ensures ThreadInv(c, HeapAfter(h, threads[t]), threads[t := PcAfter(c, h, threads[t])])
  {
    var pc := threads[t];
    var h', pc' := HeapAfter(h, pc), PcAfter(c, h, pc);
    AccessKeepsHeap(c, h, pc);
    AccessKeepsPc(c, h, pc);
    forall u | 0 <= u < |threads| && u != t
      ensures PcInv(c, h', threads[u]) && !SameLock(pc', threads[u]) && !SameLock(threads[u], pc')
    {
      assert !SameLock(pc, threads[u]) by { assert !SameLock(threads[t], threads[u]) && !SameLock(threads[u], threads[t]); }
      OtherKept(c, h, h', pc, threads[u]);
      LocksApart(c, h, pc, threads[u]);
    }
  }

  lemma CursorHasRoom(c: Config, s: State, t: nat)
    requires CursorInv(c, s) && t < |s.threads| && s.threads[t].Grab?
    ensures t !in s.overshot && s.heap.current + CHUNK < WORD
    ensures s.heap.current + CHUNK <= c.Max() + (|s.overshot| + 1) * CHUNK
  {
    SubsetOfThreads(s.overshot + {t}, |s.threads|);
    assert |s.overshot + {t}| == |s.overshot| + 1;
    assert (|s.overshot| + 1) * CHUNK <= |s.threads| * CHUNK;
  }

  /** The cursor never wraps: each thread can push it past the end at most once. */
  lemma CursorKept(c: Config, s: State, t: nat)
    requires CursorInv(c, s) && t < |s.threads|
    ensures CursorInv(c, Advanced(c, s, t))
  {
    if s.threads[t].Grab? {
      CursorHasRoom(c, s, t);
      assert |s.overshot + {t}| == |s.overshot| + 1;
    }
  }

  lemma {:induction false} SubsetOfThreads(x: set<nat>, n: nat)
    requires forall t <- x :: t < n
    ensures |x| <= n
  {
    if n == 0 {
      assert x == {};
    } else {
      SubsetOfThreads(x - {n - 1}, n - 1);
      assert x <= (x - {n - 1}) + {n - 1};
    }
  }

  lemma AdvanceKeepsInv(c: Config, s: State, t: nat)
    requires Inv(c, s) && t < |s.threads|
    ensures Inv(c, Advanced(c, s, t))
  {
    var pc, s' := s.threads[t], Advanced(c, s, t);
    CursorKept(c, s, t);
    if pc.Grab? { CursorHasRoom(c, s, t); }
    assert PcInv(c, s.heap, pc);
    AccessKeepsHeap(c, s.heap, pc);
    AccessKeepsPc(c, s.heap, pc);
    ThreadsKept(c, s.heap, s.threads, t);
    FoundKept(c, s.heap, s'.heap, s.found, PcAfter(c, s.heap, pc));
  }

  lemma FoundKept(c: Config, h: Heap, h': Heap, found: set<(Key, nat)>, pc: Pc)
    requires FoundInv(c, h, found) && Grows(c, h, h') && PcInv(c, h', pc)
    ensures FoundInv(c, h', found) && (pc.Found? ==> FoundInv(c, h', found + {(pc.key, pc.cell)}))
  {
    forall p | p in found ensures CellOf(c, h', p.0, p.1) {
      CellsKept(c, h, h', p.0, p.1);
    }
  }

  lemma WriteKeepsInv(c: Config, s: State, t: nat, value: nat)
    requires Inv(c, s) && t < |s.threads| && s.threads[t].Found?
    ensures Inv(c, s.(heap := s.heap.(mem := s.heap.mem[s.threads[t].cell := value])))
  {
    var pc := s.threads[t];
    var h' := s.heap.(mem := s.heap.mem[pc.cell := value]);
    assert PcInv(c, s.heap, pc);
    StatusWrite(c, s.heap, pc.key, pc.cell, value);
    forall u | 0 <= u < |s.threads| ensures PcInv(c, h', s.threads[u]) {
      var q := s.threads[u];
      assert PcInv(c, s.heap, q);
      if InLookup(q) { assert Live(s.heap.alloc, SlotOf(q.level, q.key)); }
      PcKept(c, s.heap, h', q);
    }
    forall p | p in s.found ensures CellOf(c, h', p.0, p.1) {
      CellsKept(c, s.heap, h', p.0, p.1);
    }
  }

  lemma BeginKeepsInv(c: Config, s: State, t: nat, addr: nat)
    requires Inv(c, s) && t < |s.threads| && !InLookup(s.threads[t])
    ensures Inv(c, s.(threads := s.threads[t := Enter(c, L0, KeyOf(addr), c.start)]))
  {
    IndexBounds(addr);
    EnterInv(c, s.heap, L0, KeyOf(addr), c.start);
  }

  lemma StepKeepsInv(c: Config, s: State, e: Event)
    requires Inv(c, s)
    ensures Inv(c, Step(c, s, e)) && |Step(c, s, e).threads| == |s.threads|
  {
    if e.thread < |s.threads| {
      var pc := s.threads[e.thread];
      match e.action
      case Begin(addr) => if !InLookup(pc) { BeginKeepsInv(c, s, e.thread, addr); }
      case Advance => AdvanceKeepsInv(c, s, e.thread);
      case WriteStatus(value) => if pc.Found? { WriteKeepsInv(c, s, e.thread, value); }
    }
  }

  lemma {:induction false} RunKeepsInv(c: Config, s: State, schedule: seq<Event>)
    requires Inv(c, s)
    ensures Inv(c, Run(c, s, schedule)) && |Run(c, s, schedule).threads| == |s.threads|
    decreases |schedule|
  {
    if schedule != [] {
      StepKeepsInv(c, s, schedule[0]);
      RunKeepsInv(c, Step(c, s, schedule[0]), schedule[1..]);
    }
  }

  lemma ReachableInv(c: Config, threads: nat, schedule: seq<Event>)
    requires c.Valid(threads)
    ensures Inv(c, Run(c, Init(c, threads), schedule))
    ensures |Run(c, Init(c, threads), schedule).threads| == threads
  {
    var s := Init(c, threads);
    RunKeepsInv(c, s, schedule);
  }
}
