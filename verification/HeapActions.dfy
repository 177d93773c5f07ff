/**
 * Allocation and release of global memory in the runtime scope: the heap block table, the bounds of the
 * accessible memory and the shadow memory are three structures driven by the same two actions, and must
 * keep telling the same story.
 */
module HeapActions {
  import opened Intervals
  import opened GlobalMap
  import opened ShadowMemory
  import Bounds = DiscreteBounds

  const DEFAULT_PERMISSION: bv32 := 3

  // ------------------------------------------------------------------ live blocks

  /** Blocks are named by their address. */
  type Blocks = map<nat, nat>

  ghost predicate InBlock(b: Blocks, k: nat, a: nat) { k in b && k <= a < k + b[k] }

  ghost predicate InSome(b: Blocks, a: nat) { exists k :: InBlock(b, k, a) }

  ghost predicate Disjoint(b: Blocks) {
    && (forall k <- b :: 0 < b[k] && k + b[k] <= GLOBAL_MASK)
    && (forall k <- b, m <- b :: k != m ==> k + b[k] <= m || m + b[m] <= k)
  }

  /** A range a caller may allocate next to the live blocks. */
  ghost predicate Free(b: Blocks, addr: nat, size: nat) {
    && 0 < size && addr + size <= GLOBAL_MASK
    && forall k <- b :: k + b[k] <= addr || addr + size <= k
  }

  ghost function Some(b: Blocks): (k: nat)
    requires b != map[]
    ensures k in b
  {
    var k :| k in b; k
  }

  ghost function Total(b: Blocks): nat
    decreases |b|
  {
    if b == map[] then 0 else b[Some(b)] + Total(b - {Some(b)})
  }

  /** The sum does not depend on the order in which blocks are taken out. */
  lemma {:induction false} TotalWithout(b: Blocks, k: nat)
    requires k in b
    ensures Total(b) == b[k] + Total(b - {k})
    decreases |b|
  {
    var m := Some(b);
    if m != k {
      var x, y := b - {m}, b - {k};
      TotalWithout(x, k);
      TotalWithout(y, m);
      assert x - {k} == y - {m};
    }
  }

  lemma TotalWith(b: Blocks, k: nat, size: nat)
    requires k !in b
    ensures Total(b[k := size]) == Total(b) + size
  {
    var c := b[k := size];
    TotalWithout(c, k);
    assert c - {k} == b;
  }

  // ------------------------------------------------------------------ runs of actions

  datatype Op = Malloc(addr: nat, size: nat) | Release(addr: nat) | Store(addr: nat, size: nat, core: bv8)

  function Apply(b: Blocks, op: Op): Blocks {
    match op
    case Malloc(addr, size) => b[addr := size]
    case Release(addr) => b - {addr}
    case Store(_, _, _) => b
  }

  /** The live blocks after a run. */
  function Live(ops: seq<Op>): Blocks {
    if ops == [] then map[] else Apply(Live(ops[..|ops| - 1]), ops[|ops| - 1])
  }

  /** Every allocation of the run is disjoint from the blocks then live; releases may be anything. */
  ghost predicate Sensible(ops: seq<Op>) {
    forall i :: 0 <= i < |ops| && ops[i].Malloc? ==> Free(Live(ops[..i]), ops[i].addr, ops[i].size)
  }

  function Allocated(ops: seq<Op>): nat {
    if ops == [] then 0
    else Allocated(ops[..|ops| - 1]) + (if ops[|ops| - 1].Malloc? then ops[|ops| - 1].size else 0)
  }

  /** The bytes of the blocks released legally. */
  function Released(ops: seq<Op>): nat {
    if ops == [] then 0
    else
      var before, op := Live(ops[..|ops| - 1]), ops[|ops| - 1];
      Released(ops[..|ops| - 1]) + (if op.Release? && op.addr in before then before[op.addr] else 0)
  }

  /** No store has touched the byte since the run began or since a block with the byte was last released. */
  ghost predicate Clean(ops: seq<Op>, a: nat) {
    ops == [] ||
    var init, op := ops[..|ops| - 1], ops[|ops| - 1];
    match op
    case Malloc(_, _) => Clean(init, a)
    case Release(addr) => Clean(init, a) || Wiped(Live(init), addr, a)
    case Store(addr, size, _) => Clean(init, a) && !(addr <= a < addr + size)
  }

  /** Releasing the block at this address resets the byte. */
  ghost predicate Wiped(b: Blocks, addr: nat, a: nat) { InBlock(b, addr, a) && Reaches(addr, b[addr]) }

  class Runtime {
    var heapBlocks: Blocks
    const bounds: Bounds.DiscreteBounds
    const shadow: ShadowMemory

    ghost predicate Shaped()
      reads this, bounds, shadow, shadow.gm, shadow.gm.Repr
    {
      && shadow.Valid() && bounds.Valid()
      && bounds !in shadow.gm.Repr && this !in shadow.gm.Repr
    }

    ghost predicate Valid()
      reads this, bounds, shadow, shadow.gm, shadow.gm.Repr
    {
      Shaped() && Disjoint(heapBlocks) && BoundsAreLive()
    }

    /** Exactly the bytes of live blocks are accessible, all with the default permission. */
    ghost predicate BoundsAreLive()
      reads this, bounds
    {
      forall a: nat, p :: Bounds.Maps(bounds.ranges, a, p) <==> p == DEFAULT_PERMISSION && InSome(heapBlocks, a)
    }

    constructor ()
      ensures Valid() && heapBlocks == map[]
      ensures fresh(bounds) && fresh(shadow) && fresh(shadow.gm.Repr)
      ensures forall a :: 0 <= a <= GLOBAL_MASK ==> shadow.gm.flat[a] == GM_DEFAULT
    {
      heapBlocks := map[];
      bounds := new Bounds.DiscreteBounds();
      shadow := new ShadowMemory();
    }

    /**
     * AsanMalloc::doAction, for any range.  A block already known under this address is kept as it is, but
     * the new range becomes accessible all the same: bounds and blocks still agree only if live blocks
     * hold all of it.
     */
    method DoMalloc(addr: nat, size: nat) returns (badBytes: nat)
      requires Shaped()
      modifies this, bounds
      ensures Shaped() && badBytes == Bounds.Overflow(addr, size)
      ensures heapBlocks == if addr in old(heapBlocks) then old(heapBlocks) else old(heapBlocks)[addr := size]
      ensures badBytes > 0 ==> bounds.ranges == old(bounds.ranges)
      ensures badBytes == 0 && old(BoundsAreLive()) ==>
                forall a: nat, p :: Bounds.Maps(bounds.ranges, a, p) <==>
                  p == DEFAULT_PERMISSION && (InSome(old(heapBlocks), a) || addr <= a < addr + size)
      ensures badBytes == 0 && old(BoundsAreLive()) && addr in old(heapBlocks) ==>
                (BoundsAreLive() <==> forall a :: addr <= a < addr + size ==> InSome(heapBlocks, a))
      ensures old(Valid()) && Free(old(heapBlocks), addr, size) ==>
                Valid() && badBytes == 0 && addr !in old(heapBlocks)
    {
      ghost var was, before := bounds.ranges, heapBlocks;
      if addr !in heapBlocks {
        heapBlocks := heapBlocks[addr := size];
      }
      badBytes := bounds.Add(addr, size, DEFAULT_PERMISSION);
      if badBytes == 0 && old(BoundsAreLive()) {
        MapsAfterMalloc(was, bounds.ranges, before, addr, size);
        if addr in before {
          AgreeAfter(bounds.ranges, before, addr, size);
        } else if Free(before, addr, size) && Disjoint(before) {
          forall a: nat ensures InSome(heapBlocks, a) <==> InSome(before, a) || addr <= a < addr + size {
            LiveAfterMalloc(before, addr, size, a);
          }
        }
      }
    }

    /** FreeRtDfxBlock, then the bounds and the shadow bytes; an unknown address is reported and changes nothing. */
    method DoFree(addr: nat) returns (illegal: bool)
      requires Valid() && addr <= UINT64_MAX
      modifies this, bounds, shadow.gm.Repr
      ensures Valid() && fresh(shadow.gm.Repr - old(shadow.gm.Repr))
      ensures illegal <==> addr !in old(heapBlocks)
      ensures heapBlocks == old(heapBlocks) - {addr}
      ensures var size := if illegal then 0 else old(heapBlocks)[addr];
              forall a :: 0 <= a <= GLOBAL_MASK ==>
                shadow.gm.flat[a] == if addr <= a < addr + size && Reaches(addr, size) then GM_DEFAULT
                                     else old(shadow.gm.flat[a])
    {
      ghost var before := heapBlocks;
      var size := 0;
      illegal := addr !in heapBlocks;
      if !illegal {
        size := heapBlocks[addr];
      }
      heapBlocks := heapBlocks - {addr};
      var _ := bounds.Remove(addr, size);
      shadow.MakeMemUndefined(addr, size);
      forall a: nat ensures InSome(heapBlocks, a) <==> InSome(before, a) && !(addr <= a < addr + size) {
        LiveAfterFree(before, addr, size, a);
      }
    }

    /**
     * AsanStore::doAction with all checks on: the illegal bytes are those outside every live block, unless no
     * range meets the request and a peer device allows it; the shadow bytes change only inside the request.
     */
    method DoStore(addr: nat, size: nat, core: bv8, remote: bool) returns (illegal: nat, trampled: nat)
      requires Valid() && addr <= UINT64_MAX && size <= UINT64_MAX
      modifies shadow.gm.Repr
      ensures Valid() && fresh(shadow.gm.Repr - old(shadow.gm.Repr)) && heapBlocks == old(heapBlocks)
      ensures size > 0 ==>
                illegal == if remote && !Bounds.MeetsSome(bounds.ranges, addr, size) then 0
                           else |OutsideBlocks(heapBlocks, addr, size)|
      ensures (exists a :: addr <= a < addr + size && InSome(heapBlocks, a)) && addr + size <= UINT64_MAX ==>
                illegal == |OutsideBlocks(heapBlocks, addr, size)|
      ensures var lo, hi := Min(GLOBAL_MASK, addr), Min(GLOBAL_MASK, addr + size);
              var m := Mode(core, shadow.atomicEnabled, true);
              && trampled == |TrampledIn(old(shadow.gm.flat), lo, hi, m)|
              && Outcome(old(shadow.gm.flat), shadow.gm.flat, lo, hi - lo, m)
    {
      illegal := bounds.Check(addr, size, Bounds.WRITE);
      LackingIsOutside(bounds.ranges, heapBlocks, addr, size);
      if illegal > 0 {
        var overlap := bounds.HasOverlap(addr, size);
        if !overlap && remote { illegal := 0; }
      }
      LiveMeets(bounds.ranges, heapBlocks, addr, size);
      trampled := shadow.StoreNBytes(addr, size, core, true, true);
    }

    /** The leak report: every live block exactly once, with its size. */
    method DoLeakCheck() returns (leaks: seq<(nat, nat)>)
      ensures IsReport(leaks, heapBlocks) && Bytes(leaks) == Total(heapBlocks)
    {
      leaks := ListBlocks(heapBlocks);
    }
  }

  /** The loop of the leak check. */
  method ListBlocks(b: Blocks) returns (leaks: seq<(nat, nat)>)
    ensures IsReport(leaks, b) && Bytes(leaks) == Total(b)
  {
    leaks := [];
    var rest := b;
    while rest != map[]
      invariant rest.Keys <= b.Keys && forall k <- rest :: rest[k] == b[k]
      invariant IsReport(leaks, b - rest.Keys)
      invariant Bytes(leaks) + Total(rest) == Total(b)
      decreases |rest|
    {
      var k :| k in rest;
      LeakStep(b, rest, leaks, k);
      leaks := leaks + [(k, rest[k])];
      rest := rest - {k};
    }
    assert b - rest.Keys == b;
  }

  ghost function OutsideBlocks(b: Blocks, addr: nat, size: nat): set<nat> {
    set a | a in Interval(addr, addr + size) && !InSome(b, a)
  }

  /** A live block inside the request is met by some range. */
  lemma LiveMeets(rs: seq<Bounds.Range>, b: Blocks, addr: nat, size: nat)
    requires forall a: nat, p :: Bounds.Maps(rs, a, p) <==> p == DEFAULT_PERMISSION && InSome(b, a)
    ensures (exists a :: addr <= a < addr + size && InSome(b, a)) && addr + size <= UINT64_MAX ==>
              Bounds.MeetsSome(rs, addr, size)
  {
    if a :| addr <= a < addr + size && InSome(b, a) {
      assert Bounds.Maps(rs, a, DEFAULT_PERMISSION);
    }
  }

  lemma LackingIsOutside(rs: seq<Bounds.Range>, b: Blocks, addr: nat, size: nat)
    requires forall a: nat, p :: Bounds.Maps(rs, a, p) <==> p == DEFAULT_PERMISSION && InSome(b, a)
    ensures Bounds.Lacking(rs, addr, size, Bounds.WRITE) == OutsideBlocks(b, addr, size)
  {
    forall a: nat ensures Bounds.Grants(rs, a, Bounds.WRITE) <==> InSome(b, a) {
      if i :| 0 <= i < |rs| && rs[i].Has(a) && Bounds.HasPermission(rs[i].permission, Bounds.WRITE) {
        assert Bounds.Maps(rs, a, rs[i].permission);
      }
      if InSome(b, a) { assert Bounds.Maps(rs, a, DEFAULT_PERMISSION); }
    }
  }

  /** The entries are exactly the blocks, without repetition. */
  ghost predicate IsReport(leaks: seq<(nat, nat)>, b: Blocks) {
    && (forall i :: 0 <= i < |leaks| ==> leaks[i].0 in b && leaks[i].1 == b[leaks[i].0])
    && (forall i, j :: 0 <= i < j < |leaks| ==> leaks[i].0 != leaks[j].0)
    && (forall k <- b :: exists i :: 0 <= i < |leaks| && leaks[i].0 == k)
  }

  function Bytes(leaks: seq<(nat, nat)>): nat {
    if leaks == [] then 0 else Bytes(leaks[..|leaks| - 1]) + leaks[|leaks| - 1].1
  }

  lemma LeakStep(all: Blocks, rest: Blocks, leaks: seq<(nat, nat)>, k: nat)
    requires rest.Keys <= all.Keys && (forall m <- rest :: rest[m] == all[m]) && k in rest
    requires IsReport(leaks, all - rest.Keys)
    ensures IsReport(leaks + [(k, rest[k])], all - (rest - {k}).Keys)
    ensures Bytes(leaks + [(k, rest[k])]) + Total(rest - {k}) == Bytes(leaks) + Total(rest)
  {
    var next := leaks + [(k, rest[k])];
    assert next[..|next| - 1] == leaks;
    TotalWithout(rest, k);
    assert all - (rest - {k}).Keys == (all - rest.Keys)[k := all[k]];
    ReportGrows(leaks, all - rest.Keys, k, all[k]);
  }

  lemma ReportGrows(leaks: seq<(nat, nat)>, b: Blocks, k: nat, size: nat)
    requires IsReport(leaks, b) && k !in b
    ensures IsReport(leaks + [(k, size)], b[k := size])
  {
    var next, c := leaks + [(k, size)], b[k := size];
    forall m | m in c ensures exists i :: 0 <= i < |next| && next[i].0 == m {
      if m == k {
        assert next[|leaks|].0 == k;
      } else {
        var i :| 0 <= i < |leaks| && leaks[i].0 == m;
        assert next[i].0 == m;
      }
    }
  }

  /** What is live is what was allocated minus what was released. */
  lemma {:induction false} LiveBalance(ops: seq<Op>)
    requires Sensible(ops)
    ensures Disjoint(Live(ops)) && Total(Live(ops)) + Released(ops) == Allocated(ops)
  {
    if ops != [] {
      var init, op := ops[..|ops| - 1], ops[|ops| - 1];
      assert forall i :: 0 <= i < |init| ==> ops[..i] == init[..i] && ops[i] == init[i];
      assert Sensible(init);
      LiveBalance(init);
      var b := Live(init);
      match op
      case Malloc(addr, size) =>
        assert Free(b, addr, size);
        TotalWith(b, addr, size);
      case Release(addr) =>
        if addr in b { TotalWithout(b, addr); } else { assert b - {addr} == b; }
      case Store(_, _, _) =>
    }
  }

  /**
   * Any run of allocations disjoint from the live blocks, of arbitrary releases and of stores: the bounds are
   * exactly the live blocks, the leak report is exactly the live blocks, with the balance of bytes, and bytes
   * not stored since they were released are undefined and unowned.
   */
  method Replay(ops: seq<Op>) returns (rt: Runtime, leaks: seq<(nat, nat)>)
    requires Sensible(ops) && forall op <- ops :: op.addr <= UINT64_MAX && (op.Store? ==> op.size <= UINT64_MAX)
    ensures fresh(rt) && rt.Valid() && rt.heapBlocks == Live(ops)
    ensures forall a: nat, p :: Bounds.Maps(rt.bounds.ranges, a, p) <==> p == DEFAULT_PERMISSION && InSome(Live(ops), a)
    ensures IsReport(leaks, Live(ops)) && Bytes(leaks) + Released(ops) == Allocated(ops)
    ensures forall a :: 0 <= a <= GLOBAL_MASK && Clean(ops, a) ==> rt.shadow.gm.flat[a] == GM_DEFAULT
  {
    rt := new Runtime();
    var i := 0;
    while i < |ops|
      invariant 0 <= i <= |ops|
      invariant fresh(rt) && fresh(rt.bounds) && fresh(rt.shadow) && fresh(rt.shadow.gm.Repr)
      invariant rt.Valid() && rt.heapBlocks == Live(ops[..i])
      invariant forall a :: 0 <= a <= GLOBAL_MASK && Clean(ops[..i], a) ==> rt.shadow.gm.flat[a] == GM_DEFAULT
    {
      assert ops[..i + 1][..i] == ops[..i];
      ReplayOne(rt, ops[i], ops[..i]);
      assert ops[..i + 1] == ops[..i] + [ops[i]];
      i := i + 1;
    }
    assert ops[..i] == ops;
    LiveBalance(ops);
    leaks := rt.DoLeakCheck();
  }

  /** A second, larger allocation at a live address keeps the block of sixteen bytes and makes thirty-two accessible. */
  method SecondMalloc() returns (rt: Runtime)
    ensures rt.Shaped() && rt.heapBlocks == map[4096 := 16]
    ensures Bounds.Maps(rt.bounds.ranges, 4096 + 20, DEFAULT_PERMISSION) && !InSome(rt.heapBlocks, 4096 + 20)
  {
    rt := new Runtime();
    var _ := rt.DoMalloc(4096, 16);
    var _ := rt.DoMalloc(4096, 32);
  }

  method ReplayOne(rt: Runtime, op: Op, ghost before: seq<Op>)
    requires rt.Valid() && rt.heapBlocks == Live(before)
    requires op.addr <= UINT64_MAX && (op.Store? ==> op.size <= UINT64_MAX)
    requires op.Malloc? ==> Free(Live(before), op.addr, op.size)
    requires forall a :: 0 <= a <= GLOBAL_MASK && Clean(before, a) ==> rt.shadow.gm.flat[a] == GM_DEFAULT
    modifies rt, rt.bounds, rt.shadow.gm.Repr
    ensures rt.Valid() && fresh(rt.shadow.gm.Repr - old(rt.shadow.gm.Repr)) && rt.heapBlocks == Live(before + [op])
    ensures forall a :: 0 <= a <= GLOBAL_MASK && Clean(before + [op], a) ==> rt.shadow.gm.flat[a] == GM_DEFAULT
  {
    assert (before + [op])[..|before|] == before;
    match op {
      case Malloc(addr, size) => var _ := rt.DoMalloc(addr, size);
      case Release(addr) => var _ := rt.DoFree(addr);
      case Store(addr, size, core) => var _, _ := rt.DoStore(addr, size, core, false);
    }
  }

  lemma MapsAfterMalloc(rs: seq<Bounds.Range>, rs': seq<Bounds.Range>, b: Blocks, addr: nat, size: nat)
    requires forall a: nat, p :: Bounds.Maps(rs, a, p) <==> p == DEFAULT_PERMISSION && InSome(b, a)
    requires forall a: nat, p :: Bounds.Maps(rs', a, p) <==>
               if addr <= a < addr + size then p == DEFAULT_PERMISSION
               else Bounds.Maps(rs, a, p) && !Bounds.Dropped(rs, addr, size, DEFAULT_PERMISSION, a)
    ensures forall a: nat, p :: Bounds.Maps(rs', a, p) <==>
              p == DEFAULT_PERMISSION && (InSome(b, a) || addr <= a < addr + size)
  {
    forall a: nat, p
      ensures Bounds.Maps(rs', a, p) <==> p == DEFAULT_PERMISSION && (InSome(b, a) || addr <= a < addr + size)
    {
      Bounds.UniformNotDropped(rs, addr, size, DEFAULT_PERMISSION, a);
    }
  }

  lemma AgreeAfter(rs: seq<Bounds.Range>, b: Blocks, addr: nat, size: nat)
    requires forall a: nat, p :: Bounds.Maps(rs, a, p) <==>
               p == DEFAULT_PERMISSION && (InSome(b, a) || addr <= a < addr + size)
    ensures (forall a: nat, p :: Bounds.Maps(rs, a, p) <==> p == DEFAULT_PERMISSION && InSome(b, a))
            <==> forall a :: addr <= a < addr + size ==> InSome(b, a)
  {
    if forall a: nat, p :: Bounds.Maps(rs, a, p) <==> p == DEFAULT_PERMISSION && InSome(b, a) {
      forall a | addr <= a < addr + size ensures InSome(b, a) {
        assert Bounds.Maps(rs, a, DEFAULT_PERMISSION);
      }
    }
  }

  lemma LiveAfterMalloc(b: Blocks, addr: nat, size: nat, a: nat)
    requires Free(b, addr, size) && Disjoint(b)
    ensures addr !in b && InSome(b[addr := size], a) <==> InSome(b, a) || addr <= a < addr + size
  {
    var c := b[addr := size];
    if InSome(b, a) {
      var k :| InBlock(b, k, a);
      assert InBlock(c, k, a);
    }
    if addr <= a < addr + size { assert InBlock(c, addr, a); }
    if InSome(c, a) {
      var k :| InBlock(c, k, a);
      assert k == addr || InBlock(b, k, a);
    }
  }

  lemma LiveAfterFree(b: Blocks, addr: nat, size: nat, a: nat)
    requires Disjoint(b) && size == if addr in b then b[addr] else 0
    ensures InSome(b - {addr}, a) <==> InSome(b, a) && !(addr <= a < addr + size)
  {
    var c := b - {addr};
    if InSome(c, a) {
      var k :| InBlock(c, k, a);
      assert InBlock(b, k, a);
    }
    if InSome(b, a) && !(addr <= a < addr + size) {
      var k :| InBlock(b, k, a);
      assert InBlock(c, k, a);
    }
  }
}
