/**
 * The three-level shadow map of global memory: first-level blocks of 2^36 - 1 bytes (the local mask, not
 * a power of two), each absent or a two-level map created on first use.
 */
module GlobalMap {
  import opened Intervals
  import opened ShadowWord
  import opened PrimaryMap

  const WIDTH: nat := LOCAL_MASK
  const PM_NUM: nat := 4097

  lemma FirstLevelSize()
    ensures PM_NUM == (GLOBAL_MASK + WIDTH - 1) / WIDTH
  {
  }

  function GlobalMasked(addr: nat): nat { addr % 0x1_0000_0000_0000 }
  function PmIdx(addr: nat): nat { GlobalMasked(addr) / WIDTH }
  function PmOffset(addr: nat): nat { GlobalMasked(addr) % WIDTH }

  /** The rounded-up end of the range survives the 48-bit mask. */
  predicate Reaches(addr: nat, size: nat) { addr + size + WIDTH - 1 <= GLOBAL_MASK }

  /** A flat map with one range overwritten. */
  function Overwritten(v: seq<bv8>, addr: nat, size: nat, bits: bv8): (w: seq<bv8>)
    requires addr + size <= |v|
    ensures |w| == |v|
    ensures forall a :: 0 <= a < |v| ==> w[a] == if addr <= a < addr + size then bits else v[a]
  {
    v[..addr] + seq(size, _ => bits) + v[addr + size..]
  }

  class GmPM {
    /** The block lists inherited from PM: never materialised, all bytes as initialised. */
    const common: PM
    var pmList: seq<PM?>
    const init: bv8
    ghost var Repr: set<object>

    /** The flat map this structure stands for. */
    ghost var flat: seq<bv8>

    ghost predicate Valid()
      reads this, Repr
    {
      && Shape()
      && |flat| == GLOBAL_MASK + 1
      && forall a {:trigger Bits(a)} :: 0 <= a <= GLOBAL_MASK ==> flat[a] == Bits(a)
    }

    ghost predicate Shape()
      reads this, Repr
    {
      && this in Repr && common in Repr && common.Repr() <= Repr && this !in common.Repr()
      && common.AllCommon(init) && common.smNum == 0x10_0000
      && |pmList| == PM_NUM
      && (forall i :: 0 <= i < PM_NUM && pmList[i] != null ==> Owned(i))
      && (forall i, j :: 0 <= i < j < PM_NUM && pmList[i] != null && pmList[j] != null ==>
            pmList[i].Repr() !! pmList[j].Repr())
    }

    ghost predicate Owned(i: nat)
      requires i < |pmList| && pmList[i] != null
      reads this, Repr
    {
      var pm := pmList[i];
      && pm in Repr && pm.Repr() <= Repr && this !in pm.Repr() && common !in pm.Repr()
      && pm.Valid() && pm.smNum == 0x10_0000
    }

    /** The byte at offset `o` of first-level block `i`. */
    ghost function Byte(i: nat, o: nat): bv8
      requires Shape() && i < PM_NUM && o < WIDTH
      reads this, Repr
    {
      if pmList[i] == null then common.commonBits[i] else pmList[i].Bits(o)
    }

    ghost function Bits(addr: nat): bv8
      requires Shape() && addr <= GLOBAL_MASK
      reads this, Repr
    {
      Byte(addr / WIDTH, addr % WIDTH)
    }

    constructor (init: bv8)
      ensures Valid() && fresh(Repr) && this.init == init
      ensures forall a :: 0 <= a <= GLOBAL_MASK ==> flat[a] == init
    {
      this.init := init;
      var pm := new PM(LOCAL_MASK, init);
      common := pm;
      pmList := seq(PM_NUM, _ => null);
      Repr := {this} + pm.Repr();
      flat := seq(GLOBAL_MASK + 1, _ => init);
    }

    method QueryPM(addr: nat) returns (pm: PM?)
      requires Shape()
      ensures pm == pmList[PmIdx(addr)]
    {
      pm := pmList[PmIdx(addr)];
    }

    /** The block's map, created with the initial byte if it does not exist yet. */
    method GetPM(addr: nat) returns (pm: PM)
      requires Shape() && addr <= GLOBAL_MASK
      modifies this
      ensures Shape() && fresh(Repr - old(Repr)) && flat == old(flat)
      ensures pmList == old(pmList)[addr / WIDTH := pm]
      ensures forall j, o :: 0 <= j < PM_NUM && 0 <= o < WIDTH ==> Byte(j, o) == old(Byte(j, o))
    {
      BlockOf(addr);
      var i := PmIdx(addr);
      if pmList[i] == null {
        pm := new PM(LOCAL_MASK, init);
        pmList := pmList[i := pm];
        Repr := Repr + pm.Repr();
      } else {
        pm := pmList[i];
      }
    }

    method GetBits(addr: nat) returns (bits: bv8)
      requires Valid() && addr <= GLOBAL_MASK
      ensures bits == flat[addr]
    {
      assert flat[addr] == Bits(addr);
      var pm := QueryPM(addr);
      if pm == null {
        bits := common.commonBits[PmIdx(addr)];
      } else {
        bits := pm.GetBits(PmOffset(addr));
      }
    }

    /** Overwriting part of an existing first-level block leaves the other blocks alone. */
    method SetOwned(i: nat, off: nat, size: nat, bits: bv8)
      requires Shape() && i < PM_NUM && pmList[i] != null && off + size <= WIDTH
      modifies Repr
      ensures Shape() && fresh(Repr - old(Repr)) && pmList == old(pmList) && flat == old(flat)
      ensures forall o :: 0 <= o < WIDTH ==> Byte(i, o) == if off <= o < off + size then bits else old(Byte(i, o))
      ensures forall j, o :: 0 <= j < PM_NUM && j != i && 0 <= o < WIDTH ==> Byte(j, o) == old(Byte(j, o))
    {
      var pm := pmList[i];
      assert Owned(i);
      assert old(forall j :: 0 <= j < PM_NUM && j != i && pmList[j] != null ==> Owned(j) && pmList[j].Repr() !! pm.Repr());
      pm.Set(off, size, bits);
      Repr := Repr + pm.Repr();
      forall j | 0 <= j < PM_NUM && pmList[j] != null
        ensures Owned(j) && (j != i ==> pmList[j].Repr() == old(pmList[j].Repr()) && pmList[j].Repr() !! pm.Repr())
      {
        if j != i {
          assert old(Owned(j));
        }
      }
    }

    /** One turn of the loop in Set: `size` bytes from `addr`, at this offset of this first-level block. */
    method SetInPm(addr: nat, size: nat, bits: bv8, ghost i: nat, ghost off: nat)
      requires Shape() && addr <= GLOBAL_MASK && addr == i * WIDTH + off && off < WIDTH && off + size <= WIDTH
      modifies Repr
      ensures Shape() && fresh(Repr - old(Repr)) && flat == old(flat)
      ensures forall j, o :: 0 <= j < PM_NUM && 0 <= o < WIDTH ==>
                Byte(j, o) == if j == i && off <= o < off + size then bits else old(Byte(j, o))
    {
      OffsetOf(i, off);
      assert addr / WIDTH == i;
      var pm := GetPM(addr);
      SetOwned(addr / WIDTH, PmOffset(addr), size, bits);
    }

    /** The loop of Set over first-level blocks. */
    method SetBlocks(addr: nat, size: nat, bits: bv8)
      requires Shape() && addr + size <= GLOBAL_MASK
      modifies Repr
      ensures Shape() && fresh(Repr - old(Repr)) && flat == old(flat)
      ensures forall j, o :: 0 <= j < PM_NUM && 0 <= o < WIDTH ==>
                Byte(j, o) == if Reaches(addr, size) && addr <= j * WIDTH + o < addr + size then bits else old(Byte(j, o))
    {
      var i, right := PmIdx(addr), PmIdx(addr + size + WIDTH - 1);
      BlocksToSet(addr, size);
      if i < right { SetEach(addr, size, bits, i, right); }
    }

    /** The turns of the loop, once there are any. */
    method SetEach(addr: nat, size: nat, bits: bv8, first: nat, right: nat)
      requires Shape() && addr + size <= GLOBAL_MASK && first == addr / WIDTH < right
      requires (right - 1) * WIDTH <= addr + size <= right * WIDTH && (0 < size ==> (right - 1) * WIDTH < addr + size)
      modifies Repr
      ensures Shape() && fresh(Repr - old(Repr)) && flat == old(flat)
      ensures forall j, o :: 0 <= j < PM_NUM && 0 <= o < WIDTH ==>
                Byte(j, o) == if addr <= j * WIDTH + o < addr + size then bits else old(Byte(j, o))
    {
      var i, at: nat, left: nat := first, addr, size;
      ghost var off: nat := addr % WIDTH;
      while i < right
        invariant at + left == addr + size && addr <= at && i <= right
        invariant i < right ==> at == i * WIDTH + off && off < WIDTH
        invariant i == right ==> left == 0
        invariant Shape() && fresh(Repr - old(Repr)) && flat == old(flat)
        invariant forall j, o :: 0 <= j < PM_NUM && 0 <= o < WIDTH ==>
                    Byte(j, o) == if addr <= j * WIDTH + o < at then bits else old(Byte(j, o))
      {
        OffsetOf(i, off);
        var pmAddr := PmOffset(at);
        var pmSize := Min(WIDTH - pmAddr, left);
        SetInPm(at, pmSize, bits, i, off);
        left, at, off := left - pmSize, at + pmSize, 0;
        i := i + 1;
      }
    }

    /**
     * Overwrites [addr, addr + size) -- unless the rounded-up end of the range exceeds 48 bits, in which
     * case the masked end block lies before the first one and nothing at all is written.
     */
    method Set(addr: nat, size: nat, bits: bv8)
      requires Valid() && addr + size <= GLOBAL_MASK
      modifies Repr
      ensures Valid() && fresh(Repr - old(Repr))
      ensures flat == if Reaches(addr, size) then Overwritten(old(flat), addr, size, bits) else old(flat)
    {
      SetBlocks(addr, size, bits);
      flat := if Reaches(addr, size) then Overwritten(flat, addr, size, bits) else flat;
      forall a | 0 <= a <= GLOBAL_MASK ensures flat[a] == Bits(a) {
        Split(a);
        assert old(flat)[a] == old(Bits(a));
      }
    }

    /** The run of equal bytes at `addr`, cut at 64 KB blocks, first-level blocks and the end of the range. */
    method UnifiedSizeAfter(base: nat, size: nat, addr: nat) returns (n: nat)
      requires Valid() && base <= addr < base + size && base + size <= GLOBAL_MASK
      ensures 1 <= n <= RunLimit(base, size, addr) <= base + size - addr
      ensures forall a :: addr <= a < addr + n ==> flat[a] == flat[addr]
      ensures n == RunLimit(base, size, addr) || flat[addr + n] != flat[addr]
    {
      var b, m, o := CutToBlock(base, size, addr);
      var p := QueryPM(addr);
      BlockOf(addr);
      var i := PmIdx(addr);
      n := RunInPm(i, p, b, m, o);
      FlatRun(addr, n, i, o);
    }

    /** A run of a block is a run of the flat map. */
    lemma FlatRun(addr: nat, n: nat, i: nat, o: nat)
      requires Valid() && 0 < n && addr + n <= GLOBAL_MASK && i == addr / WIDTH && o == addr % WIDTH && o + n <= WIDTH
      requires forall k :: o <= k < o + n ==> Byte(i, k) == Byte(i, o)
      ensures forall a :: addr <= a < addr + n ==> flat[a] == flat[addr]
      ensures o + n < WIDTH ==> (flat[addr + n] != flat[addr] <==> Byte(i, o + n) != Byte(i, o))
    {
      RunIsFlat(addr, n);
      forall a | addr <= a < addr + n ensures flat[a] == flat[addr] {
        assert flat[a] == Byte(i, o + (a - addr)) && flat[addr] == Byte(i, o + (addr - addr));
      }
    }

    method RunInPm(i: nat, p: PM?, b: nat, size: nat, o: nat) returns (n: nat)
      requires Shape() && i < PM_NUM && p == pmList[i] && b <= o < b + size <= WIDTH
      ensures 1 <= n <= Min(b + size - o, SM_SIZE - o % SM_SIZE)
      ensures forall k :: o <= k < o + n ==> Byte(i, k) == Byte(i, o)
      ensures n == Min(b + size - o, SM_SIZE - o % SM_SIZE) || Byte(i, o + n) != Byte(i, o)
    {
      if p == null {
        n := common.UnifiedSizeAfter(b, size, o);
        CommonRun(o, n);
      } else {
        assert Owned(i);
        n := p.UnifiedSizeAfter(b, size, o);
        assert forall k :: o <= k <= o + n && k < WIDTH ==> Byte(i, k) == p.Bits(k);
      }
    }

    lemma CommonRun(o: nat, n: nat)
      requires Shape() && o + n <= WIDTH
      ensures forall k :: o <= k <= o + n && k < WIDTH ==> common.Bits(k) == init
    {
    }

    lemma RunIsFlat(addr: nat, n: nat)
      requires Valid() && 0 < n && addr + n <= GLOBAL_MASK && addr % WIDTH + n <= WIDTH
      ensures forall a :: addr <= a < addr + n ==> flat[a] == Byte(addr / WIDTH, addr % WIDTH + (a - addr))
      ensures addr % WIDTH + n < WIDTH ==> flat[addr + n] == Byte(addr / WIDTH, addr % WIDTH + n)
    {
      RunBits(addr, n);
      assert forall a :: addr <= a < addr + n ==> flat[a] == Bits(a);
      assert flat[addr + n] == Bits(addr + n);
    }

    lemma RunBits(addr: nat, n: nat)
      requires Shape() && addr + n <= GLOBAL_MASK && addr % WIDTH + n <= WIDTH
      ensures forall a :: addr <= a < addr + n ==> Bits(a) == Byte(addr / WIDTH, addr % WIDTH + (a - addr))
      ensures addr % WIDTH + n < WIDTH ==> Bits(addr + n) == Byte(addr / WIDTH, addr % WIDTH + n)
    {
      SegmentBits(addr / WIDTH, addr % WIDTH, n);
      if addr % WIDTH + n < WIDTH { SegmentBits(addr / WIDTH, addr % WIDTH, n + 1); }
    }

    /** A byte the scan of [addr, addr + size) looks at: its first-level block is absent, or the part of the
        range inside the block ends at least 64 KB before the end of the local address range. */
    ghost predicate Scanned(addr: nat, size: nat, a: nat)
      requires |pmList| == PM_NUM && addr <= a < addr + size <= GLOBAL_MASK
      reads this
    {
      var i := a / WIDTH;
      pmList[i] == null || Min(addr + size - i * WIDTH, WIDTH) + SM_SIZE - 1 <= LOCAL_MASK
    }

    method RangeHasStatus(addr: nat, size: nat, status: bv8) returns (r: bool)
      requires Valid() && addr + size <= GLOBAL_MASK && status <= 3
      ensures r <==> Reaches(addr, size)
                     && exists a :: addr <= a < addr + size && HasStatus(flat[a], status) && Scanned(addr, size, a)
    {
      if size == 0 { return false; }
      var i, right := PmIdx(addr), PmIdx(addr + size + WIDTH - 1);
      BlocksToSet(addr, size);
      var off: nat, left: nat := PmOffset(addr), size;
      while i < right
        invariant left <= size
        invariant Reaches(addr, size) ==> i <= right && (i < right ==> 0 < left) && (i == right ==> left == 0)
        invariant i < right ==> off < WIDTH && i * WIDTH + off == addr + (size - left)
        invariant !Reaches(addr, size) ==> right <= i
        invariant forall a :: addr <= a < addr + (size - left) && Scanned(addr, size, a) ==> !HasStatus(flat[a], status)
      {
        var len := Min(left, WIDTH - off);
        r := ScanSegment(addr, size, i, off, len, status);
        if r { return; }
        left := left - len;
        off := 0;
        if left == 0 { break; }
        i := i + 1;
      }
      r := false;
    }

    /** One turn of the loop: the part of the range inside first-level block `i`. */
    method ScanSegment(addr: nat, size: nat, i: nat, off: nat, len: nat, status: bv8) returns (r: bool)
      requires Valid() && addr + size <= GLOBAL_MASK && status <= 3
      requires 0 < len && addr <= i * WIDTH + off && i * WIDTH + off + len <= addr + size && off < WIDTH
      requires off + len == Min(addr + size - i * WIDTH, WIDTH)
      ensures r ==> exists a :: addr <= a < addr + size && HasStatus(flat[a], status) && Scanned(addr, size, a)
      ensures !r ==> forall a :: i * WIDTH + off <= a < i * WIDTH + off + len && Scanned(addr, size, a) ==>
                       !HasStatus(flat[a], status)
    {
      SegmentBits(i, off, len);
      assert forall a :: i * WIDTH + off <= a < i * WIDTH + off + len ==> flat[a] == Bits(a);
      r := SegmentHasStatus(i, off, len, status);
      if r {
        ghost var o :| off <= o < off + len && HasStatus(Byte(i, o), status);
        assert HasStatus(flat[i * WIDTH + o], status) && Scanned(addr, size, i * WIDTH + o);
      } else {
        forall a | i * WIDTH + off <= a < i * WIDTH + off + len && Scanned(addr, size, a)
          ensures !HasStatus(flat[a], status)
        {
          assert flat[a] == Byte(i, a - i * WIDTH);
        }
      }
    }

    method SegmentHasStatus(i: nat, off: nat, len: nat, status: bv8) returns (r: bool)
      requires Shape() && i < PM_NUM && off + len <= WIDTH && 0 < len && status <= 3
      ensures r <==> (pmList[i] == null || off + len + SM_SIZE - 1 <= LOCAL_MASK)
                     && exists o :: off <= o < off + len && HasStatus(Byte(i, o), status)
    {
      var pm := pmList[i];
      if pm == null {
        r := HasStatus(common.commonBits[i], status);
        assert Byte(i, off) == common.commonBits[i];
      } else {
        assert Owned(i);
        r := pm.RangeHasStatus(off, len, status);
        if r {
          ghost var o :| off <= o < off + len && HasStatus(pm.Bits(o), status);
          assert HasStatus(Byte(i, o), status);
        } else {
          assert forall o :: off <= o < off + len ==> Byte(i, o) == pm.Bits(o);
        }
      }
    }

    /** A byte that has changed lies in a materialised first-level block. */
    lemma Materialised(a: nat)
      requires Valid() && a <= GLOBAL_MASK && flat[a] != init
      ensures pmList[a / WIDTH] != null
    {
      assert flat[a] == Bits(a);
    }

    lemma SegmentBits(i: nat, off: nat, len: nat)
      requires Shape() && off + len <= WIDTH && i * WIDTH + off + len <= GLOBAL_MASK + 1
      ensures forall a :: i * WIDTH + off <= a < i * WIDTH + off + len ==>
                a / WIDTH == i && a % WIDTH == a - i * WIDTH && Bits(a) == Byte(i, a - i * WIDTH)
    {
    }
  }

  lemma Split(a: nat)
    requires a <= GLOBAL_MASK
    ensures a / WIDTH < PM_NUM && a % WIDTH < WIDTH && a / WIDTH * WIDTH + a % WIDTH == a
  {
  }

  /** How far a run starting at `addr` may extend. */
  function RunLimit(base: nat, size: nat, addr: nat): int
    requires base <= addr < base + size
  {
    Min(Min(base + size, (addr / WIDTH + 1) * WIDTH) - addr, SM_SIZE - addr % WIDTH % SM_SIZE)
  }

  /** A 64 KB block of some first-level block starts here. */
  predicate Boundary(e: nat) { e % WIDTH % SM_SIZE == 0 }

  /** A run within its limit crosses no boundary, and one that uses it up ends at one or at the end of the range. */
  lemma RunCrossesNothing(base: nat, size: nat, addr: nat, n: nat)
    requires base <= addr < base + size && 1 <= n <= RunLimit(base, size, addr)
    ensures forall e :: addr < e < addr + n ==> !Boundary(e) && e < base + size
    ensures n == RunLimit(base, size, addr) ==> addr + n == base + size || Boundary(addr + n)
  {
    var q, o := addr / WIDTH, addr % WIDTH;
    forall e | addr < e < addr + n ensures !Boundary(e) {
      OffsetOf(q, o + (e - addr));
      InsideBlock(o, e - addr);
    }
    if n == RunLimit(base, size, addr) && addr + n != base + size { LimitAtBoundary(q, o, n); }
  }

  lemma LimitAtBoundary(q: nat, o: nat, n: nat)
    requires o < WIDTH && o + n <= WIDTH && (o + n == WIDTH || n == SM_SIZE - o % SM_SIZE)
    ensures Boundary(q * WIDTH + o + n)
  {
    if o + n == WIDTH {
      OffsetOf(q + 1, 0);
    } else {
      OffsetOf(q, o + n);
      BlockEnd(o);
    }
  }

  lemma InsideBlock(o: nat, k: nat)
    requires 0 < k < SM_SIZE - o % SM_SIZE
    ensures (o + k) % SM_SIZE != 0
  {
    assert o + k == o / SM_SIZE * SM_SIZE + (o % SM_SIZE + k);
  }

  lemma BlockEnd(o: nat)
    ensures (o + (SM_SIZE - o % SM_SIZE)) % SM_SIZE == 0
  {
    assert o + (SM_SIZE - o % SM_SIZE) == (o / SM_SIZE + 1) * SM_SIZE;
  }

  /** No byte is further than 64 KB from the next boundary. */
  lemma NextBoundary(a: nat) returns (e: nat)
    ensures a < e <= a + SM_SIZE && Boundary(e)
  {
    var q, o := a / WIDTH, a % WIDTH;
    var k := SM_SIZE - o % SM_SIZE;
    if o + k < WIDTH {
      e := a + k;
      OffsetOf(q, o + k);
      BlockEnd(o);
    } else {
      e := a + (WIDTH - o);
      OffsetOf(q + 1, 0);
    }
  }

  lemma OffsetOf(q: nat, o: nat)
    requires o < WIDTH
    ensures (q * WIDTH + o) % WIDTH == o
  {
  }

  /** The range cut to the first-level block of `addr`: its start, its size and `addr` itself, in block offsets. */
  method CutToBlock(base: nat, size: nat, addr: nat) returns (b: nat, n: nat, o: nat)
    requires base <= addr < base + size <= GLOBAL_MASK
    ensures o == addr % WIDTH && b <= o < b + n <= WIDTH
    ensures Min(b + n - o, SM_SIZE - o % SM_SIZE) == RunLimit(base, size, addr) <= base + size - addr
  {
    var basePm, pm := PmIdx(base), PmIdx(addr);
    var nextPm := (pm + 1) * WIDTH;
    BlockOf(addr);
    BlockOf(base);
    o := PmOffset(addr);
    if pm > basePm {
      var newBase := pm * WIDTH;
      BlockStart(pm);
      b, n := PmOffset(newBase), Min(WIDTH, size - (newBase - base));
    } else {
      b, n := PmOffset(base), Min(nextPm - base, size);
    }
    CutLimit(base, size, addr, pm, o, b, n);
  }

  lemma CutLimit(base: nat, size: nat, addr: nat, q: nat, o: nat, b: nat, n: nat)
    requires base <= addr < base + size && addr == q * WIDTH + o && o < WIDTH && b <= o < b + n
    requires b + n - o == Min(base + size, (q + 1) * WIDTH) - addr
    ensures Min(b + n - o, SM_SIZE - o % SM_SIZE) == RunLimit(base, size, addr) <= base + size - addr
  {
    OffsetOf(q, o);
    assert addr / WIDTH == q;
  }

  lemma BlockOf(a: nat)
    requires a <= GLOBAL_MASK
    ensures PmIdx(a) == a / WIDTH && PmOffset(a) == a % WIDTH && a == PmIdx(a) * WIDTH + PmOffset(a) && PmOffset(a) < WIDTH
  {
  }

  lemma BlockStart(q: nat)
    requires q * WIDTH <= GLOBAL_MASK
    ensures PmOffset(q * WIDTH) == 0
  {
  }

  lemma BlocksToSet(addr: nat, size: nat)
    requires addr + size <= GLOBAL_MASK
    ensures var left, right := PmIdx(addr), PmIdx(addr + size + WIDTH - 1);
            && left == addr / WIDTH && PmOffset(addr) == addr % WIDTH
            && (Reaches(addr, size) ==> left <= right && addr + size <= right * WIDTH
                                        && (left < right ==> (right - 1) * WIDTH <= addr + size)
                                        && (0 < size ==> left < right && (right - 1) * WIDTH < addr + size))
            && (!Reaches(addr, size) ==> right <= left)
  {
  }
}
