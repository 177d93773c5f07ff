/**
 * The two-level shadow map of an on-chip memory or of one first-level block of global memory.  A block
 * of 64 KB is either one common byte or a materialised array; the map it stands for is flat.
 */
module PrimaryMap {
  import opened Intervals
  import opened ShadowWord

  const SM_SIZE: nat := 0x1_0000
  const LOCAL_MASK: nat := 0xF_FFFF_FFFF

  /** `addr & LOCAL_MEM_MASK` */
  function Masked(addr: nat): nat { addr % 0x10_0000_0000 }
  function BlockIdx(addr: nat): nat { Masked(addr) / SM_SIZE }
  function BlockOffset(addr: nat): nat { Masked(addr) % SM_SIZE }

  class PM {
    var smList: seq<array?<bv8>>
    var commonBits: seq<bv8>
    const smNum: nat

    ghost function Repr(): set<object>
      reads this
    {
      {this} + set i | 0 <= i < |smList| && smList[i] != null :: smList[i] as object
    }

    ghost predicate Valid()
      reads this, smList
    {
      && |smList| == smNum == |commonBits|
      && smNum * SM_SIZE <= LOCAL_MASK + 1
      && (forall i :: 0 <= i < smNum && smList[i] != null ==> smList[i].Length == SM_SIZE)
      && (forall i, j :: 0 <= i < j < smNum && smList[i] != null ==> smList[i] != smList[j])
    }

    /** The byte at offset `o` of block `i`. */
    ghost function Byte(i: nat, o: nat): bv8
      requires Valid() && i < smNum && o < SM_SIZE
      reads this, smList
    {
      if smList[i] == null then commonBits[i] else smList[i][o]
    }

    /** The flat map. */
    ghost function Bits(addr: nat): bv8
      requires Valid() && addr < smNum * SM_SIZE
      reads this, smList
    {
      Byte(addr / SM_SIZE, addr % SM_SIZE)
    }

    /** No block is materialised and every common byte is `v`. */
    ghost predicate AllCommon(v: bv8)
      reads this
    {
      |smList| == smNum == |commonBits| && forall i :: 0 <= i < smNum ==> smList[i] == null && commonBits[i] == v
    }

    constructor (byteNum: nat, init: bv8)
      requires byteNum <= LOCAL_MASK
      ensures Valid() && fresh(Repr()) && AllCommon(init)
      ensures smNum == (byteNum + SM_SIZE - 1) / SM_SIZE
      ensures forall a :: 0 <= a < smNum * SM_SIZE ==> Bits(a) == init
    {
      smNum := (byteNum + SM_SIZE - 1) / SM_SIZE;
      smList := seq((byteNum + SM_SIZE - 1) / SM_SIZE, _ => null);
      commonBits := seq((byteNum + SM_SIZE - 1) / SM_SIZE, _ => init);
    }

    method Reset(init: bv8)
      requires Valid()
      modifies this
      ensures Valid() && Repr() == {this} && AllCommon(init)
      ensures forall a :: 0 <= a < smNum * SM_SIZE ==> Bits(a) == init
    {
      smList := seq(smNum, _ => null);
      commonBits := seq(smNum, _ => init);
    }

    method GetBits(addr: nat) returns (bits: bv8)
      requires Valid() && Masked(addr) < smNum * SM_SIZE
      ensures bits == Bits(Masked(addr))
    {
      var i := BlockIdx(addr);
      if smList[i] == null {
        bits := commonBits[i];
      } else {
        bits := smList[i][BlockOffset(addr)];
      }
    }

    /** One turn of the loop in Set: the bytes [lo, hi) of block `i`. */
    method SetInBlock(i: nat, lo: nat, hi: nat, bits: bv8)
      requires Valid() && i < smNum && lo <= hi <= SM_SIZE
      modifies Repr()
      ensures Valid() && fresh(Repr() - old(Repr()))
      ensures forall j, o :: 0 <= j < smNum && 0 <= o < SM_SIZE ==>
                Byte(j, o) == if j == i && lo <= o < hi then bits else old(Byte(j, o))
    {
      if lo == 0 && hi == SM_SIZE {
        smList := smList[i := null];
        commonBits := commonBits[i := bits];
      } else {
        if smList[i] == null {
          var common := commonBits[i];
          var sm := new bv8[SM_SIZE](_ => common);
          smList := smList[i := sm];
        }
        var sm := smList[i];
        forall o | lo <= o < hi { sm[o] := bits; }
      }
    }

    /**
     * Overwrites [addr, addr + size).  Bytes past the end of the map are dropped, as the bound check on
     * the block list drops their blocks.
     */
    method Set(addr: nat, size: nat, bits: bv8)
      requires Valid() && addr <= LOCAL_MASK && size <= LOCAL_MASK
      modifies Repr()
      ensures Valid() && fresh(Repr() - old(Repr()))
      ensures forall a :: 0 <= a < smNum * SM_SIZE ==>
                Bits(a) == if addr <= a < addr + size then bits else old(Bits(a))
    {
      var left := BlockIdx(addr);
      var right := BlockIdx(addr) + BlockIdx(size);
      var remainderSum := BlockOffset(addr) + BlockOffset(size);
      right := right + BlockIdx(remainderSum + SM_SIZE - 1);
      BlocksOfRange(addr, size);
      var i := left;
      while i < right && i < smNum
        invariant left <= i
        invariant Valid() && fresh(Repr() - old(Repr()))
        invariant forall j, o :: 0 <= j < smNum && 0 <= o < SM_SIZE ==>
                    Byte(j, o) == if j < i && addr <= j * SM_SIZE + o < addr + size then bits else old(Byte(j, o))
      {
        var blockL := SM_SIZE * i;
        var blockR := blockL + SM_SIZE;
        var addrL, addrR := Max(addr, blockL), Min(addr + size, blockR);
        SetInBlock(i, addrL - blockL, addrR - blockL, bits);
        i := i + 1;
      }
      forall a | 0 <= a < smNum * SM_SIZE
        ensures Bits(a) == if addr <= a < addr + size then bits else old(Bits(a))
      {
        var j, o := a / SM_SIZE, a % SM_SIZE;
        assert Byte(j, o) == if j < i && addr <= j * SM_SIZE + o < addr + size then bits else old(Byte(j, o));
      }
    }

    /**
     * The length of the run of equal bytes starting at `addr`, cut at the end of the block and of the
     * range.
     */
    method UnifiedSizeAfter(base: nat, size: nat, addr: nat) returns (n: nat)
      requires Valid() && base <= addr < base + size && addr < smNum * SM_SIZE
      ensures 1 <= n <= Min(base + size - addr, SM_SIZE - addr % SM_SIZE) && addr + n <= smNum * SM_SIZE
      ensures forall a :: addr <= a < addr + n ==> Bits(a) == Bits(addr)
      ensures n == Min(base + size - addr, SM_SIZE - addr % SM_SIZE) || Bits(addr + n) != Bits(addr)
    {
      var i, off := BlockIdx(addr), BlockOffset(addr);
      var limit := Min(base + size - addr, SM_SIZE - off);
      if smList[i] == null {
        n := limit;
      } else {
        n := RunOf(smList[i], off, limit);
      }
      RunInBlock(addr, n);
    }

    lemma RunInBlock(addr: nat, n: nat)
      requires Valid() && addr < smNum * SM_SIZE && addr % SM_SIZE + n <= SM_SIZE
      ensures addr + n <= smNum * SM_SIZE
      ensures forall a :: addr <= a < addr + n ==>
                a / SM_SIZE == addr / SM_SIZE && a % SM_SIZE == addr % SM_SIZE + (a - addr)
                && Bits(a) == Byte(addr / SM_SIZE, addr % SM_SIZE + (a - addr))
      ensures addr % SM_SIZE + n < SM_SIZE ==>
                Bits(addr + n) == Byte(addr / SM_SIZE, addr % SM_SIZE + n)
    {
    }

    /** Scanning part of one block for a status. */
    method BlockHasStatus(i: nat, off: nat, len: nat, status: bv8) returns (r: bool)
      requires Valid() && i < smNum && off + len <= SM_SIZE && 0 < len && status <= 3
      ensures r <==> exists o :: off <= o < off + len && HasStatus(Byte(i, o), status)
    {
      if smList[i] == null {
        r := HasStatus(commonBits[i], status);
        if r { assert HasStatus(Byte(i, off), status); }
      } else {
        var sm := smList[i];
        var k := 0;
        while k + 8 <= len
          invariant k <= len
          invariant forall o :: off <= o < off + k ==> !HasStatus(sm[o], status)
        {
          var word := sm[off + k..off + k + 8];
          r := WordHasStatus(word, status);
          if r {
            ghost var j :| 0 <= j < |word| && HasStatus(word[j], status);
            assert HasStatus(Byte(i, off + k + j), status);
            return;
          }
          forall o | off + k <= o < off + k + 8 ensures !HasStatus(sm[o], status) {
            assert word[o - off - k] == sm[o];
          }
          k := k + 8;
        }
        while k < len
          invariant k <= len
          invariant forall o :: off <= o < off + k ==> !HasStatus(sm[o], status)
        {
          if HasStatus(sm[off + k], status) {
            assert HasStatus(Byte(i, off + k), status);
            return true;
          }
          k := k + 1;
        }
        r := false;
      }
    }

    /** One turn of the scan, in terms of the flat map. */
    method ScanBlock(i: nat, off: nat, len: nat, status: bv8, ghost at: nat) returns (r: bool)
      requires Valid() && i < smNum && off + len <= SM_SIZE && 0 < len && status <= 3 && at == i * SM_SIZE + off
      ensures at + len <= smNum * SM_SIZE
      ensures r <==> exists a :: at <= a < at + len && HasStatus(Bits(a), status)
    {
      assert at / SM_SIZE == i && at % SM_SIZE == off;
      RunInBlock(at, len);
      r := BlockHasStatus(i, off, len, status);
      if r {
        ghost var o :| off <= o < off + len && HasStatus(Byte(i, o), status);
        assert HasStatus(Bits(at + (o - off)), status);
      } else {
        forall a | at <= a < at + len ensures !HasStatus(Bits(a), status) {
          assert Bits(a) == Byte(i, off + (a - at));
        }
      }
    }

    /**
     * Whether some byte of the range has the status.  The end of the range is rounded up to a block and
     * then masked, so a range that ends within the last 64 KB of the address range is not scanned at all.
     */
    method RangeHasStatus(addr: nat, size: nat, status: bv8) returns (r: bool)
      requires Valid() && addr + size <= smNum * SM_SIZE && status <= 3
      ensures r <==> addr + size + SM_SIZE - 1 <= LOCAL_MASK
                     && exists a :: addr <= a < addr + size && HasStatus(Bits(a), status)
    {
      if size == 0 { return false; }
      var left, right := BlockIdx(addr), BlockIdx(addr + size + SM_SIZE - 1);
      var off: nat, remaining: nat := BlockOffset(addr), size;
      var i: nat := left;
      BlocksToScan(addr, size);
      while i < right
        invariant left <= i && remaining <= size && (i < right ==> 0 < remaining)
        invariant left < right ==> off < SM_SIZE && i * SM_SIZE + off == addr + (size - remaining)
        invariant forall a :: addr <= a < addr + (size - remaining) ==> !HasStatus(Bits(a), status)
        invariant left < right && i == right ==> remaining == 0
      {
        var len := Min(remaining, SM_SIZE - off);
        r := ScanBlock(i, off, len, status, i * SM_SIZE + off);
        if r { return; }
        remaining := remaining - len;
        off := 0;
        if remaining == 0 { break; }
        i := i + 1;
      }
      r := false;
    }
  }

  /** Four words at a time, then one word, then byte by byte. */
  method RunOf(sm: array<bv8>, off: nat, limit: nat) returns (n: nat)
    requires 1 <= limit && off + limit <= sm.Length
    ensures 1 <= n <= limit && (forall k :: off <= k < off + n ==> sm[k] == sm[off])
    ensures n == limit || sm[off + n] != sm[off]
  {
    var head := sm[off];
    n := 1;
    var same := true;
    while n + 32 <= limit && same
      invariant 1 <= n <= limit
      invariant forall k :: off <= k < off + n ==> sm[k] == head
      decreases limit - n, same
    {
      var at := off + n;
      var c0 := WordEquals(sm, at, head);
      var c1 := WordEquals(sm, at + 8, head);
      var c2 := WordEquals(sm, at + 16, head);
      var c3 := WordEquals(sm, at + 24, head);
      same := c0 && c1 && c2 && c3;
      if same { n := n + 32; }
    }
    same := true;
    while n + 8 <= limit && same
      invariant 1 <= n <= limit
      invariant forall k :: off <= k < off + n ==> sm[k] == head
      decreases limit - n, same
    {
      same := WordEquals(sm, off + n, head);
      if same { n := n + 8; }
    }
    while n < limit && sm[off + n] == head
      invariant 1 <= n <= limit
      invariant forall k :: off <= k < off + n ==> sm[k] == head
    {
      n := n + 1;
    }
  }

  method WordEquals(sm: array<bv8>, at: nat, head: bv8) returns (r: bool)
    requires at + 8 <= sm.Length
    ensures r <==> forall k :: at <= k < at + 8 ==> sm[k] == head
  {
    var word := sm[at..at + 8];
    r := WordIsSplat(word, head);
    if r {
      forall k | at <= k < at + 8 ensures sm[k] == head { assert word[k - at] == head; }
    }
  }

  lemma BlocksToScan(addr: nat, size: nat)
    requires 0 < size && addr + size <= LOCAL_MASK + 1
    ensures var left, right := BlockIdx(addr), BlockIdx(addr + size + SM_SIZE - 1);
            && left * SM_SIZE + BlockOffset(addr) == addr
            && (left < right <==> addr + size + SM_SIZE - 1 <= LOCAL_MASK)
            && (left < right ==> (right - 1) * SM_SIZE < addr + size <= right * SM_SIZE)
  {
  }

  /** The block range computed without adding addr and size is the range of blocks the bytes lie in. */
  lemma BlocksOfRange(addr: nat, size: nat)
    requires addr <= LOCAL_MASK && size <= LOCAL_MASK
    ensures var left := BlockIdx(addr);
            var right := BlockIdx(addr) + BlockIdx(size) + BlockIdx(BlockOffset(addr) + BlockOffset(size) + SM_SIZE - 1);
            && left * SM_SIZE <= addr < left * SM_SIZE + SM_SIZE
            && addr + size <= right * SM_SIZE
            && (left < right ==> (right - 1) * SM_SIZE <= addr + size)
  {
  }
}
