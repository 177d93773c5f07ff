/** Whole runs over the shadow maps: what a sequence of overwrites leaves behind, told by the flat map. */
module ShadowRuns {
  import opened Intervals
  import opened ShadowWord
  import opened PrimaryMap
  import opened GlobalMap

  datatype MapOp = SetOp(addr: nat, size: nat, bits: bv8) | ResetOp(bits: bv8)

  /** The byte at `a` of a flat map, initially `init`, after the operations: the last one that covers it wins. */
  function FlatByte(init: bv8, ops: seq<MapOp>, a: nat): bv8 {
    if ops == [] then init
    else
      var op := ops[|ops| - 1];
      if op.ResetOp? || op.addr <= a < op.addr + op.size then op.bits else FlatByte(init, ops[..|ops| - 1], a)
  }

  /** The operations that global memory carries out: it ignores an overwrite whose rounded-up end passes 48 bits. */
  function Effective(ops: seq<MapOp>): seq<MapOp> {
    if ops == [] then []
    else
      var before, op := Effective(ops[..|ops| - 1]), ops[|ops| - 1];
      if op.SetOp? && !Reaches(op.addr, op.size) then before else before + [op]
  }

  /** Any sequence of Set and Reset on a two-level map reads back as the flat map. */
  method RunLocal(byteNum: nat, init: bv8, ops: seq<MapOp>) returns (pm: PM)
    requires byteNum <= LOCAL_MASK
    requires forall op <- ops :: op.SetOp? ==> op.addr <= LOCAL_MASK && op.size <= LOCAL_MASK
    ensures fresh(pm.Repr()) && pm.Valid() && pm.smNum == (byteNum + SM_SIZE - 1) / SM_SIZE
    ensures forall a :: 0 <= a < pm.smNum * SM_SIZE ==> pm.Bits(a) == FlatByte(init, ops, a)
  {
    pm := new PM(byteNum, init);
    var i := 0;
    while i < |ops|
      invariant 0 <= i <= |ops|
      invariant fresh(pm.Repr()) && pm.Valid() && pm.smNum == (byteNum + SM_SIZE - 1) / SM_SIZE
      invariant forall a :: 0 <= a < pm.smNum * SM_SIZE ==> pm.Bits(a) == FlatByte(init, ops[..i], a)
    {
      assert ops[..i + 1][..i] == ops[..i];
      match ops[i] {
        case SetOp(addr, size, bits) => pm.Set(addr, size, bits);
        case ResetOp(bits) => pm.Reset(bits);
      }
      i := i + 1;
    }
    assert ops[..i] == ops;
  }

  /** Any sequence of Set on global memory reads back as the flat map under the effective ones. */
  method RunGlobal(init: bv8, ops: seq<MapOp>) returns (gm: GmPM)
    requires forall op <- ops :: op.SetOp? && op.addr + op.size <= GLOBAL_MASK
    ensures fresh(gm.Repr) && gm.Valid()
    ensures forall a :: 0 <= a <= GLOBAL_MASK ==> gm.flat[a] == FlatByte(init, Effective(ops), a)
  {
    gm := new GmPM(init);
    var i := 0;
    while i < |ops|
      invariant 0 <= i <= |ops|
      invariant fresh(gm.Repr) && gm.Valid() && FlatIs(gm.flat, init, Effective(ops[..i]))
    {
      assert ops[i] in ops;
      FlatNext(gm.flat, init, ops, i);
      gm.Set(ops[i].addr, ops[i].size, ops[i].bits);
      i := i + 1;
    }
    assert ops[..i] == ops;
  }

  ghost predicate FlatIs(flat: seq<bv8>, init: bv8, ops: seq<MapOp>) {
    |flat| == GLOBAL_MASK + 1 && forall a :: 0 <= a <= GLOBAL_MASK ==> flat[a] == FlatByte(init, ops, a)
  }

  lemma FlatNext(flat: seq<bv8>, init: bv8, ops: seq<MapOp>, i: nat)
    requires i < |ops| && ops[i].SetOp? && ops[i].addr + ops[i].size <= GLOBAL_MASK
    requires FlatIs(flat, init, Effective(ops[..i]))
    ensures var op := ops[i];
            FlatIs(if Reaches(op.addr, op.size) then Overwritten(flat, op.addr, op.size, op.bits) else flat, init, Effective(ops[..i + 1]))
  {
    assert ops[..i + 1][..i] == ops[..i];
    var before := Effective(ops[..i]);
    assert (before + [ops[i]])[..|before|] == before;
  }

  /** An overwrite within 2^36 - 2 bytes of the 48-bit limit is ignored. */
  method IgnoredSet() returns (gm: GmPM)
    ensures gm.Valid() && gm.flat[GLOBAL_MASK - 1] == 0
  {
    gm := new GmPM(0);
    gm.Set(GLOBAL_MASK - 1, 1, 7);
  }
}
