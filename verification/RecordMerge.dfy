/**
 * Merging of access records: neighbours of one kind that continue each other's addresses become one record,
 * either in place over a whole vector or while records stream into a sink.
 */
module RecordMerge {

  datatype OpType = Malloc | Free | MemcpyBlocks | Load | Store | GmAddrOutOfBound | Invalid

  /** What a record says besides the bytes it touches (line, pc, core, ...) is its origin. */
  datatype Record = Record(
    kind: OpType, dstSpace: nat, dstAddr: nat, srcSpace: nat, srcAddr: nat, memSize: nat, origin: nat)

  const TWO_TO_63: nat := 0x8000_0000_0000_0000
  const TWO_TO_64: nat := 0x1_0000_0000_0000_0000

  /** Unsigned 64-bit addition. */
  function Add64(x: nat, y: nat): nat { (x + y) % TWO_TO_64 }

  predicate IsContinuousAddr(lhs: Record, rhs: Record) {
    && Add64(lhs.dstAddr, lhs.memSize) == rhs.dstAddr
    && (lhs.kind != MemcpyBlocks || Add64(lhs.srcAddr, lhs.memSize) == rhs.srcAddr)
  }

  predicate IsSameOp(lhs: Record, rhs: Record) {
    && lhs.kind == rhs.kind && lhs.dstSpace == rhs.dstSpace
    && (lhs.kind != MemcpyBlocks || lhs.srcSpace == rhs.srcSpace)
  }

  predicate Mergeable(lhs: Record, rhs: Record) { IsSameOp(lhs, rhs) && IsContinuousAddr(lhs, rhs) }

  function Merged(lhs: Record, rhs: Record): Record { lhs.(memSize := Add64(lhs.memSize, rhs.memSize)) }

  // ------------------------------------------------------------------ the bytes touched, in order

  datatype Source = NoSource | Source(space: nat, addr: nat)
  datatype Touch = Touch(kind: OpType, space: nat, addr: nat, src: Source)

  ghost function TouchAt(r: Record, i: nat): Touch {
    Touch(r.kind, r.dstSpace, Add64(r.dstAddr, i),
          if r.kind == MemcpyBlocks then Source(r.srcSpace, Add64(r.srcAddr, i)) else NoSource)
  }

  ghost function TraceOf(r: Record): seq<Touch> { seq(r.memSize, i requires 0 <= i < r.memSize => TouchAt(r, i)) }

  ghost function Trace(rs: seq<Record>): seq<Touch> {
    if rs == [] then [] else Trace(rs[..|rs| - 1]) + TraceOf(rs[|rs| - 1])
  }

  ghost function TotalSize(rs: seq<Record>): nat {
    if rs == [] then 0 else TotalSize(rs[..|rs| - 1]) + rs[|rs| - 1].memSize
  }

  lemma AddTwice(x: nat, y: nat, z: nat)
    ensures Add64(Add64(x, y), z) == Add64(x, y + z)
  {
  }

  lemma MergedTrace(lhs: Record, rhs: Record)
    requires Mergeable(lhs, rhs) && lhs.memSize + rhs.memSize < TWO_TO_64
    ensures TraceOf(Merged(lhs, rhs)) == TraceOf(lhs) + TraceOf(rhs)
  {
    var m := Merged(lhs, rhs);
    assert m.memSize == lhs.memSize + rhs.memSize;
    forall i | lhs.memSize <= i < m.memSize ensures TouchAt(m, i) == TouchAt(rhs, i - lhs.memSize) {
      AddTwice(lhs.dstAddr, lhs.memSize, i - lhs.memSize);
      AddTwice(lhs.srcAddr, lhs.memSize, i - lhs.memSize);
    }
  }

  /** The record as large as both together. */
  ghost function Joined(lhs: Record, rhs: Record): Record { lhs.(memSize := lhs.memSize + rhs.memSize) }

  lemma JoinedTouches(lhs: Record, rhs: Record, i: nat)
    requires Mergeable(lhs, rhs)
    ensures TouchAt(Joined(lhs, rhs), lhs.memSize + i) == TouchAt(rhs, i)
  {
    AddTwice(lhs.dstAddr, lhs.memSize, i);
    AddTwice(lhs.srcAddr, lhs.memSize, i);
  }

  /** A record may be merged into the one before it exactly when one record can touch the bytes of both, in the same order. */
  lemma MergeableByBytes(lhs: Record, rhs: Record)
    requires 0 < rhs.memSize && rhs.dstAddr < TWO_TO_64 && rhs.srcAddr < TWO_TO_64
    ensures Mergeable(lhs, rhs) <==> TraceOf(Joined(lhs, rhs)) == TraceOf(lhs) + TraceOf(rhs)
  {
    var m, n := Joined(lhs, rhs), lhs.memSize;
    if Mergeable(lhs, rhs) {
      forall i | n <= i < m.memSize ensures TouchAt(m, i) == TouchAt(rhs, i - n) { JoinedTouches(lhs, rhs, i - n); }
    }
    if TraceOf(m) == TraceOf(lhs) + TraceOf(rhs) {
      assert TraceOf(m)[n] == TouchAt(m, n) && (TraceOf(lhs) + TraceOf(rhs))[n] == TouchAt(rhs, 0);
    }
  }

  // ------------------------------------------------------------------ merging

  /** One more record behind records already merged. */
  function Sunk(rs: seq<Record>, r: Record): seq<Record> {
    if rs != [] && Mergeable(rs[|rs| - 1], r) then rs[..|rs| - 1] + [Merged(rs[|rs| - 1], r)] else rs + [r]
  }

  /** The size of the record it is merged into, if any, does not wrap around. */
  predicate SinkFits(rs: seq<Record>, r: Record) {
    rs != [] && Mergeable(rs[|rs| - 1], r) ==> rs[|rs| - 1].memSize + r.memSize < TWO_TO_64
  }

  function SunkAll(rs: seq<Record>, more: seq<Record>): seq<Record> {
    if more == [] then rs else Sunk(SunkAll(rs, more[..|more| - 1]), more[|more| - 1])
  }

  function MergeAll(rs: seq<Record>): seq<Record> { SunkAll([], rs) }

  lemma {:induction false} SunkNonempty(rs: seq<Record>, more: seq<Record>)
    ensures |SunkAll(rs, more)| <= |rs| + |more|
    ensures rs + more != [] ==> SunkAll(rs, more) != []
  {
    if more != [] { SunkNonempty(rs, more[..|more| - 1]); }
  }

  /** Streaming behind a merged prefix is merging the whole list at once. */
  lemma {:induction false} StreamingIsBatch(rs: seq<Record>, more: seq<Record>)
    ensures SunkAll(MergeAll(rs), more) == MergeAll(rs + more)
  {
    if more == [] {
      assert rs + more == rs;
    } else {
      var init := more[..|more| - 1];
      StreamingIsBatch(rs, init);
      assert (rs + more)[..|rs + more| - 1] == rs + init;
    }
  }

  lemma TraceAppend(rs: seq<Record>, r: Record)
    ensures Trace(rs + [r]) == Trace(rs) + TraceOf(r) && TotalSize(rs + [r]) == TotalSize(rs) + r.memSize
  {
    assert (rs + [r])[..|rs|] == rs;
  }

  lemma SunkTrace(rs: seq<Record>, r: Record)
    requires SinkFits(rs, r)
    ensures Trace(Sunk(rs, r)) == Trace(rs) + TraceOf(r) && TotalSize(Sunk(rs, r)) == TotalSize(rs) + r.memSize
  {
    TraceAppend(rs, r);
    if rs != [] && Mergeable(rs[|rs| - 1], r) {
      SunkInto(rs[..|rs| - 1], rs[|rs| - 1], r);
    }
  }

  lemma SunkInto(init: seq<Record>, last: Record, r: Record)
    requires Mergeable(last, r) && last.memSize + r.memSize < TWO_TO_64
    ensures Trace(init + [Merged(last, r)]) == Trace(init) + TraceOf(last) + TraceOf(r)
    ensures TotalSize(init + [Merged(last, r)]) == TotalSize(init) + last.memSize + r.memSize
  {
    MergedTrace(last, r);
    TraceAppend(init, Merged(last, r));
  }

  /** No record grows past 64 bits while the list is merged. */
  predicate SizesFit(rs: seq<Record>) {
    rs == [] ||
    (SizesFit(rs[..|rs| - 1]) && SinkFits(MergeAll(rs[..|rs| - 1]), rs[|rs| - 1]))
  }

  lemma {:induction false} TraceSize(rs: seq<Record>)
    ensures |Trace(rs)| == TotalSize(rs)
  {
    if rs != [] { TraceSize(rs[..|rs| - 1]); }
  }

  /** Sinking never gains bytes, and loses some exactly when the size wraps around. */
  lemma SunkSize(rs: seq<Record>, r: Record)
    ensures TotalSize(Sunk(rs, r)) <= TotalSize(rs) + r.memSize
    ensures TotalSize(Sunk(rs, r)) == TotalSize(rs) + r.memSize
            <==> SinkFits(rs, r)
  {
    TraceAppend(rs, r);
    if rs != [] && Mergeable(rs[|rs| - 1], r) {
      var init, last := rs[..|rs| - 1], rs[|rs| - 1];
      TraceAppend(init, Merged(last, r));
      WrappedSum(last.memSize, r.memSize);
    }
  }

  lemma WrappedSum(x: nat, y: nat)
    ensures Add64(x, y) <= x + y && (Add64(x, y) == x + y <==> x + y < TWO_TO_64)
  {
  }

  lemma {:induction false} MergedSize(rs: seq<Record>)
    ensures TotalSize(MergeAll(rs)) <= TotalSize(rs)
    ensures TotalSize(MergeAll(rs)) == TotalSize(rs) <==> SizesFit(rs)
  {
    if rs != [] {
      MergedSize(rs[..|rs| - 1]);
      SunkSize(MergeAll(rs[..|rs| - 1]), rs[|rs| - 1]);
    }
  }

  // ------------------------------------------------------------------ when merging loses bytes

  /** The bytes of the chain of mergeable neighbours that ends the list. */
  function ChainSize(rs: seq<Record>): nat {
    if rs == [] then 0
    else
      var n := |rs| - 1;
      rs[n].memSize + if n > 0 && Mergeable(rs[n - 1], rs[n]) then ChainSize(rs[..n]) else 0
  }

  ghost predicate ChainFits(rs: seq<Record>, n: nat)
    requires n <= |rs|
  {
    ChainSize(rs[..n]) < TWO_TO_64
  }

  ghost predicate ChainsFit(rs: seq<Record>) { forall n :: 1 <= n <= |rs| ==> ChainFits(rs, n) }

  /** Two records that look alike to whatever may follow them. */
  ghost predicate SameEnd(x: Record, y: Record) {
    && IsSameOp(x, y) && Add64(x.dstAddr, x.memSize) == Add64(y.dstAddr, y.memSize)
    && (x.kind == MemcpyBlocks ==> Add64(x.srcAddr, x.memSize) == Add64(y.srcAddr, y.memSize))
  }

  lemma MergedEnd(m: Record, r: Record)
    requires Mergeable(m, r)
    ensures SameEnd(Merged(m, r), r)
  {
    AddWrapped(m.dstAddr, m.memSize, r.memSize);
    AddWrapped(m.srcAddr, m.memSize, r.memSize);
  }

  lemma AddWrapped(x: nat, y: nat, z: nat)
    ensures Add64(x, Add64(y, z)) == Add64(Add64(x, y), z)
  {
    AddTwice(x, y, z);
    AddTwice(y, z, x);
  }

  /** The last merged record ends where the last raw one does, so both can be merged with the same records. */
  lemma LastEnd(rs: seq<Record>)
    requires rs != []
    ensures MergeAll(rs) != [] && SameEnd(MergeAll(rs)[|MergeAll(rs)| - 1], rs[|rs| - 1])
  {
    var before, r := MergeAll(rs[..|rs| - 1]), rs[|rs| - 1];
    if before != [] && Mergeable(before[|before| - 1], r) { MergedEnd(before[|before| - 1], r); }
  }

  lemma MergeableAlike(x: Record, y: Record, r: Record)
    requires SameEnd(x, y)
    ensures Mergeable(x, r) <==> Mergeable(y, r)
  {
  }

  lemma SunkLast(rs: seq<Record>, r: Record)
    requires SinkFits(rs, r)
    ensures var s := Sunk(rs, r);
            s != [] && s[|s| - 1].memSize == r.memSize + if rs != [] && Mergeable(rs[|rs| - 1], r) then rs[|rs| - 1].memSize else 0
  {
    if rs != [] && Mergeable(rs[|rs| - 1], r) { WrappedSum(rs[|rs| - 1].memSize, r.memSize); }
  }

  /** While sizes fit, the last merged record is as large as its chain. */
  lemma {:induction false} LastIsChain(rs: seq<Record>)
    requires rs != [] && SizesFit(rs)
    ensures MergeAll(rs) != [] && MergeAll(rs)[|MergeAll(rs)| - 1].memSize == ChainSize(rs)
  {
    var n := |rs| - 1;
    var init, r := rs[..n], rs[n];
    SunkLast(MergeAll(init), r);
    if n > 0 {
      LastIsChain(init);
      LastAlike(rs);
    }
  }

  /** Whether the last record is merged can be told from the raw list. */
  lemma LastAlike(rs: seq<Record>)
    requires |rs| > 1
    ensures var n, before := |rs| - 1, MergeAll(rs[..|rs| - 1]);
            before != [] && (Mergeable(before[|before| - 1], rs[n]) <==> Mergeable(rs[n - 1], rs[n]))
  {
    var n := |rs| - 1;
    var before := MergeAll(rs[..n]);
    LastEnd(rs[..n]);
    MergeableAlike(before[|before| - 1], rs[n - 1], rs[n]);
  }

  /** The raw records that start a chain: those that do not continue the one before them. */
  ghost function ChainHeads(rs: seq<Record>): seq<Record> {
    if rs == [] then []
    else
      var n := |rs| - 1;
      if n > 0 && Mergeable(rs[n - 1], rs[n]) then ChainHeads(rs[..n]) else ChainHeads(rs[..n]) + [rs[n]]
  }

  ghost predicate AllButSize(x: Record, y: Record) { x.(memSize := y.memSize) == y }

  ghost predicate PairedUp(xs: seq<Record>, ys: seq<Record>) {
    |xs| == |ys| && forall i :: 0 <= i < |xs| ==> AllButSize(xs[i], ys[i])
  }

  /** There is one merged record for each chain, and except for its size it is the chain's first record. */
  lemma {:induction false} MergedFromHeads(rs: seq<Record>)
    ensures PairedUp(MergeAll(rs), ChainHeads(rs))
  {
    if rs != [] {
      var n := |rs| - 1;
      MergedFromHeads(rs[..n]);
      if n > 0 { LastAlike(rs); }
    }
  }

  lemma {:induction false} FitIsChains(rs: seq<Record>)
    requires forall r <- rs :: r.memSize < TWO_TO_64
    ensures SizesFit(rs) <==> ChainsFit(rs)
  {
    if rs != [] {
      var n := |rs| - 1;
      var init, r := rs[..n], rs[n];
      FitIsChains(init);
      ChainsFitNext(rs);
      if n > 0 && SizesFit(init) {
        LastIsChain(init);
        LastAlike(rs);
      }
    }
  }

  lemma ChainsFitNext(rs: seq<Record>)
    requires rs != []
    ensures ChainsFit(rs) <==> ChainsFit(rs[..|rs| - 1]) && ChainSize(rs) < TWO_TO_64
  {
    var init := rs[..|rs| - 1];
    assert rs[..|rs|] == rs;
    assert ChainFits(rs, |rs|) <==> ChainSize(rs) < TWO_TO_64;
    forall n | 1 <= n <= |init| ensures ChainFits(init, n) <==> ChainFits(rs, n) {
      assert init[..n] == rs[..n];
    }
  }

  /** Merging keeps the byte trace exactly when no chain of mergeable neighbours reaches 2^64 bytes. */
  lemma {:induction false} MergeKeepsTrace(rs: seq<Record>)
    requires forall r <- rs :: r.memSize < TWO_TO_64
    ensures Trace(MergeAll(rs)) == Trace(rs) <==> ChainsFit(rs)
  {
    MergedSize(rs);
    TraceSize(rs);
    TraceSize(MergeAll(rs));
    if SizesFit(rs) { FittingTrace(rs); }
    FitIsChains(rs);
  }

  /** Two adjoining loads of 2^63 bytes each become one of none. */
  lemma MergeLosesBytes(a: Record, b: Record)
    requires a == Record(Load, 0, 0, 0, 0, TWO_TO_63, 0) && b == Record(Load, 0, TWO_TO_63, 0, 0, TWO_TO_63, 0)
    ensures MergeAll([a, b]) == [a.(memSize := 0)] && Trace(MergeAll([a, b])) != Trace([a, b])
  {
    var rs := [a, b];
    MergeNext(rs, 0);
    MergeNext(rs, 1);
    assert rs[..0] == [] && rs[..1] == [a] && rs[..2] == rs;
    TraceAppend([], a);
    TraceAppend([a], b);
    TraceAppend([], a.(memSize := 0));
    assert [] + [a] == [a] && [a] + [b] == rs && [] + [a.(memSize := 0)] == [a.(memSize := 0)];
    TraceSize(rs);
    TraceSize(MergeAll(rs));
  }

  /** In particular when all sizes together stay below 2^64. */
  lemma {:induction false} SmallSizesFit(rs: seq<Record>)
    requires TotalSize(rs) < TWO_TO_64
    ensures SizesFit(rs)
  {
    if rs != [] {
      var init := rs[..|rs| - 1];
      SmallSizesFit(init);
      MergedSize(init);
      LastSize(MergeAll(init));
    }
  }

  lemma LastSize(rs: seq<Record>)
    ensures rs != [] ==> rs[|rs| - 1].memSize <= TotalSize(rs)
  {
  }

  lemma {:induction false} FittingTrace(rs: seq<Record>)
    requires SizesFit(rs)
    ensures Trace(MergeAll(rs)) == Trace(rs)
  {
    if rs != [] {
      var init, r := rs[..|rs| - 1], rs[|rs| - 1];
      FittingTrace(init);
      SunkTrace(MergeAll(init), r);
    }
  }

  /** No two neighbours could be merged any more. */
  ghost predicate Normal(rs: seq<Record>) { forall i, j :: 0 <= i && j == i + 1 < |rs| ==> !Mergeable(rs[i], rs[j]) }

  lemma SunkNormal(rs: seq<Record>, r: Record)
    requires Normal(rs)
    ensures Normal(Sunk(rs, r))
  {
    var rs' := Sunk(rs, r);
    forall i, j | 0 <= i && j == i + 1 < |rs'| ensures !Mergeable(rs'[i], rs'[j]) {
      if j < |rs| {
        assert !Mergeable(rs[i], rs[j]);
        assert rs'[i] == rs[i];
      }
    }
  }

  lemma {:induction false} MergeIsNormal(rs: seq<Record>)
    ensures Normal(MergeAll(rs))
  {
    if rs != [] {
      MergeIsNormal(rs[..|rs| - 1]);
      SunkNormal(MergeAll(rs[..|rs| - 1]), rs[|rs| - 1]);
    }
  }

  lemma {:induction false} NormalIsFixed(rs: seq<Record>)
    requires Normal(rs)
    ensures MergeAll(rs) == rs
  {
    if rs != [] {
      var init := rs[..|rs| - 1];
      NormalIsFixed(init);
      assert rs == init + [rs[|rs| - 1]];
    }
  }

  /** Merging twice is merging once, and only normal lists are left alone. */
  lemma MergeIsIdempotent(rs: seq<Record>)
    ensures MergeAll(MergeAll(rs)) == MergeAll(rs)
    ensures MergeAll(rs) == rs <==> Normal(rs)
  {
    MergeIsNormal(rs);
    NormalIsFixed(MergeAll(rs));
    if Normal(rs) { NormalIsFixed(rs); }
  }

  // ------------------------------------------------------------------ the code

  lemma MergeNext(rs: seq<Record>, i: nat)
    requires i < |rs|
    ensures MergeAll(rs[..i + 1]) == Sunk(MergeAll(rs[..i]), rs[i])
  {
    assert rs[..i + 1][..i] == rs[..i];
  }

  /** MergeRecords: the vector is merged in place and cut to the length returned. */
  method MergeRecords(a: array<Record>) returns (size: nat)
    modifies a
    ensures size <= a.Length && a[..size] == MergeAll(old(a[..]))
  {
    if a.Length == 0 { return 0; }
    ghost var was := a[..];
    var last: nat := 0;
    assert was[..0] == [];
    MergeNext(was, 0);
    for i := 1 to a.Length
      invariant last < i
      invariant a[..last + 1] == MergeAll(was[..i])
      invariant a[i..] == was[i..]
    {
      MergeNext(was, i);
      last := MergeStep(a, last, i);
      assert a[i + 1..] == was[i..][1..];
    }
    assert was[..a.Length] == was;
    size := last + 1;
  }

  /** The body of the loop: the i-th record is merged into the last one kept or moved behind it. */
  method MergeStep(a: array<Record>, last: nat, i: nat) returns (last': nat)
    requires last < i < a.Length
    modifies a
    ensures last <= last' <= i && a[..last' + 1] == Sunk(old(a[..last + 1]), old(a[i]))
    ensures a[i + 1..] == old(a[i..])[1..]
  {
    ghost var done := a[..last + 1];
    assert done[..last] == a[..last];
    if IsSameOp(a[last], a[i]) && IsContinuousAddr(a[last], a[i]) {
      a[last] := Merged(a[last], a[i]);
      last' := last;
      assert a[..last + 1] == done[..last] + [a[last]];
    } else {
      last' := last + 1;
      a[last'] := a[i];
      assert a[..last' + 1] == done + [a[last']];
    }
  }

  class MemRecordSink {
    var records: seq<Record>

    constructor (records: seq<Record>)
      ensures this.records == records
    {
      this.records := records;
    }

    method EmplaceBack(r: Record)
      modifies this
      ensures records == Sunk(old(records), r)
      ensures SinkFits(old(records), r) ==> Trace(records) == Trace(old(records)) + TraceOf(r)
      ensures Normal(old(records)) ==> Normal(records)
    {
      if SinkFits(records, r) { SunkTrace(records, r); }
      if Normal(records) { SunkNormal(records, r); }
      var n := |records|;
      if n > 0 && IsSameOp(records[n - 1], r) && IsContinuousAddr(records[n - 1], r) {
        records := records[n - 1 := Merged(records[n - 1], r)];
      } else {
        records := records + [r];
      }
    }
  }

  /** ConvertEventsToRecords: streaming or batch, behind records that may not be merged yet. */
  method AppendConverted(records: seq<Record>, converted: seq<Record>, initCheck: bool) returns (result: seq<Record>)
    ensures result == MergeAll(records + converted)
  {
    if initCheck {
      var a := new Record[|records|](i requires 0 <= i < |records| => records[i]);
      assert a[..] == records;
      var n := MergeRecords(a);
      var sink := new MemRecordSink(a[..n]);
      for i := 0 to |converted|
        invariant sink.records == SunkAll(MergeAll(records), converted[..i])
      {
        assert converted[..i + 1][..i] == converted[..i];
        sink.EmplaceBack(converted[i]);
      }
      assert converted[..|converted|] == converted;
      StreamingIsBatch(records, converted);
      result := sink.records;
    } else {
      var all := records + converted;
      var a := new Record[|all|](i requires 0 <= i < |all| => all[i]);
      assert a[..] == all;
      var n := MergeRecords(a);
      result := a[..n];
    }
  }
}
