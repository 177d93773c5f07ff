/**
 * Conversion of a strided memory event into contiguous access records.  An event touches blockNum blocks of
 * blockSize bytes, blockStride blocks apart, and does so repeatTimes times, repeatStride blocks apart.
 */
module StridedRecords {

  datatype MemOp = MemOp(addr: nat, blockNum: nat, blockSize: nat, blockStride: nat, repeatTimes: nat, repeatStride: nat)

  datatype Record = Record(dstAddr: nat, memSize: nat) {
    predicate Has(a: nat) { dstAddr <= a < dstAddr + memSize }
  }

  const WORD: nat := 0x1_0000_0000
  const MAX_REPEATS: nat := 0x7FFF

  /** All five counts are 32 bits wide and so are their sums, differences and products. */
  function Times32(x: nat, y: nat): nat { x * y % WORD }
  function Less32(x: nat, y: nat): nat { (x - y) % WORD }

  /** The products that the event's branch computes in 32 bits do not wrap around. */
  predicate InRange(e: MemOp) {
    && e.repeatTimes < WORD
    && (e.blockStride <= 1 ==> e.repeatStride * e.blockSize < WORD)
    && (e.blockStride == 1 ==> e.blockSize * e.blockNum < WORD)
    && (e.blockStride >= 2 && e.repeatStride == 1 ==>
          if e.repeatTimes >= e.blockStride then CellsOfDense(e) * e.blockSize < WORD
          else e.repeatTimes * e.blockSize < WORD)
  }

  /** blockNum - 1 + repeatTimes; without blocks the subtraction wraps and the addition wraps back. */
  function CellsOfDense(e: MemOp): nat
    requires e.repeatTimes >= 1
  {
    e.blockNum + e.repeatTimes - 1
  }

  /** Each repeat touches something. */
  predicate Regular(e: MemOp) { e.blockNum >= 1 && e.blockSize >= 1 }

  // ------------------------------------------------------------------ what the event touches

  /** Where a block lies, counted in blocks from the event's address. */
  function Place(e: MemOp, r: nat, b: nat): nat { r * e.repeatStride + b * e.blockStride }

  /** Byte a lies in the block-sized cell u. */
  ghost predicate InCell(e: MemOp, u: nat, a: nat) { e.addr + u * e.blockSize <= a < e.addr + u * e.blockSize + e.blockSize }

  /** The bytes of the nested repeat and block loop. */
  ghost predicate Touched(e: MemOp, a: nat) {
    exists r, b :: 0 <= r < e.repeatTimes && 0 <= b < e.blockNum && InCell(e, Place(e, r, b), a)
  }

  ghost predicate Covered(records: seq<Record>, a: nat) { exists i :: 0 <= i < |records| && records[i].Has(a) }

  /** The records cover bytes of the event only. */
  ghost predicate Sound(e: MemOp, records: seq<Record>) { forall a :: Covered(records, a) ==> Touched(e, a) }

  ghost predicate Complete(e: MemOp, records: seq<Record>) { forall a :: Touched(e, a) ==> Covered(records, a) }

  /** When the records cover the event only: an event without blocks must not be recorded as having one. */
  predicate Safe(e: MemOp) {
    || Regular(e) || e.repeatTimes == 0 || e.blockSize == 0
    || (e.blockStride != 0 && !(e.blockStride >= 2 && Dense(e)) && !(e.blockStride >= 2 && e.repeatStride == e.blockStride))
  }

  predicate Dense(e: MemOp) { e.repeatStride == 1 && e.repeatTimes >= e.blockStride }

  /** When the records cover all of the event. */
  predicate Exact(e: MemOp) {
    || e.repeatTimes == 0 || !Regular(e)
    || if e.blockStride <= 1 then
         e.repeatStride <= Width(e) || e.repeatTimes <= MAX_REPEATS
       else if e.repeatStride == 0 then e.blockNum == 1
       else if e.repeatStride == 1 then e.repeatTimes < e.blockStride || e.blockNum == 1
       else if e.repeatStride == e.blockStride then e.blockNum == 1 || e.repeatTimes == 1
       else e.repeatTimes <= MAX_REPEATS
  }

  /** The cells of one repeat when its blocks leave no gap. */
  function Width(e: MemOp): nat { if e.blockStride == 1 then e.blockNum else 1 }

  /** The repeats that are looked at where they are recorded one by one. */
  function Kept(e: MemOp): nat { if e.repeatTimes > MAX_REPEATS then MAX_REPEATS else e.repeatTimes }

  function Larger(e: MemOp): nat { if e.blockNum < e.repeatTimes then e.repeatTimes else e.blockNum }

  /** Cell u lies in the k-th of some stretches of `width` cells, `step` apart. */
  ghost predicate Within(k: nat, step: nat, width: nat, u: nat) { k * step <= u < k * step + width }

  ghost predicate InSome(n: nat, step: nat, width: nat, u: nat) { exists k :: 0 <= k < n && Within(k, step, width, u) }

  /** Exactly the cells that are recorded, for each kind of event. */
  ghost predicate RecordedCell(e: MemOp, u: nat) {
    if e.blockStride <= 1 then
      if e.repeatStride <= Width(e) then u < (e.repeatTimes - 1) * e.repeatStride + Width(e)
      else InSome(Kept(e), e.repeatStride, Width(e), u)
    else if e.repeatStride == 0 then e.blockNum >= 1 && u == 0
    else if Dense(e) then u + 1 < e.blockNum + e.repeatTimes
    else if e.repeatStride == 1 then InSome(e.blockNum, e.blockStride, e.repeatTimes, u)
    else if e.repeatStride == e.blockStride then InSome(Larger(e), e.blockStride, 1, u)
    else exists r, b :: 0 <= r < Kept(e) && 0 <= b < e.blockNum && Place(e, r, b) == u
  }

  ghost function RecordedCells(e: MemOp): iset<nat> { iset u: nat | RecordedCell(e, u) }

  ghost predicate Recorded(e: MemOp, a: nat) {
    e.repeatTimes >= 1 && exists u <- RecordedCells(e) :: InCell(e, u, a)
  }

  // ------------------------------------------------------------------ counting in cells

  datatype Span = Span(first: nat, count: nat) {
    predicate Has(u: nat) { first <= u < first + count }
  }

  function Scaled(e: MemOp, s: Span): Record { Record(e.addr + s.first * e.blockSize, s.count * e.blockSize) }

  function ScaledAll(e: MemOp, spans: seq<Span>): seq<Record> {
    seq(|spans|, i requires 0 <= i < |spans| => Scaled(e, spans[i]))
  }

  ghost predicate UnitTouched(e: MemOp, u: nat) {
    exists r, b :: 0 <= r < e.repeatTimes && 0 <= b < e.blockNum && Place(e, r, b) == u
  }

  ghost predicate UnitCovered(spans: seq<Span>, u: nat) { exists i :: 0 <= i < |spans| && spans[i].Has(u) }

  lemma CellBounds(n: nat, d: nat, u: nat, k: nat)
    requires d >= 1
    ensures u * d <= n < (u + k) * d <==> u <= n / d < u + k
  {
    var q := Quotient(n, d);
    QuotientBounds(n, d, u, k, q);
  }

  lemma Quotient(n: nat, d: nat) returns (q: nat)
    requires d >= 1
    ensures q == n / d && q * d <= n < (q + 1) * d
  {
    q := n / d;
  }

  lemma QuotientBounds(n: nat, d: nat, u: nat, k: nat, q: nat)
    requires q * d <= n < (q + 1) * d
    ensures u * d <= n < (u + k) * d <==> u <= q < u + k
  {
    if u <= q { MulMonotone(u, q, d); } else { MulMonotone(q + 1, u, d); }
    if q + 1 <= u + k { MulMonotone(q + 1, u + k, d); } else { MulMonotone(u + k, q, d); }
  }

  lemma ScaledHas(e: MemOp, s: Span, a: nat)
    requires e.blockSize >= 1
    ensures Scaled(e, s).Has(a) <==> a >= e.addr && s.Has((a - e.addr) / e.blockSize)
  {
    var d := e.blockSize;
    assert (s.first + s.count) * d == s.first * d + s.count * d;
    if a >= e.addr { CellBounds(a - e.addr, d, s.first, s.count); }
  }

  lemma TouchedCells(e: MemOp, a: nat)
    requires e.blockSize >= 1
    ensures Touched(e, a) <==> a >= e.addr && UnitTouched(e, (a - e.addr) / e.blockSize)
  {
    forall u: nat ensures InCell(e, u, a) <==> a >= e.addr && u == (a - e.addr) / e.blockSize {
      if a >= e.addr { CellBounds(a - e.addr, e.blockSize, u, 1); }
    }
  }

  lemma CoveredCells(e: MemOp, spans: seq<Span>, a: nat)
    requires e.blockSize >= 1
    ensures Covered(ScaledAll(e, spans), a) <==> a >= e.addr && UnitCovered(spans, (a - e.addr) / e.blockSize)
  {
    var records := ScaledAll(e, spans);
    forall i | 0 <= i < |spans|
      ensures records[i].Has(a) <==> a >= e.addr && spans[i].Has((a - e.addr) / e.blockSize)
    {
      ScaledHas(e, spans[i], a);
    }
    if a >= e.addr && UnitCovered(spans, (a - e.addr) / e.blockSize) {
      var i :| 0 <= i < |spans| && spans[i].Has((a - e.addr) / e.blockSize);
      assert records[i].Has(a);
    }
  }

  /** It is enough to reason in cells. */
  ghost predicate UnitSound(e: MemOp, spans: seq<Span>) { forall u :: UnitCovered(spans, u) ==> UnitTouched(e, u) }
  ghost predicate UnitComplete(e: MemOp, spans: seq<Span>) { forall u :: UnitTouched(e, u) ==> UnitCovered(spans, u) }

  lemma CellsSuffice(e: MemOp, spans: seq<Span>)
    requires e.blockSize >= 1
    ensures UnitSound(e, spans) ==> Sound(e, ScaledAll(e, spans))
    ensures UnitComplete(e, spans) <==> Complete(e, ScaledAll(e, spans))
  {
    forall a: nat ensures Covered(ScaledAll(e, spans), a) <==> a >= e.addr && UnitCovered(spans, (a - e.addr) / e.blockSize) {
      CoveredCells(e, spans, a);
    }
    forall a: nat ensures Touched(e, a) <==> a >= e.addr && UnitTouched(e, (a - e.addr) / e.blockSize) {
      TouchedCells(e, a);
    }
    if Complete(e, ScaledAll(e, spans)) {
      forall u: nat | UnitTouched(e, u) ensures UnitCovered(spans, u) {
        var a := e.addr + u * e.blockSize;
        assert (a - e.addr) / e.blockSize == u by { CellBounds(a - e.addr, e.blockSize, u, 1); }
        assert Touched(e, a);
      }
    }
  }

  /** The records cover exactly the recorded bytes. */
  ghost predicate CoverRecorded(e: MemOp, records: seq<Record>) { forall a :: Covered(records, a) <==> Recorded(e, a) }

  /** Records made of spans cover what the spans do. */
  lemma RecordsCover(e: MemOp, spans: seq<Span>)
    requires e.repeatTimes >= 1 && (e.blockSize >= 1 ==> forall u: nat :: UnitCovered(spans, u) <==> RecordedCell(e, u))
    ensures CoverRecorded(e, ScaledAll(e, spans))
  {
    CoverCells(e, spans, RecordedCells(e));
  }

  lemma CoverCells(e: MemOp, spans: seq<Span>, cells: iset<nat>)
    requires e.repeatTimes >= 1 && cells == RecordedCells(e)
    requires e.blockSize >= 1 ==> forall u: nat :: UnitCovered(spans, u) <==> u in cells
    ensures CoverRecorded(e, ScaledAll(e, spans))
  {
    forall a: nat ensures Covered(ScaledAll(e, spans), a) <==> Recorded(e, a) {
      if e.blockSize >= 1 {
        CoveredCells(e, spans, a);
        RecordedInCell(e, a, cells);
      }
    }
  }

  lemma RecordedInCell(e: MemOp, a: nat, cells: iset<nat>)
    requires e.blockSize >= 1 && e.repeatTimes >= 1 && cells == RecordedCells(e)
    ensures Recorded(e, a) <==> a >= e.addr && (a - e.addr) / e.blockSize in cells
  {
    if a >= e.addr { CellOf(e, (a - e.addr) / e.blockSize, a); }
    if u: nat :| u in cells && InCell(e, u, a) { CellOf(e, u, a); }
  }

  lemma CellOf(e: MemOp, u: nat, a: nat)
    requires e.blockSize >= 1
    ensures InCell(e, u, a) <==> a >= e.addr && u == (a - e.addr) / e.blockSize
  {
    if a >= e.addr { CellBounds(a - e.addr, e.blockSize, u, 1); }
  }

  lemma RepeatsWithin(n: nat, step: nat, width: nat, u: nat)
    ensures UnitCovered(Repeats(n, step, width), u) <==> InSome(n, step, width, u)
  {
    var spans := Repeats(n, step, width);
    if k :| 0 <= k < n && Within(k, step, width, u) { assert spans[k].Has(u); }
    if k :| 0 <= k < |spans| && spans[k].Has(u) { assert Within(k, step, width, u); }
  }

  // ------------------------------------------------------------------ gapless repeats

  function Repeats(n: nat, step: nat, width: nat): seq<Span> { seq(n, k requires 0 <= k < n => Span(k * step, width)) }

  lemma RepeatsCover(n: nat, step: nat, width: nat, k: nat, u: nat)
    requires k < n && k * step <= u < k * step + width
    ensures UnitCovered(Repeats(n, step, width), u)
  {
    assert Repeats(n, step, width)[k].Has(u);
  }

  /** With blockStride at most one, repeat r touches Width cells from r * repeatStride on. */
  lemma SingleTouched(e: MemOp, u: nat)
    requires Regular(e) && e.blockStride <= 1
    ensures UnitTouched(e, u) <==> UnitCovered(Repeats(e.repeatTimes, e.repeatStride, Width(e)), u)
  {
    var spans := Repeats(e.repeatTimes, e.repeatStride, Width(e));
    if UnitTouched(e, u) {
      var r, b :| 0 <= r < e.repeatTimes && 0 <= b < e.blockNum && Place(e, r, b) == u;
      assert b * e.blockStride == if e.blockStride == 1 then b else 0;
      assert spans[r].Has(u);
    }
    if UnitCovered(spans, u) {
      var r :| 0 <= r < |spans| && spans[r].Has(u);
      var b := u - r * e.repeatStride;
      assert b * e.blockStride == if e.blockStride == 1 then b else 0;
      assert Place(e, r, b) == u;
    }
  }

  lemma MulMonotone(x: nat, y: nat, d: nat)
    requires x <= y
    ensures x * d <= y * d
  {
  }

  /** Repeats that touch or overlap make up one span. */
  lemma GaplessRepeats(n: nat, step: nat, width: nat, u: nat)
    requires n >= 1 && step <= width
    ensures UnitCovered(Repeats(n, step, width), u) <==> u < (n - 1) * step + width
  {
    if UnitCovered(Repeats(n, step, width), u) {
      var k :| 0 <= k < n && Repeats(n, step, width)[k].Has(u);
      MulMonotone(k, n - 1, step);
    }
    if u < (n - 1) * step + width { GaplessReach(n, step, width, u); }
  }

  lemma {:induction false} GaplessReach(n: nat, step: nat, width: nat, u: nat)
    requires n >= 1 && step <= width && u < (n - 1) * step + width
    ensures UnitCovered(Repeats(n, step, width), u)
  {
    if u >= (n - 1) * step {
      RepeatsCover(n, step, width, n - 1, u);
    } else {
      assert (n - 1) * step == (n - 2) * step + step;
      GaplessReach(n - 1, step, width, u);
      FewerRepeats(n, n - 1, step, width, u);
    }
  }

  /** Cutting the number of repeats loses cells when they do not overlap. */
  lemma CutRepeats(n: nat, m: nat, step: nat, width: nat)
    requires m < n && 1 <= width <= step
    ensures UnitCovered(Repeats(n, step, width), m * step) && !UnitCovered(Repeats(m, step, width), m * step)
  {
    RepeatsCover(n, step, width, m, m * step);
    var spans, u := Repeats(m, step, width), m * step;
    forall k | 0 <= k < m ensures !spans[k].Has(u) {
      MulMonotone(k + 1, m, step);
      assert (k + 1) * step == k * step + step;
    }
  }

  lemma FewerRepeats(n: nat, m: nat, step: nat, width: nat, u: nat)
    requires m <= n && UnitCovered(Repeats(m, step, width), u)
    ensures UnitCovered(Repeats(n, step, width), u)
  {
    var k :| 0 <= k < m && Repeats(m, step, width)[k].Has(u);
    RepeatsCover(n, step, width, k, u);
  }

  // ------------------------------------------------------------------ ConvertSingleRecordRepeats

  lemma SingleMerged(e: MemOp, count: nat)
    requires Regular(e) && e.blockStride <= 1 && e.repeatTimes >= 1 && e.repeatStride <= Width(e)
    requires count == (e.repeatTimes - 1) * e.repeatStride + Width(e)
    ensures var records := [Scaled(e, Span(0, count))]; Sound(e, records) && Complete(e, records)
  {
    var spans := [Span(0, count)];
    forall u: nat ensures UnitCovered(spans, u) <==> UnitTouched(e, u) {
      SingleTouched(e, u);
      GaplessRepeats(e.repeatTimes, e.repeatStride, Width(e), u);
      assert spans[0].Has(u) <==> u < count;
    }
    CellsSuffice(e, spans);
    assert ScaledAll(e, spans) == [Scaled(e, Span(0, count))];
  }

  lemma SingleSeparate(e: MemOp, times: nat)
    requires Regular(e) && e.blockStride <= 1 && e.repeatStride > Width(e)
    requires times == if e.repeatTimes > MAX_REPEATS then MAX_REPEATS else e.repeatTimes
    ensures var records := ScaledAll(e, Repeats(times, e.repeatStride, Width(e)));
            Sound(e, records) && (Complete(e, records) <==> e.repeatTimes <= MAX_REPEATS)
  {
    var spans := Repeats(times, e.repeatStride, Width(e));
    forall u: nat ensures UnitTouched(e, u) <==> UnitCovered(Repeats(e.repeatTimes, e.repeatStride, Width(e)), u) {
      SingleTouched(e, u);
    }
    forall u: nat | UnitCovered(spans, u) ensures UnitTouched(e, u) {
      FewerRepeats(e.repeatTimes, times, e.repeatStride, Width(e), u);
    }
    if times < e.repeatTimes { CutRepeats(e.repeatTimes, times, e.repeatStride, Width(e)); }
    CellsSuffice(e, spans);
  }

  /** The byte sizes the source compares are the cell counts, scaled. */
  lemma SizesScale(e: MemOp)
    requires InRange(e) && e.blockStride <= 1 && e.repeatTimes >= 1
    ensures (if e.blockStride == 1 then Times32(e.blockSize, e.blockNum) else e.blockSize) == Width(e) * e.blockSize
    ensures Times32(e.repeatStride, e.blockSize) == e.repeatStride * e.blockSize
    ensures e.blockSize >= 1 ==> (e.repeatStride * e.blockSize <= Width(e) * e.blockSize <==> e.repeatStride <= Width(e))
  {
    if e.blockStride == 1 { Fits(e.blockSize, e.blockNum); }
    Fits(e.repeatStride, e.blockSize);
    if e.blockSize >= 1 { MulCompare(e.repeatStride, Width(e), e.blockSize); }
  }

  lemma Fits(x: nat, y: nat)
    requires x * y < WORD
    ensures Times32(x, y) == x * y == y * x
  {
  }

  lemma MulCompare(x: nat, y: nat, d: nat)
    requires d >= 1
    ensures x * d <= y * d <==> x <= y
  {
    if x <= y { MulMonotone(x, y, d); } else {
      MulMonotone(y + 1, x, d);
      assert (y + 1) * d == y * d + d;
    }
  }

  lemma Distribute(t: nat, d: nat, r: nat, w: nat)
    ensures t * d * r + w * d == (r * t + w) * d
  {
    assert t * d * r == (r * t) * d;
    assert (r * t + w) * d == (r * t) * d + w * d;
  }

  /** Nothing is touched, so the records must all be empty. */
  lemma Degenerate(e: MemOp, records: seq<Record>)
    requires !Regular(e)
    ensures Complete(e, records)
    ensures Sound(e, records) <==> forall i :: 0 <= i < |records| ==> records[i].memSize == 0
  {
    forall a: nat ensures !Touched(e, a) { }
    if i :| 0 <= i < |records| && records[i].memSize > 0 {
      assert records[i].Has(records[i].dstAddr);
      assert Covered(records, records[i].dstAddr);
    }
  }

  lemma DegenerateOne(e: MemOp, s: Span)
    requires !Regular(e)
    ensures Complete(e, [Scaled(e, s)]) && (Sound(e, [Scaled(e, s)]) <==> s.count * e.blockSize == 0)
  {
    var records := [Scaled(e, s)];
    Degenerate(e, records);
    assert records[0].memSize == s.count * e.blockSize;
  }

  lemma DegenerateRepeats(e: MemOp, n: nat, step: nat, width: nat)
    requires !Regular(e)
    ensures var records := ScaledAll(e, Repeats(n, step, width));
            Complete(e, records) && (Sound(e, records) <==> n == 0 || width * e.blockSize == 0)
  {
    var records := ScaledAll(e, Repeats(n, step, width));
    Degenerate(e, records);
    if n > 0 { assert records[0].memSize == width * e.blockSize; }
  }

  /** The records cover what they should, exactly under the conditions stated. */
  ghost predicate Judged(e: MemOp, records: seq<Record>) {
    && CoverRecorded(e, records)
    && (Sound(e, records) <==> Safe(e)) && (Complete(e, records) <==> Exact(e))
  }

  lemma RecordOne(e: MemOp, count: nat)
    requires e.repeatTimes >= 1 && (e.blockSize >= 1 ==> forall u: nat :: RecordedCell(e, u) <==> u < count)
    ensures CoverRecorded(e, [Scaled(e, Span(0, count))])
  {
    var spans := [Span(0, count)];
    forall u: nat ensures UnitCovered(spans, u) <==> u < count { assert spans[0].Has(u) <==> u < count; }
    RecordsCover(e, spans);
    assert ScaledAll(e, spans) == [Scaled(e, Span(0, count))];
  }

  lemma RecordRepeats(e: MemOp, n: nat, step: nat, width: nat)
    requires e.repeatTimes >= 1 && (e.blockSize >= 1 ==> forall u: nat :: RecordedCell(e, u) <==> InSome(n, step, width, u))
    ensures CoverRecorded(e, ScaledAll(e, Repeats(n, step, width)))
  {
    forall u: nat ensures UnitCovered(Repeats(n, step, width), u) <==> InSome(n, step, width, u) {
      RepeatsWithin(n, step, width, u);
    }
    RecordsCover(e, Repeats(n, step, width));
  }

  lemma JudgeMerged(e: MemOp, count: nat)
    requires e.blockStride <= 1 && e.repeatTimes >= 1 && (e.blockSize >= 1 ==> e.repeatStride <= Width(e))
    requires count == (e.repeatTimes - 1) * e.repeatStride + Width(e)
    ensures Judged(e, [Scaled(e, Span(0, count))])
  {
    RecordOne(e, count);
    if Regular(e) {
      SingleMerged(e, count);
    } else {
      DegenerateOne(e, Span(0, count));
      if e.blockSize >= 1 && e.blockStride == 0 { MulMonotone(1, count, e.blockSize); }
    }
  }

  lemma JudgeSeparate(e: MemOp, times: nat)
    requires e.blockStride <= 1 && e.blockSize >= 1 && e.repeatStride > Width(e) && e.repeatTimes >= 1
    requires times == if e.repeatTimes > MAX_REPEATS then MAX_REPEATS else e.repeatTimes
    ensures Judged(e, ScaledAll(e, Repeats(times, e.repeatStride, Width(e))))
  {
    RecordRepeats(e, times, e.repeatStride, Width(e));
    if Regular(e) { SingleSeparate(e, times); } else { DegenerateRepeats(e, times, e.repeatStride, Width(e)); }
  }

  method ConvertSingle(e: MemOp) returns (records: seq<Record>)
    requires InRange(e) && e.blockStride <= 1 && e.repeatTimes >= 1
    ensures Judged(e, records)
  {
    var memSize, repeatStrideSize := SingleSizes(e);
    if e.repeatStride == 0 {
      records := [Record(e.addr, memSize)];
      FromStart(e, Width(e));
      JudgeMerged(e, Width(e));
    } else if repeatStrideSize <= memSize {
      records := [Record(e.addr, repeatStrideSize * (e.repeatTimes - 1) + memSize)];
      MergedRecord(e, memSize, repeatStrideSize);
    } else {
      var times := if e.repeatTimes > MAX_REPEATS then MAX_REPEATS else e.repeatTimes;
      records := AppendRepeats(e, times, e.repeatStride, Width(e), repeatStrideSize, memSize);
      JudgeSeparate(e, times);
    }
  }

  /** The byte sizes the source compares, computed in 32 bits: they are the cell counts, scaled. */
  method SingleSizes(e: MemOp) returns (memSize: nat, stride: nat)
    requires InRange(e) && e.blockStride <= 1 && e.repeatTimes >= 1
    ensures memSize == Width(e) * e.blockSize && stride == e.repeatStride * e.blockSize
    ensures e.blockSize >= 1 ==> (stride <= memSize <==> e.repeatStride <= Width(e))
    ensures e.blockSize == 0 ==> stride <= memSize
  {
    memSize := if e.blockStride == 1 then Times32(e.blockSize, e.blockNum) else e.blockSize;
    stride := Times32(e.repeatStride, e.blockSize);
    SizesScale(e);
  }

  lemma MergedRecord(e: MemOp, memSize: nat, stride: nat)
    requires e.blockStride <= 1 && e.repeatTimes >= 1 && (e.blockSize >= 1 ==> e.repeatStride <= Width(e))
    requires memSize == Width(e) * e.blockSize && stride == e.repeatStride * e.blockSize
    ensures Judged(e, [Record(e.addr, stride * (e.repeatTimes - 1) + memSize)])
  {
    var count := (e.repeatTimes - 1) * e.repeatStride + Width(e);
    Distribute(e.repeatStride, e.blockSize, e.repeatTimes - 1, Width(e));
    FromStart(e, count);
    JudgeMerged(e, count);
  }

  lemma FromStart(e: MemOp, count: nat)
    ensures Scaled(e, Span(0, count)) == Record(e.addr, count * e.blockSize)
  {
  }

  /** A loop that appends equal records at equal distances. */
  method AppendRepeats(e: MemOp, times: nat, ghost step: nat, ghost width: nat, stride: nat, size: nat)
    returns (records: seq<Record>)
    requires stride == step * e.blockSize && size == width * e.blockSize
    ensures records == ScaledAll(e, Repeats(times, step, width))
  {
    records := [];
    for i := 0 to times
      invariant records == ScaledAll(e, Repeats(i, step, width))
    {
      records := records + [Record(e.addr + i * stride, size)];
      assert i * stride == (i * step) * e.blockSize;
    }
  }

  // ------------------------------------------------------------------ ConvertMutiRecordRepeats

  lemma AtPlace(e: MemOp, r: nat, b: nat, u: nat)
    requires r < e.repeatTimes && b < e.blockNum && u == r * e.repeatStride + b * e.blockStride
    ensures UnitTouched(e, u)
  {
    assert Place(e, r, b) == u;
  }

  /** repeatStride 0: only the first block is recorded, once for each block. */
  lemma SameRepeats(e: MemOp)
    requires Regular(e) && e.blockStride >= 2 && e.repeatStride == 0 && e.repeatTimes >= 1
    ensures var records := ScaledAll(e, Repeats(e.blockNum, 0, 1));
            Sound(e, records) && (Complete(e, records) <==> e.blockNum == 1)
  {
    var spans := Repeats(e.blockNum, 0, 1);
    forall u: nat ensures UnitCovered(spans, u) <==> u == 0 {
      if u == 0 { RepeatsCover(e.blockNum, 0, 1, 0, u); }
    }
    AtPlace(e, 0, 0, 0);
    if e.blockNum >= 2 { AtPlace(e, 0, 1, e.blockStride); }
    CellsSuffice(e, spans);
  }

  /** repeatStride 1 with as many repeats as a stride is wide: one record, too short as soon as there are two blocks. */
  lemma DenseRepeats(e: MemOp)
    requires Regular(e) && e.blockStride >= 2 && e.repeatStride == 1 && e.repeatTimes >= e.blockStride
    ensures var records := [Scaled(e, Span(0, e.blockNum - 1 + e.repeatTimes))];
            Sound(e, records) && (Complete(e, records) <==> e.blockNum == 1)
  {
    var n := e.blockNum - 1 + e.repeatTimes;
    var spans := [Span(0, n)];
    assert forall u: nat :: UnitCovered(spans, u) <==> spans[0].Has(u);
    forall u: nat | u < n ensures UnitTouched(e, u) { DenseReach(e, u); }
    if e.blockNum >= 2 {
      var last := DenseEnd(e);
      assert !spans[0].Has(last);
    } else {
      forall u: nat | UnitTouched(e, u) ensures u < n { }
    }
    CellsSuffice(e, spans);
    assert ScaledAll(e, spans) == [Scaled(e, Span(0, n))];
  }

  lemma DenseEnd(e: MemOp) returns (last: nat)
    requires Regular(e) && e.blockStride >= 2 && e.repeatStride == 1 && e.repeatTimes >= 1 && e.blockNum >= 2
    ensures UnitTouched(e, last) && last >= e.blockNum - 1 + e.repeatTimes
  {
    last := (e.blockNum - 1) * e.blockStride + e.repeatTimes - 1;
    AtPlace(e, e.repeatTimes - 1, e.blockNum - 1, last);
    MulMonotone(2, e.blockStride, e.blockNum - 1);
  }

  lemma DenseReach(e: MemOp, u: nat)
    requires Regular(e) && e.blockStride >= 2 && e.repeatStride == 1 && e.repeatTimes >= e.blockStride
    requires u < e.blockNum - 1 + e.repeatTimes
    ensures UnitTouched(e, u)
  {
    MulMonotone(1, e.blockStride, e.blockNum - 1);
    GaplessReach(e.blockNum, e.blockStride, e.repeatTimes, u);
    var b :| 0 <= b < e.blockNum && Repeats(e.blockNum, e.blockStride, e.repeatTimes)[b].Has(u);
    AtPlace(e, u - b * e.blockStride, b, u);
  }

  /** repeatStride 1 with few repeats: the repeats widen each block. */
  lemma WidenedBlocks(e: MemOp)
    requires Regular(e) && e.blockStride >= 2 && e.repeatStride == 1
    ensures var records := ScaledAll(e, Repeats(e.blockNum, e.blockStride, e.repeatTimes));
            Sound(e, records) && Complete(e, records)
  {
    var spans := Repeats(e.blockNum, e.blockStride, e.repeatTimes);
    forall u: nat | UnitCovered(spans, u) ensures UnitTouched(e, u) {
      var b :| 0 <= b < e.blockNum && spans[b].Has(u);
      AtPlace(e, u - b * e.blockStride, b, u);
    }
    forall u: nat | UnitTouched(e, u) ensures UnitCovered(spans, u) {
      var r, b :| 0 <= r < e.repeatTimes && 0 <= b < e.blockNum && Place(e, r, b) == u;
      RepeatsCover(e.blockNum, e.blockStride, e.repeatTimes, b, u);
    }
    CellsSuffice(e, spans);
  }

  /** Equal strides: the diagonal is recorded up to the larger count only. */
  lemma Diagonal(e: MemOp, n: nat)
    requires Regular(e) && e.blockStride >= 2 && e.repeatStride == e.blockStride && e.repeatTimes >= 1
    requires n == if e.blockNum < e.repeatTimes then e.repeatTimes else e.blockNum
    ensures var records := ScaledAll(e, Repeats(n, e.blockStride, 1));
            Sound(e, records) && (Complete(e, records) <==> e.blockNum == 1 || e.repeatTimes == 1)
  {
    var spans, s := Repeats(n, e.blockStride, 1), e.blockStride;
    forall u: nat | UnitCovered(spans, u) ensures UnitTouched(e, u) {
      var k :| 0 <= k < n && spans[k].Has(u);
      if k < e.repeatTimes { AtPlace(e, k, 0, u); } else { AtPlace(e, 0, k, u); }
    }
    forall u: nat | UnitTouched(e, u) ensures exists k :: 0 <= k < e.blockNum + e.repeatTimes - 1 && OnDiagonal(s, k, u) {
      var r, b :| 0 <= r < e.repeatTimes && 0 <= b < e.blockNum && Place(e, r, b) == u;
      assert (r + b) * s == r * s + b * s;
      assert OnDiagonal(s, r + b, u);
    }
    if e.blockNum == 1 || e.repeatTimes == 1 {
      forall u: nat | UnitTouched(e, u) ensures UnitCovered(spans, u) {
        var k :| 0 <= k < e.blockNum + e.repeatTimes - 1 && OnDiagonal(s, k, u);
        RepeatsCover(n, s, 1, k, u);
      }
    } else {
      DiagonalEnd(e, n);
    }
    CellsSuffice(e, spans);
  }

  ghost predicate OnDiagonal(s: nat, k: nat, u: nat) { u == k * s }

  lemma OneMore(n: nat, s: nat)
    requires n >= 1
    ensures n * s == (n - 1) * s + 1 * s == 1 * s + (n - 1) * s
  {
  }

  lemma DiagonalEnd(e: MemOp, n: nat)
    requires Regular(e) && e.blockStride >= 2 && e.repeatStride == e.blockStride && e.repeatTimes >= 2 && e.blockNum >= 2
    requires n == if e.blockNum < e.repeatTimes then e.repeatTimes else e.blockNum
    ensures !UnitComplete(e, Repeats(n, e.blockStride, 1))
  {
    var s := e.blockStride;
    if n == e.repeatTimes {
      OneMore(n, s);
      AtPlace(e, n - 1, 1, n * s);
    } else {
      OneMore(n, s);
      AtPlace(e, 1, n - 1, n * s);
    }
    CutRepeats(n + 1, n, s, 1);
  }

  /** Every block of the first n repeats on its own. */
  ghost function Grid(e: MemOp, n: nat): seq<Span> {
    if n == 0 then [] else Grid(e, n - 1) + GridRow(e, n - 1, e.blockNum)
  }

  ghost function GridRow(e: MemOp, r: nat, m: nat): seq<Span> { seq(m, b requires 0 <= b < m => Span(Place(e, r, b), 1)) }

  lemma {:induction false} GridCovers(e: MemOp, n: nat, u: nat)
    ensures UnitCovered(Grid(e, n), u) <==> exists r, b :: 0 <= r < n && 0 <= b < e.blockNum && Place(e, r, b) == u
  {
    if n > 0 {
      GridCovers(e, n - 1, u);
      var before, row := Grid(e, n - 1), GridRow(e, n - 1, e.blockNum);
      CoveredConcat(before, row, u);
      var last := n - 1;
      forall b | 0 <= b < e.blockNum ensures row[b].Has(u) <==> Place(e, last, b) == u { }
    }
  }

  lemma CoveredConcat(s: seq<Span>, t: seq<Span>, u: nat)
    ensures UnitCovered(s + t, u) <==> UnitCovered(s, u) || UnitCovered(t, u)
  {
    var st := s + t;
    if i :| 0 <= i < |s| && s[i].Has(u) { assert st[i].Has(u); }
    if i :| 0 <= i < |t| && t[i].Has(u) { assert st[|s| + i].Has(u); }
    if i :| 0 <= i < |st| && st[i].Has(u) { assert if i < |s| then s[i].Has(u) else t[i - |s|].Has(u); }
  }

  lemma NestedLoop(e: MemOp, times: nat)
    requires Regular(e) && e.repeatStride >= 1
    requires times == if e.repeatTimes > MAX_REPEATS then MAX_REPEATS else e.repeatTimes
    ensures var records := ScaledAll(e, Grid(e, times));
            Sound(e, records) && (Complete(e, records) <==> e.repeatTimes <= MAX_REPEATS)
  {
    var spans := Grid(e, times);
    forall u: nat
      ensures UnitCovered(spans, u) <==> exists r, b :: 0 <= r < times && 0 <= b < e.blockNum && Place(e, r, b) == u
    {
      GridCovers(e, times, u);
    }
    if times < e.repeatTimes {
      var last := times * e.repeatStride + (e.blockNum - 1) * e.blockStride;
      AtPlace(e, times, e.blockNum - 1, last);
      forall r, b | 0 <= r < times && 0 <= b < e.blockNum ensures Place(e, r, b) != last {
        BeforeLast(e, r, b, times, last);
      }
      assert !UnitCovered(spans, last);
    }
    CellsSuffice(e, spans);
  }

  lemma BeforeLast(e: MemOp, r: nat, b: nat, times: nat, last: nat)
    requires r < times && b < e.blockNum && e.repeatStride >= 1
    requires last == times * e.repeatStride + (e.blockNum - 1) * e.blockStride
    ensures Place(e, r, b) < last
  {
    MulMonotone(r + 1, times, e.repeatStride);
    MulMonotone(b, e.blockNum - 1, e.blockStride);
    assert (r + 1) * e.repeatStride == r * e.repeatStride + e.repeatStride;
  }

  lemma JudgeSame(e: MemOp)
    requires e.blockStride >= 2 && e.repeatTimes >= 1 && e.repeatStride == 0
    ensures Judged(e, ScaledAll(e, Repeats(e.blockNum, 0, 1)))
  {
    forall u: nat ensures InSome(e.blockNum, 0, 1, u) <==> e.blockNum >= 1 && u == 0 {
      if e.blockNum >= 1 && u == 0 { assert Within(0, 0, 1, u); }
    }
    RecordRepeats(e, e.blockNum, 0, 1);
    if Regular(e) { SameRepeats(e); } else { DegenerateRepeats(e, e.blockNum, 0, 1); }
  }

  /** Without blocks the single record is one cell shorter than the repeats, and there are at least two of them. */
  lemma JudgeDense(e: MemOp, count: nat)
    requires e.blockStride >= 2 && Dense(e)
    requires count == CellsOfDense(e)
    ensures Judged(e, [Scaled(e, Span(0, count))])
  {
    RecordOne(e, count);
    if Regular(e) {
      DenseRepeats(e);
    } else {
      DegenerateOne(e, Span(0, count));
      if e.blockSize >= 1 { MulMonotone(1, count, e.blockSize); }
    }
  }

  lemma JudgeWidened(e: MemOp)
    requires e.blockStride >= 2 && e.repeatStride == 1 && 1 <= e.repeatTimes < e.blockStride
    ensures Judged(e, ScaledAll(e, Repeats(e.blockNum, e.blockStride, e.repeatTimes)))
  {
    RecordRepeats(e, e.blockNum, e.blockStride, e.repeatTimes);
    if Regular(e) { WidenedBlocks(e); } else { DegenerateRepeats(e, e.blockNum, e.blockStride, e.repeatTimes); }
  }

  lemma JudgeDiagonal(e: MemOp, n: nat)
    requires e.blockStride >= 2 && e.repeatStride == e.blockStride && e.repeatTimes >= 1
    requires n == if e.blockNum < e.repeatTimes then e.repeatTimes else e.blockNum
    ensures Judged(e, ScaledAll(e, Repeats(n, e.blockStride, 1)))
  {
    RecordRepeats(e, n, e.blockStride, 1);
    if Regular(e) { Diagonal(e, n); } else { DegenerateRepeats(e, n, e.blockStride, 1); }
  }

  lemma JudgeNested(e: MemOp, times: nat)
    requires e.blockStride >= 2 && e.repeatStride >= 2 && e.repeatStride != e.blockStride && e.repeatTimes >= 1
    requires times == if e.repeatTimes > MAX_REPEATS then MAX_REPEATS else e.repeatTimes
    ensures Judged(e, ScaledAll(e, Grid(e, times)))
  {
    forall u: nat ensures UnitCovered(Grid(e, times), u) <==> RecordedCell(e, u) { GridCovers(e, times, u); }
    RecordsCover(e, Grid(e, times));
    if Regular(e) {
      NestedLoop(e, times);
    } else {
      EmptyGrid(e, times);
      Degenerate(e, ScaledAll(e, Grid(e, times)));
    }
  }

  method ConvertMulti(e: MemOp) returns (records: seq<Record>)
    requires InRange(e) && e.blockStride >= 2 && e.repeatTimes >= 1
    ensures Judged(e, records)
  {
    if e.repeatStride == 0 {
      records := AppendRepeats(e, e.blockNum, 0, 1, 0, e.blockSize);
      JudgeSame(e);
    } else if e.repeatStride == 1 && e.repeatTimes >= e.blockStride {
      var count := DenseCount(e);
      records := [Record(e.addr, Times32(count, e.blockSize))];
      JudgeDense(e, CellsOfDense(e));
    } else if e.repeatStride == 1 && e.repeatTimes < e.blockStride {
      Fits(e.repeatTimes, e.blockSize);
      records := AppendRepeats(e, e.blockNum, e.blockStride, e.repeatTimes, e.blockStride * e.blockSize,
                               Times32(e.repeatTimes, e.blockSize));
      JudgeWidened(e);
    } else if e.repeatStride == e.blockStride {
      var n := if e.blockNum < e.repeatTimes then e.repeatTimes else e.blockNum;
      records := AppendRepeats(e, n, e.blockStride, 1, e.blockStride * e.blockSize, e.blockSize);
      JudgeDiagonal(e, n);
    } else {
      var times := if e.repeatTimes > MAX_REPEATS then MAX_REPEATS else e.repeatTimes;
      records := AppendGrid(e, times);
      JudgeNested(e, times);
    }
  }

  /** The 32-bit result is the true one. */
  method DenseCount(e: MemOp) returns (count: nat)
    requires e.repeatTimes >= 1 && CellsOfDense(e) * e.blockSize < WORD
    ensures Times32(count, e.blockSize) == CellsOfDense(e) * e.blockSize
  {
    count := (Less32(e.blockNum, 1) + e.repeatTimes) % WORD;
    if e.blockSize >= 1 {
      MulMonotone(1, e.blockSize, CellsOfDense(e));
      assert count == CellsOfDense(e);
      Fits(count, e.blockSize);
    }
  }

  lemma {:induction false} EmptyGrid(e: MemOp, n: nat)
    requires !Regular(e)
    ensures forall i :: 0 <= i < |ScaledAll(e, Grid(e, n))| ==> ScaledAll(e, Grid(e, n))[i].memSize == 0
  {
    if n > 0 {
      EmptyGrid(e, n - 1);
      ScaledConcat(e, Grid(e, n - 1), GridRow(e, n - 1, e.blockNum));
    }
  }

  method AppendGrid(e: MemOp, times: nat) returns (records: seq<Record>)
    ensures records == ScaledAll(e, Grid(e, times))
  {
    records := [];
    for r := 0 to times
      invariant records == ScaledAll(e, Grid(e, r))
    {
      var row := AppendRow(e, r, e.addr + r * e.blockSize * e.repeatStride);
      ScaledConcat(e, Grid(e, r), GridRow(e, r, e.blockNum));
      records := records + row;
    }
  }

  lemma ScaledConcat(e: MemOp, s: seq<Span>, t: seq<Span>)
    ensures ScaledAll(e, s + t) == ScaledAll(e, s) + ScaledAll(e, t)
  {
  }

  method AppendRow(e: MemOp, r: nat, repeatAddr: nat) returns (row: seq<Record>)
    requires repeatAddr == e.addr + r * e.blockSize * e.repeatStride
    ensures row == ScaledAll(e, GridRow(e, r, e.blockNum))
  {
    row := [];
    for b := 0 to e.blockNum
      invariant row == ScaledAll(e, GridRow(e, r, b))
    {
      PlaceAddress(e, r, b);
      row := row + [Record(repeatAddr + b * e.blockStride * e.blockSize, e.blockSize)];
    }
  }

  lemma PlaceAddress(e: MemOp, r: nat, b: nat)
    ensures e.addr + r * e.blockSize * e.repeatStride + b * e.blockStride * e.blockSize == e.addr + Place(e, r, b) * e.blockSize
  {
    assert r * e.blockSize * e.repeatStride == (r * e.repeatStride) * e.blockSize;
    assert (r * e.repeatStride + b * e.blockStride) * e.blockSize
        == (r * e.repeatStride) * e.blockSize + (b * e.blockStride) * e.blockSize;
  }

  /**
   * ConvertMemEventRecords: only bytes of the event are recorded exactly when Safe says so, and all of them
   * are recorded exactly when Exact does.
   */
  method Convert(e: MemOp) returns (records: seq<Record>)
    requires InRange(e)
    ensures Judged(e, records)
  {
    if e.repeatTimes == 0 { return []; }
    if e.blockStride <= 1 {
      records := ConvertSingle(e);
    } else {
      records := ConvertMulti(e);
    }
  }

  /** Two blocks, two apart, repeated at the same place: byte 64 is touched and the records miss it. */
  lemma MissedBlock(e: MemOp)
    requires e == MemOp(0, 2, 32, 2, 1, 0)
    ensures InRange(e) && Safe(e) && !Exact(e) && Touched(e, 64) && !Covered(ScaledAll(e, Repeats(e.blockNum, 0, 1)), 64)
  {
    AtPlace(e, 0, 1, 2);
    TouchedCells(e, 64);
    CoveredCells(e, Repeats(e.blockNum, 0, 1), 64);
  }
}
