/**
 * Cross-core flags in mode 4: a cube core and the two vector cores of its group signal each other one to one.
 * The cube core's ids 0 to 15 belong to the first vector core and 16 to 31 to the second, which call them 0 to 15.
 */
module IntraBlockSync {
  import opened VectorTime
  import Flags = FlagTeams
  import Runs = FlagRuns

  /** A flag as one block names it. */
  datatype Slot = Slot(block: nat, id: nat)

  /** The hardware drops the high bits of an id on a vector core. */
  function Masked(s: Slot): Slot { if !Flags.IsAIC(s.block) && s.id >= 16 then s.(id := s.id % 16) else s }

  predicate Proper(s: Slot) { s.id < if Flags.IsAIC(s.block) then 32 else 16 }

  /** The queue a set goes to; `solo` kernels have one vector core for each cube core. */
  function Route(solo: bool, s: Slot): Slot {
    if solo then Slot(if Flags.IsAIC(s.block) then Flags.VectorOf(s.block) else Flags.CubeOf(s.block), s.id)
    else if Flags.IsAIC(s.block) then (if s.id <= 15 then Slot(s.block - 2, s.id) else Slot(s.block - 1, s.id - 16))
    else if s.block == s.block / 3 * 3 then Slot(Flags.Cube(s.block), s.id)
    else Slot(Flags.Cube(s.block), s.id + 16)
  }

  /** Whoever signals is signalled back on the same route. */
  lemma RouteBack(solo: bool, s: Slot)
    requires Proper(s) || (solo && s.id < 32)
    ensures Route(solo, Route(solo, s)) == s
    ensures !solo ==> Proper(Route(solo, s))
  {
    if solo {
      Flags.Partners(s.block);
    } else {
      Flags.InGroup(s.block);
      var g := s.block / 3;
      if Flags.IsAIC(s.block) { assert s.block == g * 3 + 2; }
    }
  }

  /** So each queue has exactly one sender, and no two senders share one. */
  lemma OneSender(solo: bool, s: Slot, q: Slot)
    requires Proper(s) && Proper(q)
    ensures Route(solo, s) == q <==> s == Route(solo, q)
  {
    RouteBack(solo, s);
    RouteBack(solo, q);
  }

  /** On one-to-one kernels a cube core's ids from 16 on go to a queue its vector core can never read. */
  lemma LostOnSolo(s: Slot, wait: Slot)
    requires Flags.IsAIC(s.block) && 16 <= s.id < 32 && !Flags.IsAIC(wait.block)
    ensures Route(true, s) != Masked(wait)
  {
  }

  /**
   * The route of each kind of block.  In group g the vector cores are blocks 3g and 3g + 1 and the cube core is
   * 3g + 2: the first vector core and the cube core keep the id, the second one's ids are 16 higher on the cube core.
   */
  lemma RouteTable(g: nat, id: nat)
    requires id < 16
    ensures Route(false, Slot(3 * g, id)) == Slot(3 * g + 2, id)
    ensures Route(false, Slot(3 * g + 1, id)) == Slot(3 * g + 2, id + 16)
    ensures Route(false, Slot(3 * g + 2, id)) == Slot(3 * g, id)
    ensures Route(false, Slot(3 * g + 2, id + 16)) == Slot(3 * g + 1, id)
    ensures Masked(Slot(3 * g, id + 16)) == Slot(3 * g, id) && Masked(Slot(3 * g + 1, id + 16)) == Slot(3 * g + 1, id)
    ensures Masked(Slot(3 * g + 2, id + 16)) == Slot(3 * g + 2, id + 16)
  {
    var v, w, cube := 3 * g, 3 * g + 1, 3 * g + 2;
    GroupOf(g, v, 0);
    GroupOf(g, w, 1);
    GroupOf(g, cube, 2);
    VectorRoute(g, v, id);
    VectorRoute(g, w, id);
    assert (id + 16) % 16 == id;
  }

  lemma GroupOf(g: nat, b: nat, r: nat)
    requires b == 3 * g + r && r < 3
    ensures b / 3 == g && b % 3 == r
  {
  }

  lemma VectorRoute(g: nat, b: nat, id: nat)
    requires b / 3 == g && !Flags.IsAIC(b)
    ensures Route(false, Slot(b, id)) == Slot(3 * g + 2, if b == 3 * g then id else id + 16)
  {
  }

  /** On one-to-one kernels the n-th cube core and the n-th vector core of the kernel signal each other, ids unchanged. */
  lemma SoloRoutes(blocks: nat, n: nat, id: nat)
    requires blocks % 3 == 0 && n < blocks / 3
    ensures n < |Flags.Cores(true, blocks)| && n < |Flags.Cores(false, blocks)|
    ensures var cube, vector := Flags.Cores(true, blocks)[n], Flags.Cores(false, blocks)[n];
            Route(true, Slot(cube, id)) == Slot(vector, id) && Route(true, Slot(vector, id)) == Slot(cube, id)
  {
    Flags.CoreCounts(blocks);
    NthCube(blocks, n);
    NthVector(blocks, n);
    assert (3 * n + 2) / 3 == n && (3 * n + 2) % 3 == 2;
    Flags.Partners(3 * n + 2);
  }

  lemma {:induction false} NthCube(blocks: nat, n: nat)
    requires blocks % 3 == 0 && n < |Flags.Cores(true, blocks)|
    ensures Flags.Cores(true, blocks)[n] == 3 * n + 2
  {
    if blocks > 0 {
      Flags.CoreCounts(blocks - 3);
      Flags.CoresOfGroup(true, blocks - 3);
      if n < |Flags.Cores(true, blocks - 3)| { NthCube(blocks - 3, n); }
    }
  }

  lemma LastPair(g: nat, n: nat)
    requires 2 * g <= n <= 2 * g + 1
    ensures n / 2 * 3 + n % 2 == g * 3 + n - 2 * g
  {
  }

  lemma {:induction false} NthVector(blocks: nat, n: nat)
    requires blocks % 3 == 0 && n < |Flags.Cores(false, blocks)|
    ensures Flags.Cores(false, blocks)[n] == n / 2 * 3 + n % 2
  {
    if blocks > 0 {
      var g := (blocks - 3) / 3;
      Flags.CoreCounts(blocks - 3);
      Flags.CoresOfGroup(false, blocks - 3);
      if n < 2 * g { NthVector(blocks - 3, n); } else { LastPair(g, n); }
    }
  }

  // ------------------------------------------------------------------ runs

  datatype Op = SetOp(slot: Slot, time: Time) | GetOp(slot: Slot, time: Time)

  /** What the code demands of a caller: an id within the array and, to set, a partner that exists. */
  predicate Allowed(solo: bool, blocks: nat, op: Op) {
    && (op.slot.block < blocks && Flags.IsAIC(op.slot.block) ==> op.slot.id < 32)
    && (op.SetOp? ==> op.slot.block < blocks && Route(solo, Masked(op.slot)).block < blocks)
  }

  /** The times set at a slot in a run, in order. */
  function SetAt(ops: seq<Op>, s: Slot): Flags.Times {
    if ops == [] then []
    else
      var op, before := ops[|ops| - 1], SetAt(ops[..|ops| - 1], s);
      if op.SetOp? && Masked(op.slot) == s then before + [op.time] else before
  }

  /** How many waits on a queue have succeeded in a run. */
  function Succeeded(solo: bool, blocks: nat, ops: seq<Op>, q: Slot): nat {
    if ops == [] then 0
    else
      var op, init := ops[|ops| - 1], ops[..|ops| - 1];
      var n := Succeeded(solo, blocks, init, q);
      if op.GetOp? && op.slot.block < blocks && Masked(op.slot) == q && n < |SetAt(init, Route(solo, q))| then n + 1 else n
  }

  /** With j successful waits before, a wait yields the j-th time set by its one sender, if there is one. */
  function AnswerAfter(solo: bool, blocks: nat, ops: seq<Op>, next: Op): Runs.Answer {
    if next.SetOp? || next.slot.block >= blocks then Runs.Nothing
    else
      var q := Masked(next.slot);
      var sent, j := SetAt(ops, Route(solo, q)), Succeeded(solo, blocks, ops, q);
      if j < |sent| then Runs.Got(Join(sent[j], next.time)) else Runs.Nothing
  }

  function Queue(waits: map<Slot, Flags.Times>, q: Slot): Flags.Times { if q in waits then waits[q] else [] }

  ghost predicate QueueAgrees(solo: bool, blocks: nat, ops: seq<Op>, waits: map<Slot, Flags.Times>, q: Slot) {
    var sent, n := SetAt(ops, Route(solo, q)), Succeeded(solo, blocks, ops, q);
    n <= |sent| && Queue(waits, q) == sent[n..]
  }

  ghost predicate Agrees(solo: bool, blocks: nat, ops: seq<Op>, waits: map<Slot, Flags.Times>) {
    forall q :: Proper(q) ==> QueueAgrees(solo, blocks, ops, waits, q)
  }

  lemma MaskedIsProper(s: Slot)
    requires Flags.IsAIC(s.block) ==> s.id < 32
    ensures Proper(Masked(s)) && Masked(s).block == s.block
  {
  }

  lemma AgreesAfterSet(solo: bool, blocks: nat, ops: seq<Op>, op: Op, waits: map<Slot, Flags.Times>, q: Slot)
    requires Agrees(solo, blocks, ops, waits) && op.SetOp? && Allowed(solo, blocks, op) && Proper(q)
    ensures var to := Route(solo, Masked(op.slot));
            QueueAgrees(solo, blocks, ops + [op], waits[to := Queue(waits, to) + [op.time]], q)
  {
    var s := Masked(op.slot);
    MaskedIsProper(op.slot);
    assert (ops + [op])[..|ops|] == ops;
    assert QueueAgrees(solo, blocks, ops, waits, q);
    OneSender(solo, s, q);
  }

  lemma AgreesAfterGet(solo: bool, blocks: nat, ops: seq<Op>, op: Op, waits: map<Slot, Flags.Times>, q: Slot)
    requires Agrees(solo, blocks, ops, waits) && op.GetOp? && op.slot.block < blocks && Allowed(solo, blocks, op) && Proper(q)
    ensures var at := Masked(op.slot);
            QueueAgrees(solo, blocks, ops + [op],
                        if Queue(waits, at) == [] then waits else waits[at := Queue(waits, at)[1..]], q)
  {
    MaskedIsProper(op.slot);
    assert (ops + [op])[..|ops|] == ops;
    assert QueueAgrees(solo, blocks, ops, waits, q);
    assert QueueAgrees(solo, blocks, ops, waits, Masked(op.slot));
  }

  lemma AgreesAfterNothing(solo: bool, blocks: nat, ops: seq<Op>, op: Op, waits: map<Slot, Flags.Times>, q: Slot)
    requires QueueAgrees(solo, blocks, ops, waits, q) && op.GetOp? && op.slot.block >= blocks
    ensures QueueAgrees(solo, blocks, ops + [op], waits, q)
  {
    assert (ops + [op])[..|ops|] == ops;
  }

  class IntraFlags {
    const solo: bool
    const blocks: nat
    var waits: map<Slot, Flags.Times>
    ghost var history: seq<Op>

    ghost predicate Valid()
      reads this
    {
      Agrees(solo, blocks, history, waits)
    }

    constructor (solo: bool, blocks: nat)
      ensures Valid() && history == [] && this.solo == solo && this.blocks == blocks
    {
      this.solo, this.blocks, waits, history := solo, blocks, map[], [];
    }

    /** SetMode4SyncInfo. */
    method Set(slot: Slot, vt: Time)
      requires Valid() && Allowed(solo, blocks, SetOp(slot, vt))
      modifies this
      ensures Valid() && history == old(history) + [SetOp(slot, vt)]
    {
      var to := Route(solo, Masked(slot));
      ghost var before, op := waits, SetOp(slot, vt);
      waits := waits[to := Queue(waits, to) + [vt]];
      forall q | Proper(q) ensures QueueAgrees(solo, blocks, history + [op], waits, q) {
        AgreesAfterSet(solo, blocks, history, op, before, q);
      }
      history := history + [op];
    }

    /** GetIntraBlockSyncInfo: the answer is the one the sets so far promise. */
    method Get(slot: Slot, vt: Time) returns (answer: Runs.Answer)
      requires Valid() && Allowed(solo, blocks, GetOp(slot, vt))
      modifies this
      ensures Valid() && history == old(history) + [GetOp(slot, vt)]
      ensures answer == AnswerAfter(solo, blocks, old(history), GetOp(slot, vt))
    {
      ghost var before, op := waits, GetOp(slot, vt);
      answer := Runs.Nothing;
      if slot.block >= blocks {
        forall q | Proper(q) ensures QueueAgrees(solo, blocks, history + [op], waits, q) {
          AgreesAfterNothing(solo, blocks, history, op, waits, q);
        }
      } else {
        var at := Masked(slot);
        MaskedIsProper(slot);
        assert QueueAgrees(solo, blocks, history, waits, at);
        if Queue(waits, at) != [] {
          answer := Runs.Got(Join(Queue(waits, at)[0], vt));
          waits := waits[at := Queue(waits, at)[1..]];
        }
        forall q | Proper(q) ensures QueueAgrees(solo, blocks, history + [op], waits, q) {
          AgreesAfterGet(solo, blocks, history, op, before, q);
        }
      }
      history := history + [op];
    }
  }
}
