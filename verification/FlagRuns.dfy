/**
 * The cross-core flags as callers use them: the container with its thirty-two ids, and whole runs of sets and
 * waits on one flag.
 */
module FlagRuns {
  import opened Intervals
  import opened VectorTime
  import opened FlagTeams
  import opened CrossCoreSync

  // ------------------------------------------------------------------ the thirty-two flags of a block

  const MAX_FLAG_ID: nat := 32

  datatype Outcome = Applied | Ignored | OutOfBounds

  /** The flags of a container, each used in one mode; an id they do not reach is a read past the end of an array. */
  class Container {
    const flags: seq<Flag>
    const blocks: nat

    ghost predicate Valid()
      reads this, flags
    {
      && |flags| == MAX_FLAG_ID
      && (forall i, j :: 0 <= i < j < |flags| ==> flags[i] != flags[j])
      && (forall i :: 0 <= i < |flags| ==> flags[i].Valid() && flags[i].blocks == blocks)
    }

    /** Thirty-two flags, each to be used in the mode given for it. */
    constructor (blocks: nat, ghost modes: seq<Mode>)
      requires blocks % 3 == 0 && |modes| == MAX_FLAG_ID
      ensures Valid() && this.blocks == blocks && fresh(flags)
      ensures forall i :: 0 <= i < |flags| ==> flags[i].mode == modes[i] && flags[i].sets == seq(blocks, _ => [])
    {
      var fs: seq<Flag> := [];
      for i := 0 to MAX_FLAG_ID
        invariant |fs| == i && fresh(fs)
        invariant forall x, y :: 0 <= x < y < |fs| ==> fs[x] != fs[y]
        invariant forall x :: 0 <= x < |fs| ==>
                    fs[x].Valid() && fs[x].blocks == blocks && fs[x].mode == modes[x] && fs[x].sets == seq(blocks, _ => [])
      {
        var f := new Flag(blocks, modes[i]);
        fs := fs + [f];
      }
      flags, this.blocks := fs, blocks;
    }

    /** SetBlockSyncInfo: the guard lets one id too many pass. */
    method Set(flagId: nat, mode: Mode, block: nat, vt: Time) returns (o: Outcome)
      requires Valid() && (flagId < |flags| ==> flags[flagId].mode == mode) && (block < blocks ==> InUse(mode, blocks, block))
      modifies if flagId < |flags| then {flags[flagId]} else {}
      ensures Valid()
      ensures o == OutOfBounds <==> block < blocks && flagId == 32
      ensures o == Ignored <==> block >= blocks || flagId > 32
      ensures o == Applied ==> flags[flagId].taken == old(flags[flagId].taken)
                               && flags[flagId].sets == AfterSet(mode, old(flags[flagId].sets), block, vt)
    {
      if flagId > MAX_FLAG_ID || block >= blocks { return Ignored; }
      if flagId >= |flags| { return OutOfBounds; }
      o := Applied;
      SetInMode(flags[flagId], mode, block, vt);
    }

    /** GetBlockSyncInfo: the id is not guarded at all. */
    method Get(flagId: nat, block: nat, vt: Time) returns (o: Outcome, ok: bool, vt': Time)
      requires Valid()
      modifies if flagId < |flags| then {flags[flagId]} else {}
      ensures Valid()
      ensures o == OutOfBounds <==> block < blocks && flagId >= 32
      ensures o == Ignored <==> block >= blocks
      ensures ok <==> o == Applied && old(flags[flagId].taken)[block] < |flags[flagId].grants[block]|
      ensures ok ==> vt' == Join(flags[flagId].grants[block][old(flags[flagId].taken)[block]], vt)
      ensures !ok ==> vt' == vt
    {
      if block >= blocks { return Ignored, false, vt; }
      if flagId >= |flags| { return OutOfBounds, false, vt; }
      o := Applied;
      ok, vt' := flags[flagId].Get(block, vt);
    }
  }

  method SetInMode(f: Flag, mode: Mode, block: nat, vt: Time)
    requires f.Valid() && f.mode == mode && block < f.blocks && InUse(mode, f.blocks, block)
    modifies f
    ensures f.Valid() && f.taken == old(f.taken) && f.sets == AfterSet(mode, old(f.sets), block, vt)
  {
    match mode {
      case Mode0 => f.SetMode0(block, vt, 2);
      case Mode0Solo => f.SetMode0(block, vt, 1);
      case Mode1 => f.SetMode1(block, vt);
      case Mode2 => f.SetMode2(block, vt, 2);
      case Mode2Solo => f.SetMode2(block, vt, 1);
    }
  }

  /** A set is recorded; in mode 1 cube cores do not count. */
  function AfterSet(mode: Mode, sets: seq<Times>, block: nat, t: Time): seq<Times> {
    if mode == Mode1 && IsAIC(block) then sets else Pushed(sets, block, t)
  }

  // ------------------------------------------------------------------ whole runs

  datatype FlagOp = SetOp(block: nat, time: Time) | GetOp(block: nat, time: Time)
  datatype Answer = Nothing | Got(time: Time)

  /** The times each block has set in a run, in order. */
  function SetsIn(mode: Mode, blocks: nat, ops: seq<FlagOp>): (sets: seq<Times>)
    ensures |sets| == blocks
  {
    if ops == [] then seq(blocks, _ => [])
    else
      var op, before := ops[|ops| - 1], SetsIn(mode, blocks, ops[..|ops| - 1]);
      if op.SetOp? then AfterSet(mode, before, op.block, op.time) else before
  }

  /** How often the slowest of the senders has set. */
  function Slowest(sets: seq<Times>, senders: seq<nat>): nat {
    if senders == [] then 0
    else if |senders| == 1 then Count(sets, senders[0])
    else Min(Slowest(sets, senders[..|senders| - 1]), Count(sets, senders[|senders| - 1]))
  }

  lemma {:induction false} SlowestIsLeast(sets: seq<Times>, senders: seq<nat>)
    requires senders != []
    ensures forall i :: 0 <= i < |senders| ==> Slowest(sets, senders) <= Count(sets, senders[i])
    ensures exists i :: 0 <= i < |senders| && Slowest(sets, senders) == Count(sets, senders[i])
  {
    if |senders| > 1 {
      var n := |senders| - 1;
      var init := senders[..n];
      SlowestIsLeast(sets, init);
      assert forall i :: 0 <= i < n ==> init[i] == senders[i];
      var k :| 0 <= k < |init| && Slowest(sets, init) == Count(sets, init[k]);
      assert Slowest(sets, senders) == Count(sets, senders[k]) || Slowest(sets, senders) == Count(sets, senders[n]);
    } else {
      assert Slowest(sets, senders) == Count(sets, senders[0]);
    }
  }

  lemma PromisedCount(sets: seq<Times>, senders: seq<nat>, given: Times)
    requires Promised(sets, senders, given)
    ensures |given| == Slowest(sets, senders)
  {
    if senders != [] { SlowestIsLeast(sets, senders); }
  }

  /** How many waits of a block have succeeded in a run: each takes a grant, if one is left. */
  function Succeeded(mode: Mode, blocks: nat, ops: seq<FlagOp>, block: nat): nat {
    if ops == [] then 0
    else
      var op, init := ops[|ops| - 1], ops[..|ops| - 1];
      var n := Succeeded(mode, blocks, init, block);
      if op.GetOp? && op.block == block && n < Slowest(SetsIn(mode, blocks, init), Senders(mode, blocks, block)) then n + 1 else n
  }

  /**
   * What the next wait of a block yields after a run: with j successful waits before, the j-th times set by all
   * of its senders joined into the caller's time, if each of them has set so often.
   */
  function AnswerAfter(mode: Mode, blocks: nat, ops: seq<FlagOp>, next: FlagOp): Answer {
    if next.SetOp? || next.block >= blocks then Nothing
    else
      var senders, sets := Senders(mode, blocks, next.block), SetsIn(mode, blocks, ops);
      var j := Succeeded(mode, blocks, ops, next.block);
      if j < Slowest(sets, senders) then Got(Join(JoinAll(Column(sets, senders, j)), next.time)) else Nothing
  }

  /** The flag agrees with the run. */
  ghost predicate Agrees(mode: Mode, blocks: nat, ops: seq<FlagOp>, sets: seq<Times>, taken: seq<nat>) {
    && sets == SetsIn(mode, blocks, ops) && |taken| == blocks
    && forall b :: 0 <= b < blocks ==> taken[b] == Succeeded(mode, blocks, ops, b)
  }

  lemma AgreesAfterSet(mode: Mode, blocks: nat, before: seq<FlagOp>, op: FlagOp, sets: seq<Times>, taken: seq<nat>)
    requires Agrees(mode, blocks, before, sets, taken) && op.SetOp?
    ensures Agrees(mode, blocks, before + [op], AfterSet(mode, sets, op.block, op.time), taken)
  {
    assert (before + [op])[..|before|] == before;
  }

  lemma AgreesAfterGet(mode: Mode, blocks: nat, before: seq<FlagOp>, op: FlagOp, sets: seq<Times>, taken: seq<nat>, n: nat)
    requires Agrees(mode, blocks, before, sets, taken) && op.GetOp?
    requires op.block < blocks ==> n == Slowest(sets, Senders(mode, blocks, op.block))
    ensures Agrees(mode, blocks, before + [op], sets,
                   if op.block < blocks && taken[op.block] < n then taken[op.block := taken[op.block] + 1] else taken)
  {
    assert (before + [op])[..|before|] == before;
    var taken' := if op.block < blocks && taken[op.block] < n then taken[op.block := taken[op.block] + 1] else taken;
    forall b | 0 <= b < blocks ensures taken'[b] == Succeeded(mode, blocks, before + [op], b) {
      assert taken[b] == Succeeded(mode, blocks, before, b);
    }
  }

  ghost predicate Answered(mode: Mode, blocks: nat, ops: seq<FlagOp>, answers: seq<Answer>) {
    |answers| <= |ops| && forall i :: 0 <= i < |answers| ==> answers[i] == AnswerAfter(mode, blocks, ops[..i], ops[i])
  }

  lemma AnswerNext(mode: Mode, blocks: nat, init: seq<FlagOp>, op: FlagOp, answers: seq<Answer>, answer: Answer)
    requires |answers| == |init| && Answered(mode, blocks, init, answers) && answer == AnswerAfter(mode, blocks, init, op)
    ensures Answered(mode, blocks, init + [op], answers + [answer])
  {
    var ops, all := init + [op], answers + [answer];
    forall i | 0 <= i < |all| ensures all[i] == AnswerAfter(mode, blocks, ops[..i], ops[i]) {
      if i < |init| {
        assert ops[..i] == init[..i] && ops[i] == init[i] && all[i] == answers[i];
      } else {
        assert ops[..i] == init && ops[i] == op;
      }
    }
  }

  lemma AgreesAtStart(mode: Mode, blocks: nat, sets: seq<Times>, taken: seq<nat>)
    requires sets == seq(blocks, _ => []) && taken == seq(blocks, _ => 0)
    ensures Agrees(mode, blocks, [], sets, taken)
  {
  }

  predicate Playable(mode: Mode, blocks: nat, op: FlagOp) {
    op.SetOp? ==> op.block < blocks && InUse(mode, blocks, op.block)
  }

  /** In every run of sets and waits each wait yields what the times set so far promise. */
  method Play(mode: Mode, blocks: nat, ops: seq<FlagOp>) returns (f: Flag, answers: seq<Answer>)
    requires blocks % 3 == 0 && forall op <- ops :: Playable(mode, blocks, op)
    ensures fresh(f) && f.Valid() && f.mode == mode && f.blocks == blocks
    ensures Agrees(mode, blocks, ops, f.sets, f.taken)
    ensures forall b :: 0 <= b < blocks ==> Promised(f.sets, Senders(mode, blocks, b), f.grants[b])
    ensures |answers| == |ops| && Answered(mode, blocks, ops, answers)
  {
    if ops == [] {
      f := new Flag(blocks, mode);
      answers := [];
      AgreesAtStart(mode, blocks, f.sets, f.taken);
    } else {
      var init, op := ops[..|ops| - 1], ops[|ops| - 1];
      assert op in ops && ops == init + [op];
      f, answers := Play(mode, blocks, init);
      var answer := PlayOne(f, mode, op, init);
      AnswerNext(mode, blocks, init, op, answers, answer);
      answers := answers + [answer];
    }
    AllAsPromised(f);
  }

  lemma AllAsPromised(f: Flag)
    requires f.Valid()
    ensures forall b :: 0 <= b < f.blocks ==> Promised(f.sets, Senders(f.mode, f.blocks, b), f.grants[b])
  {
    forall b | 0 <= b < f.blocks ensures Promised(f.sets, Senders(f.mode, f.blocks, b), f.grants[b]) {
      GrantsAsPromised(f, b);
    }
  }

  method PlayOne(f: Flag, mode: Mode, op: FlagOp, ghost before: seq<FlagOp>) returns (answer: Answer)
    requires f.Valid() && f.mode == mode && Playable(mode, f.blocks, op)
    requires Agrees(mode, f.blocks, before, f.sets, f.taken)
    modifies f
    ensures f.Valid() && Agrees(mode, f.blocks, before + [op], f.sets, f.taken)
    ensures answer == AnswerAfter(mode, f.blocks, before, op)
  {
    if op.GetOp? {
      answer := PlayGet(f, op, before);
    } else {
      answer := Nothing;
      AgreesAfterSet(mode, f.blocks, before, op, f.sets, f.taken);
      SetInMode(f, mode, op.block, op.time);
    }
  }

  method PlayGet(f: Flag, op: FlagOp, ghost before: seq<FlagOp>) returns (answer: Answer)
    requires f.Valid() && op.GetOp? && Agrees(f.mode, f.blocks, before, f.sets, f.taken)
    modifies f`waitVec, f`taken
    ensures f.Valid() && Agrees(f.mode, f.blocks, before + [op], f.sets, f.taken)
    ensures answer == AnswerAfter(f.mode, f.blocks, before, op)
  {
    ghost var next := TakenAfter(f, op);
    NextTaken(f, op, before);
    if op.block < f.blocks { NextAnswer(f, op, before); }
    var ok, t := f.Get(op.block, op.time);
    assert f.taken == next;
    answer := if ok then Got(t) else Nothing;
  }

  ghost function TakenAfter(f: Flag, op: FlagOp): seq<nat>
    requires f.Valid()
    reads f
  {
    if op.block < f.blocks && f.taken[op.block] < |f.grants[op.block]| then f.taken[op.block := f.taken[op.block] + 1]
    else f.taken
  }

  lemma NextTaken(f: Flag, op: FlagOp, before: seq<FlagOp>)
    requires f.Valid() && op.GetOp? && Agrees(f.mode, f.blocks, before, f.sets, f.taken)
    ensures Agrees(f.mode, f.blocks, before + [op], f.sets, TakenAfter(f, op))
  {
    if op.block < f.blocks { GrantsAsPromised(f, op.block); }
    AgreesAfterGet(f.mode, f.blocks, before, op, f.sets, f.taken, if op.block < f.blocks then |f.grants[op.block]| else 0);
  }

  lemma NextAnswer(f: Flag, op: FlagOp, before: seq<FlagOp>)
    requires f.Valid() && op.GetOp? && op.block < f.blocks && Agrees(f.mode, f.blocks, before, f.sets, f.taken)
    ensures var given, j := f.grants[op.block], f.taken[op.block];
            && |given| == Slowest(f.sets, Senders(f.mode, f.blocks, op.block))
            && AnswerAfter(f.mode, f.blocks, before, op) == if j < |given| then Got(Join(given[j], op.time)) else Nothing
  {
    GrantsAsPromised(f, op.block);
    AnswerIsGrant(f.mode, f.blocks, before, op, f.sets, f.taken, f.grants[op.block]);
  }

  lemma AnswerIsGrant(mode: Mode, blocks: nat, before: seq<FlagOp>, op: FlagOp, sets: seq<Times>, taken: seq<nat>, given: Times)
    requires op.GetOp? && op.block < blocks && Agrees(mode, blocks, before, sets, taken)
    requires |given| == Slowest(sets, Senders(mode, blocks, op.block))
    requires forall k :: 0 <= k < |given| ==> given[k] == JoinAll(Column(sets, Senders(mode, blocks, op.block), k))
    ensures var j := taken[op.block];
            AnswerAfter(mode, blocks, before, op) == if j < |given| then Got(Join(given[j], op.time)) else Nothing
  {
  }

  lemma GrantsAsPromised(f: Flag, block: nat)
    requires f.Valid() && block < f.blocks
    ensures var senders := Senders(f.mode, f.blocks, block);
            && Promised(f.sets, senders, f.grants[block])
            && |f.grants[block]| == Slowest(f.sets, senders)
            && forall k :: 0 <= k < |f.grants[block]| ==> f.grants[block][k] == JoinAll(Column(f.sets, senders, k))
  {
    assert Served(f.sets, f.Queues(), Senders(f.mode, f.blocks, block), f.grants[block]);
    PromisedCount(f.sets, Senders(f.mode, f.blocks, block), f.grants[block]);
  }
}
