/**
 * Cross-core synchronisation flags: setting a flag queues a vector time; once every required sender has set it,
 * the joined time is granted to the receivers, who pick grants up in order.  The object below is one flag id.
 */
module CrossCoreSync {
  import opened VectorTime
  import opened FlagTeams
  import opened FlagGather
  import opened FlagPairs

  class Flag {
    const blocks: nat
    /** The times a block has set that no grant has used yet, for each mode, and the grants it has not picked up. */
    var setVec0: seq<Times>
    var setVec1: seq<Times>
    var setVec2: seq<Times>
    var waitVec: seq<Times>

    /** The flag id is used in one mode. */
    ghost const mode: Mode
    /** Every time set, every grant given and how many grants have been picked up, for each block. */
    ghost var sets: seq<Times>
    ghost var grants: seq<Times>
    ghost var taken: seq<nat>

    ghost function Queues(): seq<Times>
      reads this
    {
      match mode case Mode0 => setVec0 case Mode0Solo => setVec0 case Mode1 => setVec1 case Mode2 => setVec2 case Mode2Solo => setVec2
    }

    ghost predicate Valid()
      reads this
    {
      && blocks % 3 == 0
      && |setVec0| == |setVec1| == |setVec2| == |sets| == blocks
      && Waiting(waitVec, grants, taken) && |waitVec| == blocks
      && AllServed(mode, sets, Queues(), grants)
      && (mode == Mode0Solo ==> Idle(setVec0))
    }

    constructor (blocks: nat, ghost mode: Mode)
      requires blocks % 3 == 0
      ensures Valid() && this.mode == mode && this.blocks == blocks
      ensures sets == seq(blocks, _ => []) && taken == seq(blocks, _ => 0)
    {
      this.blocks, this.mode := blocks, mode;
      setVec0, setVec1, setVec2 := seq(blocks, _ => []), seq(blocks, _ => []), seq(blocks, _ => []);
      waitVec := seq(blocks, _ => []);
      sets, grants, taken := seq(blocks, _ => []), seq(blocks, _ => []), seq(blocks, _ => 0);
      new;
      NothingSet(mode, sets, grants);
      assert Queues() == sets;
    }

    /** GetBlockSyncInfo: the next grant, if there is one, is joined into the caller's time. */
    method Get(block: nat, vt: Time) returns (ok: bool, vt': Time)
      requires Valid()
      modifies `waitVec, `taken
      ensures Valid()
      ensures ok <==> block < blocks && old(taken)[block] < |grants[block]|
      ensures ok ==> vt' == Join(grants[block][old(taken)[block]], vt)
                     && taken == old(taken)[block := old(taken)[block] + 1]
      ensures !ok ==> vt' == vt && taken == old(taken) && waitVec == old(waitVec)
    {
      if block >= blocks || waitVec[block] == [] { return false, vt; }
      ok, vt' := true, Join(waitVec[block][0], vt);
      waitVec := waitVec[block := waitVec[block][1..]];
      taken := taken[block := taken[block] + 1];
    }

    /**
     * SetMode0SyncInfo: all vector cores wait for each other, and so do all cube cores.  On a one-to-one kernel
     * only as many vector cores count as there are cube cores.
     */
    method SetMode0(block: nat, vt: Time, vecSubBlockDim: nat)
      requires Valid() && block < blocks && (vecSubBlockDim == 1 || vecSubBlockDim == 2)
      requires mode == (if vecSubBlockDim == 1 then Mode0Solo else Mode0) && InUse(mode, blocks, block)
      modifies this
      ensures Valid() && taken == old(taken)
      ensures sets == Pushed(old(sets), block, vt)
    {
      var aic := IsAIC(block);
      ghost var before := setVec0;
      if vecSubBlockDim == 1 { IdlePushed(before, block, vt); }
      setVec0 := Pushed(setVec0, block, vt);
      var setCount := CountSet(setVec0, aic);
      FullByCount(mode, setVec0, block, setCount);
      if setCount == if aic then blocks / 3 else blocks / 3 * vecSubBlockDim {
        ghost var given := grants;
        setVec0, waitVec, given := ReleaseAll(setVec0, waitVec, aic, mode, before, block, vt, sets, grants, taken);
        grants := given;
      } else {
        AllNotYet(mode, sets, before, grants, block, vt);
      }
      sets := Pushed(sets, block, vt);
    }

    /** SetMode1SyncInfo: the two vector cores of a group wait for each other; cube cores are ignored. */
    method SetMode1(block: nat, vt: Time)
      requires Valid() && mode == Mode1 && block < blocks
      modifies this
      ensures Valid() && taken == old(taken)
      ensures sets == if IsAIC(block) then old(sets) else Pushed(old(sets), block, vt)
    {
      if IsAIC(block) { return; }
      var peer := Peer(block, blocks);
      ghost var given := grants;
      setVec1, waitVec, given := Exchange(setVec1, waitVec, block, peer, vt, sets, grants, taken);
      grants := given;
      sets := Pushed(sets, block, vt);
    }

    /**
     * SetMode2SyncInfo: a cube core releases its vector cores, and all of them together release the cube core;
     * a kernel that reports no vector cores is ignored.
     */
    method SetMode2(block: nat, vt: Time, vecSubBlockDim: nat)
      requires Valid() && block < blocks && mode == (if vecSubBlockDim == 1 then Mode2Solo else Mode2)
      requires vecSubBlockDim == 1 && !IsAIC(block) ==> CubeOf(block) < blocks
      modifies this
      ensures Valid() && taken == old(taken)
      ensures sets == if vecSubBlockDim == 0 then old(sets) else Pushed(old(sets), block, vt)
    {
      if vecSubBlockDim == 0 { return; }
      ghost var given := grants;
      if vecSubBlockDim == 1 {
        var partner := if IsAIC(block) then block / 3 / 2 * 3 + block / 3 % 2 else 3 * (block / 3 * 2 + block % 3) + 2;
        setVec2, waitVec, given := ReleasePartner(setVec2, waitVec, block, partner, vt, sets, grants, taken);
      } else if IsAIC(block) {
        setVec2, waitVec, given := ReleaseVectors(setVec2, waitVec, block, vt, sets, grants, taken);
      } else {
        var peer := Peer(block, blocks);
        setVec2, waitVec, given := ReleaseCube(setVec2, waitVec, block, peer, 2 + block / 3 * 3, vt, sets, grants, taken);
      }
      grants := given;
      sets := Pushed(sets, block, vt);
    }
  }
}
