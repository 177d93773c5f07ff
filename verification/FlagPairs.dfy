/**
 * Modes 1 and 2 of the cross-core flags: the vector cores of a group wait for each other, or they and their cube
 * core do.
 */
module FlagPairs {
  import opened VectorTime
  import opened FlagTeams

  ghost predicate Peers(block: nat, peer: nat) { block / 3 == peer / 3 && block % 3 + peer % 3 == 1 }

  /** The other vector core of the group. */
  method Peer(block: nat, blocks: nat) returns (peer: nat)
    requires !IsAIC(block) && block < blocks && blocks % 3 == 0
    ensures Peers(block, peer) && peer < blocks && peer != block
  {
    peer := (2 - block % 3 - 1) + block / 3 * 3;
  }

  lemma PairWaits(queues: seq<Times>, block: nat, peer: nat, vt: Time)
    requires Peers(block, peer) && block < |queues| && peer < |queues| && queues[peer] == []
    ensures !Full(Pushed(queues, block, vt), Vectors(block))
  {
    var team := Vectors(block);
    var i := if team[0] == peer then 0 else 1;
    assert Count(Pushed(queues, block, vt), team[i]) == 0;
  }

  lemma PairFires(sets: seq<Times>, queues: seq<Times>, given: Times, block: nat, peer: nat, vt: Time, queues': seq<Times>)
    requires Peers(block, peer) && Served(sets, queues, Vectors(block), given)
    requires block < |queues| && peer < |queues| && queues[peer] != [] && queues' == queues[peer := queues[peer][1..]]
    ensures Full(Pushed(queues, block, vt), Vectors(block)) && queues[block] == []
    ensures Popped(Pushed(queues, block, vt), Vectors(block), queues')
    ensures JoinAll(Column(Pushed(queues, block, vt), Vectors(block), 0)) == Join(vt, queues[peer][0])
  {
    var team, pushed := Vectors(block), Pushed(queues, block, vt);
    assert forall i :: 0 <= i < 2 ==> team[i] == block || team[i] == peer;
    LastToArrive(sets, queues, team, given, block, vt);
    var column := Column(pushed, team, 0);
    if block < peer {
      assert column == [vt, queues[peer][0]];
      JoinPair(vt, queues[peer][0]);
      JoinCommutes(vt, queues[peer][0]);
    } else {
      assert column == [queues[peer][0], vt];
      JoinPair(queues[peer][0], vt);
    }
  }

  /** Mode 1: the second of two vector cores to set completes the pair. */
  lemma PairStep(sets: seq<Times>, queues: seq<Times>, grants: seq<Times>, block: nat, peer: nat, vt: Time,
                 queues': seq<Times>)
    requires AllServed(Mode1, sets, queues, grants) && Peers(block, peer)
    requires block < |queues| && peer < |queues| && queues[peer] != [] && queues' == queues[peer := queues[peer][1..]]
    ensures var blv := Join(vt, queues[peer][0]);
            AllServed(Mode1, Pushed(sets, block, vt), queues', Pushed(Pushed(grants, block, blv), peer, blv))
  {
    var blv := Join(vt, queues[peer][0]);
    PairFires(sets, queues, grants[block], block, peer, vt, queues');
    PairGranted(grants, block, peer, blv);
    AllFire(Mode1, sets, queues, grants, block, vt, queues', Pushed(Pushed(grants, block, blv), peer, blv));
  }

  lemma PairGranted(grants: seq<Times>, block: nat, peer: nat, t: Time)
    requires Peers(block, peer) && block < |grants| && peer < |grants|
    ensures Granted(Mode1, grants, block, t, Pushed(Pushed(grants, block, t), peer, t))
  {
    forall b | 0 <= b < |grants|
      ensures block in Senders(Mode1, |grants|, b) <==> b == block || b == peer
    {
      PairReceivers(|grants|, block, peer, b);
    }
  }

  lemma PairReceivers(blocks: nat, block: nat, peer: nat, b: nat)
    requires Peers(block, peer)
    ensures block != peer && (block in Senders(Mode1, blocks, b) <==> b == block || b == peer)
  {
    GroupMembers(b, block);
    GroupMembers(block, b);
  }

  /** Mode 2: the second of two vector cores to set releases the cube core. */
  lemma VectorStep(sets: seq<Times>, queues: seq<Times>, grants: seq<Times>, block: nat, peer: nat, aic: nat, vt: Time,
                   queues': seq<Times>)
    requires AllServed(Mode2, sets, queues, grants) && Peers(block, peer) && aic == Cube(block) < |queues|
    requires block < |queues| && peer < |queues| && queues[peer] != []
    requires queues' == queues[block := (queues[block] + [vt])[1..]][peer := queues[peer][1..]]
    ensures AllServed(Mode2, Pushed(sets, block, vt), queues', Pushed(grants, aic, Join(vt, queues[peer][0])))
  {
    VectorTeam(|sets|, block, peer, aic);
    VectorGranted(grants, block, peer, aic, Join(vt, queues[peer][0]));
    VectorFire(sets, queues, grants, block, peer, aic, vt, queues');
  }

  /** In mode 2 the second sender is queued first and then taken out again. */
  lemma BothFire(sets: seq<Times>, queues: seq<Times>, given: Times, block: nat, peer: nat, vt: Time, queues': seq<Times>)
    requires Peers(block, peer) && Served(sets, queues, Vectors(block), given)
    requires block < |queues| && peer < |queues| && queues[peer] != []
    requires queues' == queues[block := (queues[block] + [vt])[1..]][peer := queues[peer][1..]]
    ensures Full(Pushed(queues, block, vt), Vectors(block))
    ensures Popped(Pushed(queues, block, vt), Vectors(block), queues')
    ensures JoinAll(Column(Pushed(queues, block, vt), Vectors(block), 0)) == Join(vt, queues[peer][0])
  {
    var popped := queues[peer := queues[peer][1..]];
    PairFires(sets, queues, given, block, peer, vt, popped);
    NothingLeft(queues, block, vt);
  }

  lemma NothingLeft(queues: seq<Times>, block: nat, vt: Time)
    requires block < |queues| && queues[block] == []
    ensures queues[block := (queues[block] + [vt])[1..]] == queues
  {
    assert (queues[block] + [vt])[1..] == [];
  }

  lemma VectorFire(sets: seq<Times>, queues: seq<Times>, grants: seq<Times>, block: nat, peer: nat, aic: nat, vt: Time,
                   queues': seq<Times>)
    requires AllServed(Mode2, sets, queues, grants) && Peers(block, peer) && aic < |queues|
    requires Senders(Mode2, |sets|, aic) == Vectors(block) == Team(Mode2, |sets|, block)
    requires block < |queues| && peer < |queues| && queues[peer] != []
    requires queues' == queues[block := (queues[block] + [vt])[1..]][peer := queues[peer][1..]]
    requires Granted(Mode2, grants, block, Join(vt, queues[peer][0]), Pushed(grants, aic, Join(vt, queues[peer][0])))
    ensures AllServed(Mode2, Pushed(sets, block, vt), queues', Pushed(grants, aic, Join(vt, queues[peer][0])))
  {
    BothFire(sets, queues, grants[aic], block, peer, vt, queues');
    AllFire(Mode2, sets, queues, grants, block, vt, queues', Pushed(grants, aic, Join(vt, queues[peer][0])));
  }

  lemma VectorTeam(blocks: nat, block: nat, peer: nat, aic: nat)
    requires Peers(block, peer) && aic == Cube(block)
    ensures Senders(Mode2, blocks, aic) == Vectors(block) == Team(Mode2, blocks, block)
  {
    InGroup(block);
  }

  lemma VectorGranted(grants: seq<Times>, block: nat, peer: nat, aic: nat, t: Time)
    requires Peers(block, peer) && aic == Cube(block) && aic < |grants|
    ensures Granted(Mode2, grants, block, t, Pushed(grants, aic, t))
  {
    forall b | 0 <= b < |grants|
      ensures block in Senders(Mode2, |grants|, b) <==> b == aic
    {
      VectorReceiver(|grants|, block, peer, aic, b);
    }
  }

  lemma VectorReceiver(blocks: nat, block: nat, peer: nat, aic: nat, b: nat)
    requires Peers(block, peer) && aic == Cube(block)
    ensures block in Senders(Mode2, blocks, b) <==> b == aic
  {
    GroupMembers(b, block);
    GroupMembers(block, b);
  }

  /** Mode 2: a cube core releases its two vector cores at once and never has anything queued. */
  lemma CubeStep(sets: seq<Times>, queues: seq<Times>, grants: seq<Times>, block: nat, v1: nat, v0: nat, vt: Time,
                 queues': seq<Times>)
    requires AllServed(Mode2, sets, queues, grants) && IsAIC(block) && block < |queues|
    requires v1 == block - 1 && v0 == block - 2
    requires queues' == queues[block := (queues[block] + [vt])[1..]]
    ensures AllServed(Mode2, Pushed(sets, block, vt), queues', Pushed(Pushed(grants, v1, vt), v0, vt))
  {
    CubeTeam(|sets|, block, v1);
    CubeGranted(grants, block, v1, v0, vt);
    CubeFire(sets, queues, grants, block, v1, v0, vt, queues');
  }

  lemma CubeTeam(blocks: nat, block: nat, v1: nat)
    requires IsAIC(block) && v1 == block - 1
    ensures Senders(Mode2, blocks, v1) == Team(Mode2, blocks, block) == [block]
  {
    assert v1 / 3 == block / 3 && !IsAIC(v1);
  }

  lemma CubeFire(sets: seq<Times>, queues: seq<Times>, grants: seq<Times>, block: nat, v1: nat, v0: nat, vt: Time,
                 queues': seq<Times>)
    requires AllServed(Mode2, sets, queues, grants) && block < |queues| && v1 < |queues|
    requires Senders(Mode2, |sets|, v1) == Team(Mode2, |sets|, block) == [block]
    requires queues' == queues[block := (queues[block] + [vt])[1..]]
    requires Granted(Mode2, grants, block, vt, Pushed(Pushed(grants, v1, vt), v0, vt))
    ensures AllServed(Mode2, Pushed(sets, block, vt), queues', Pushed(Pushed(grants, v1, vt), v0, vt))
  {
    CubeFronts(sets, queues, grants[v1], block, vt, queues');
    AllFire(Mode2, sets, queues, grants, block, vt, queues', Pushed(Pushed(grants, v1, vt), v0, vt));
  }

  lemma CubeFronts(sets: seq<Times>, queues: seq<Times>, given: Times, block: nat, vt: Time, queues': seq<Times>)
    requires Served(sets, queues, [block], given) && block < |queues|
    requires queues' == queues[block := (queues[block] + [vt])[1..]]
    ensures Full(Pushed(queues, block, vt), [block])
    ensures Popped(Pushed(queues, block, vt), [block], queues')
    ensures JoinAll(Column(Pushed(queues, block, vt), [block], 0)) == vt
  {
    LastToArrive(sets, queues, [block], given, block, vt);
    assert Column(Pushed(queues, block, vt), [block], 0) == [vt];
    JoinEmpty(vt);
  }

  lemma CubeReceivers(blocks: nat, block: nat, b: nat)
    requires IsAIC(block)
    ensures block in Senders(Mode2, blocks, b) <==> b == block - 1 || b == block - 2
  {
    GroupMembers(b, block);
    var g := block / 3;
    assert block == g * 3 + 2;
  }

  lemma CubeGranted(grants: seq<Times>, block: nat, v1: nat, v0: nat, t: Time)
    requires IsAIC(block) && block < |grants| && v1 == block - 1 && v0 == block - 2
    ensures Granted(Mode2, grants, block, t, Pushed(Pushed(grants, v1, t), v0, t))
  {
    forall b | 0 <= b < |grants|
      ensures block in Senders(Mode2, |grants|, b) <==> b == v1 || b == v0
    {
      CubeReceivers(|grants|, block, b);
    }
  }

  ghost predicate Partnered(block: nat, partner: nat) {
    partner == if IsAIC(block) then VectorOf(block) else CubeOf(block)
  }

  lemma SoloTeam(blocks: nat, block: nat, partner: nat, b: nat)
    requires Partnered(block, partner) && block < blocks && partner < blocks
    ensures Senders(Mode2Solo, blocks, partner) == [block]
    ensures block in Senders(Mode2Solo, blocks, b) <==> b == partner
  {
    Partners(block);
    Partners(b);
  }

  /** Mode 2 on a one-to-one kernel: every set releases the partner at once. */
  lemma SoloStep(sets: seq<Times>, queues: seq<Times>, grants: seq<Times>, block: nat, partner: nat, vt: Time,
                 queues': seq<Times>)
    requires AllServed(Mode2Solo, sets, queues, grants) && Partnered(block, partner)
    requires block < |queues| && partner < |queues| && queues' == queues[block := (queues[block] + [vt])[1..]]
    ensures AllServed(Mode2Solo, Pushed(sets, block, vt), queues', Pushed(grants, partner, vt))
  {
    SoloTeam(|sets|, block, partner, block);
    CubeFronts(sets, queues, grants[partner], block, vt, queues');
    SoloGranted(grants, block, partner, vt);
    AllFire(Mode2Solo, sets, queues, grants, block, vt, queues', Pushed(grants, partner, vt));
  }

  lemma SoloGranted(grants: seq<Times>, block: nat, partner: nat, t: Time)
    requires Partnered(block, partner) && block < |grants| && partner < |grants|
    ensures Granted(Mode2Solo, grants, block, t, Pushed(grants, partner, t))
  {
    forall b | 0 <= b < |grants| ensures block in Senders(Mode2Solo, |grants|, b) <==> b == partner {
      SoloTeam(|grants|, block, partner, b);
    }
  }

  /** The body of mode 2 on a one-to-one kernel. */
  method ReleasePartner(queues: seq<Times>, waits: seq<Times>, block: nat, partner: nat, vt: Time,
                        ghost sets: seq<Times>, ghost grants: seq<Times>, ghost taken: seq<nat>)
    returns (queues': seq<Times>, waits': seq<Times>, ghost grants': seq<Times>)
    requires AllServed(Mode2Solo, sets, queues, grants) && Waiting(waits, grants, taken)
    requires Partnered(block, partner) && block < |queues| && (!IsAIC(block) ==> partner < |queues|)
    ensures AllServed(Mode2Solo, Pushed(sets, block, vt), queues', grants') && Waiting(waits', grants', taken)
  {
    Partners(block);
    queues' := Pushed(queues, block, vt);
    waits', grants' := Pushed(waits, partner, vt), Pushed(grants, partner, vt);
    WaitingPushed(waits, grants, taken, partner, vt);
    PushPop(queues, block, vt);
    queues' := queues'[block := queues'[block][1..]];
    SoloStep(sets, queues, grants, block, partner, vt, queues');
  }

  /** The body of mode 1 for a vector core. */
  method Exchange(queues: seq<Times>, waits: seq<Times>, block: nat, peer: nat, vt: Time,
                  ghost sets: seq<Times>, ghost grants: seq<Times>, ghost taken: seq<nat>)
    returns (queues': seq<Times>, waits': seq<Times>, ghost grants': seq<Times>)
    requires AllServed(Mode1, sets, queues, grants) && Waiting(waits, grants, taken)
    requires Peers(block, peer) && block < |queues| && peer < |queues|
    ensures AllServed(Mode1, Pushed(sets, block, vt), queues', grants') && Waiting(waits', grants', taken)
  {
    if queues[peer] != [] {
      var blv := Join(vt, queues[peer][0]);
      queues' := queues[peer := queues[peer][1..]];
      waits' := Pushed(Pushed(waits, block, blv), peer, blv);
      grants' := Pushed(Pushed(grants, block, blv), peer, blv);
      WaitingTwice(waits, grants, taken, block, peer, blv);
      PairStep(sets, queues, grants, block, peer, vt, queues');
    } else {
      queues', waits', grants' := Pushed(queues, block, vt), waits, grants;
      PairWaits(queues, block, peer, vt);
      AllNotYet(Mode1, sets, queues, grants, block, vt);
    }
  }

  /** The body of mode 2 for a vector core. */
  method ReleaseCube(queues: seq<Times>, waits: seq<Times>, block: nat, peer: nat, aic: nat, vt: Time,
                     ghost sets: seq<Times>, ghost grants: seq<Times>, ghost taken: seq<nat>)
    returns (queues': seq<Times>, waits': seq<Times>, ghost grants': seq<Times>)
    requires AllServed(Mode2, sets, queues, grants) && Waiting(waits, grants, taken)
    requires Peers(block, peer) && block < |queues| && peer < |queues| && aic == Cube(block) < |queues|
    ensures AllServed(Mode2, Pushed(sets, block, vt), queues', grants') && Waiting(waits', grants', taken)
  {
    queues' := Pushed(queues, block, vt);
    if queues'[peer] == [] {
      waits', grants' := waits, grants;
      PairWaits(queues, block, peer, vt);
      AllNotYet(Mode2, sets, queues, grants, block, vt);
    } else {
      var joined := Join(vt, queues'[peer][0]);
      waits', grants' := Pushed(waits, aic, joined), Pushed(grants, aic, joined);
      WaitingPushed(waits, grants, taken, aic, joined);
      PushPop(queues, block, vt);
      queues' := queues'[block := queues'[block][1..]];
      queues' := queues'[peer := queues'[peer][1..]];
      VectorStep(sets, queues, grants, block, peer, aic, vt, queues');
    }
  }

  /** The body of mode 2 for a cube core. */
  method ReleaseVectors(queues: seq<Times>, waits: seq<Times>, block: nat, vt: Time,
                        ghost sets: seq<Times>, ghost grants: seq<Times>, ghost taken: seq<nat>)
    returns (queues': seq<Times>, waits': seq<Times>, ghost grants': seq<Times>)
    requires AllServed(Mode2, sets, queues, grants) && Waiting(waits, grants, taken)
    requires IsAIC(block) && block < |queues|
    ensures AllServed(Mode2, Pushed(sets, block, vt), queues', grants') && Waiting(waits', grants', taken)
  {
    queues' := Pushed(queues, block, vt);
    var v1, v0 := block - 1, block - 2;
    waits' := Pushed(Pushed(waits, v1, vt), v0, vt);
    grants' := Pushed(Pushed(grants, v1, vt), v0, vt);
    WaitingTwice(waits, grants, taken, v1, v0, vt);
    PushPop(queues, block, vt);
    queues' := queues'[block := queues'[block][1..]];
    CubeStep(sets, queues, grants, block, v1, v0, vt, queues');
  }

  lemma PushPop(queues: seq<Times>, block: nat, vt: Time)
    requires block < |queues|
    ensures var q := Pushed(queues, block, vt); q[block := q[block][1..]] == queues[block := (queues[block] + [vt])[1..]]
  {
  }

  lemma JoinPair(x: Time, y: Time)
    ensures JoinAll([x, y]) == Join(y, x)
  {
    JoinEmpty(x);
    assert JoinAll([x]) == x;
    assert [x, y][..1] == [x];
  }
}
