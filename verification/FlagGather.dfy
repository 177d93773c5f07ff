/**
 * Mode 0 of the cross-core flags: all vector cores, or all cube cores, wait for each other.  The loops count who
 * has set the flag, collect the oldest times and hand out their join.
 */
module FlagGather {
  import opened VectorTime
  import opened FlagTeams

  /** The number of cube cores, or of vector cores, that have set the flag. */
  method CountSet(queues: seq<Times>, aic: bool) returns (setCount: nat)
    requires |queues| % 3 == 0
    ensures setCount == Busy(queues, Cores(aic, |queues|))
  {
    if aic {
      setCount := CountCubes(queues);
    } else {
      setCount := CountVectors(queues);
    }
  }

  method CountCubes(queues: seq<Times>) returns (setCount: nat)
    requires |queues| % 3 == 0
    ensures setCount == Busy(queues, Cores(true, |queues|))
  {
    setCount := 0;
    var i: nat := 2;
    ghost var g, groups: nat := 0, |queues| / 3;
    while i < |queues|
      invariant i == 3 * g + 2 && g <= groups && |queues| == 3 * groups
      invariant setCount == Busy(queues, CubesOf(g))
    {
      BusyNext(queues, CubesOf(g), i);
      setCount := setCount + if queues[i] == [] then 0 else 1;
      i, g := i + 3, g + 1;
    }
    assert g == groups;
    CubesAreCores(groups);
  }

  method CountVectors(queues: seq<Times>) returns (setCount: nat)
    ensures setCount == Busy(queues, Cores(false, |queues|))
  {
    setCount := 0;
    for i := 0 to |queues|
      invariant setCount == Busy(queues, Cores(false, i))
    {
      if !IsAIC(i) {
        BusyNext(queues, Cores(false, i), i);
        setCount := setCount + if queues[i] == [] then 0 else 1;
      }
    }
  }

  /** UpdateSyncInfoInMode0: the joined time goes to every core of the kind. */
  method ReleaseAll(queues: seq<Times>, waits: seq<Times>, aic: bool, ghost mode: Mode, ghost before: seq<Times>,
                    ghost block: nat, ghost vt: Time, ghost sets: seq<Times>, ghost grants: seq<Times>, ghost taken: seq<nat>)
    returns (queues': seq<Times>, waits': seq<Times>, ghost grants': seq<Times>)
    requires AllServed(mode, sets, before, grants) && Waiting(waits, grants, taken) && |queues| % 3 == 0
    requires block < |sets| && aic == IsAIC(block) && queues == Pushed(before, block, vt)
    requires (mode == Mode0 || (mode == Mode0Solo && Idle(queues))) && InUse(mode, |queues|, block)
    requires Full(queues, Team(mode, |queues|, block))
    ensures AllServed(mode, Pushed(sets, block, vt), queues', grants') && Waiting(waits', grants', taken)
    ensures mode == Mode0Solo ==> Idle(queues')
  {
    var joined, rest := CollectFronts(queues, aic);
    CollectedTeam(mode, queues, block, joined, rest);
    queues', grants' := rest, GrantAll(grants, aic, joined);
    waits' := PushAll(waits, aic, joined);
    WaitingAll(waits, grants, taken, aic, joined);
    AllGranted(mode, grants, block, joined);
    AllFire(mode, sets, before, grants, block, vt, queues', grants');
  }

  /** How many of the team have something queued. */
  ghost function Busy(queues: seq<Times>, team: seq<nat>): nat {
    if team == [] then 0
    else Busy(queues, team[..|team| - 1]) + if Count(queues, team[|team| - 1]) > 0 then 1 else 0
  }

  lemma BusyNext(queues: seq<Times>, team: seq<nat>, block: nat)
    ensures Busy(queues, team + [block]) == Busy(queues, team) + if Count(queues, block) > 0 then 1 else 0
  {
    assert (team + [block])[..|team|] == team;
  }

  lemma {:induction false} BusyIsFull(queues: seq<Times>, team: seq<nat>)
    ensures Busy(queues, team) <= |team| && (Busy(queues, team) == |team| <==> Full(queues, team))
  {
    if team != [] {
      var init, last := team[..|team| - 1], team[|team| - 1];
      BusyIsFull(queues, init);
      FullNext(queues, team);
    }
  }

  lemma FullNext(queues: seq<Times>, team: seq<nat>)
    requires team != []
    ensures Full(queues, team) <==> Full(queues, team[..|team| - 1]) && Count(queues, team[|team| - 1]) > 0
  {
    var init := team[..|team| - 1];
    assert forall i :: 0 <= i < |init| ==> init[i] == team[i];
    if Full(queues, team) {
      forall i | 0 <= i < |init| ensures Count(queues, init[i]) > 0 { assert Count(queues, team[i]) > 0; }
    }
    if Full(queues, init) && Count(queues, team[|team| - 1]) > 0 {
      forall i | 0 <= i < |team| ensures Count(queues, team[i]) > 0 {
        if i < |init| { assert Count(queues, init[i]) > 0; }
      }
    }
  }

  // ------------------------------------------------------------------ one-to-one kernels

  /** Vector cores without a cube core of their own have nothing queued. */
  ghost predicate Idle(queues: seq<Times>) {
    forall b :: 0 <= b < |queues| && !IsAIC(b) && CubeOf(b) >= |queues| ==> queues[b] == []
  }

  lemma IdlePushed(queues: seq<Times>, block: nat, t: Time)
    requires Idle(queues) && (!IsAIC(block) ==> CubeOf(block) < |queues|)
    ensures Idle(Pushed(queues, block, t))
  {
  }

  lemma IdlePopped(queues: seq<Times>, team: seq<nat>, queues': seq<Times>)
    requires Idle(queues) && Popped(queues, team, queues')
    ensures Idle(queues')
  {
  }

  /** Blocks with nothing queued neither count nor contribute. */
  lemma {:induction false} IdleTail(queues: seq<Times>, team: seq<nat>, tail: seq<nat>)
    requires forall i :: 0 <= i < |tail| ==> Count(queues, tail[i]) == 0
    ensures Busy(queues, team + tail) == Busy(queues, team)
    ensures JoinAll(Column(queues, team + tail, 0)) == JoinAll(Column(queues, team, 0))
  {
    if tail == [] {
      assert team + tail == team;
    } else {
      var init, last := tail[..|tail| - 1], tail[|tail| - 1];
      IdleTail(queues, team, init);
      IdleOne(queues, team + init, last);
      assert team + tail == team + init + [last];
    }
  }

  lemma IdleOne(queues: seq<Times>, team: seq<nat>, block: nat)
    requires Count(queues, block) == 0
    ensures Busy(queues, team + [block]) == Busy(queues, team)
    ensures JoinAll(Column(queues, team + [block], 0)) == JoinAll(Column(queues, team, 0))
  {
    BusyNext(queues, team, block);
    CollectOne(queues, team, block);
  }

  /** All vector cores are the first ones and others that have nothing queued. */
  lemma IdleBeyond(queues: seq<Times>, groups: nat) returns (tail: seq<nat>)
    requires Idle(queues) && |queues| == 3 * groups
    ensures VectorsUpTo(2 * groups) == VectorsUpTo(groups) + tail
    ensures forall i :: 0 <= i < |tail| ==> Count(queues, tail[i]) == 0
  {
    var all := VectorsUpTo(2 * groups);
    VectorsAre(groups);
    VectorsAre(2 * groups);
    tail := all[groups..];
    forall i | 0 <= i < |tail| ensures Count(queues, tail[i]) == 0 {
      assert tail[i] == all[groups + i] == Vector(groups + i);
      VectorsAndCubes(groups + i, 0);
    }
    assert all[..groups] == VectorsUpTo(groups);
  }

  /** The count is the number the code waits for exactly when the whole team has set. */
  lemma FullByCount(mode: Mode, queues: seq<Times>, block: nat, setCount: nat)
    requires (mode == Mode0 || (mode == Mode0Solo && Idle(queues))) && |queues| % 3 == 0 && InUse(mode, |queues|, block)
    requires setCount == Busy(queues, Cores(IsAIC(block), |queues|))
    ensures setCount == (if IsAIC(block) then |queues| / 3 else if mode == Mode0Solo then |queues| / 3 else |queues| / 3 * 2)
            <==> Full(queues, Team(mode, |queues|, block))
  {
    CoreCounts(|queues|);
    if mode == Mode0Solo && !IsAIC(block) {
      SoloFull(queues, |queues| / 3);
    } else {
      BusyIsFull(queues, Cores(IsAIC(block), |queues|));
    }
  }

  lemma SoloFull(queues: seq<Times>, groups: nat)
    requires |queues| == 3 * groups && Idle(queues)
    ensures Busy(queues, Cores(false, |queues|)) == groups <==> Full(queues, VectorsUpTo(groups))
  {
    SoloAll(queues, groups);
    VectorsExactly(groups);
    BusyIsFull(queues, VectorsUpTo(groups));
  }

  lemma SoloAll(queues: seq<Times>, groups: nat)
    requires |queues| == 3 * groups && Idle(queues)
    ensures Busy(queues, Cores(false, |queues|)) == Busy(queues, VectorsUpTo(groups))
    ensures JoinAll(Column(queues, Cores(false, |queues|), 0)) == JoinAll(Column(queues, VectorsUpTo(groups), 0))
  {
    VectorsAreCores(groups);
    var tail := IdleBeyond(queues, groups);
    SoloTail(queues, groups, Cores(false, |queues|), tail);
  }

  lemma SoloTail(queues: seq<Times>, groups: nat, all: seq<nat>, tail: seq<nat>)
    requires all == VectorsUpTo(groups) + tail && forall i :: 0 <= i < |tail| ==> Count(queues, tail[i]) == 0
    ensures Busy(queues, all) == Busy(queues, VectorsUpTo(groups))
    ensures JoinAll(Column(queues, all, 0)) == JoinAll(Column(queues, VectorsUpTo(groups), 0))
  {
    IdleTail(queues, VectorsUpTo(groups), tail);
  }

  /** What is collected from all cores of the kind is what the team had queued. */
  lemma CollectedTeam(mode: Mode, queues: seq<Times>, block: nat, joined: Time, rest: seq<Times>)
    requires (mode == Mode0 || (mode == Mode0Solo && Idle(queues))) && |queues| % 3 == 0 && InUse(mode, |queues|, block)
    requires Collected(queues, Cores(IsAIC(block), |queues|), joined, rest)
    ensures Collected(queues, Team(mode, |queues|, block), joined, rest)
    ensures mode == Mode0Solo ==> Idle(rest)
  {
    if mode == Mode0Solo {
      IdlePopped(queues, Cores(IsAIC(block), |queues|), rest);
      if !IsAIC(block) { SoloCollected(queues, joined, rest); }
    }
  }

  lemma SoloCollected(queues: seq<Times>, joined: Time, rest: seq<Times>)
    requires Idle(queues) && |queues| % 3 == 0 && Collected(queues, Cores(false, |queues|), joined, rest)
    ensures Collected(queues, VectorsUpTo(|queues| / 3), joined, rest)
  {
    SoloAll(queues, |queues| / 3);
    SoloPopped(queues, rest);
  }

  lemma SoloPopped(queues: seq<Times>, rest: seq<Times>)
    requires Idle(queues) && |queues| % 3 == 0 && Popped(queues, Cores(false, |queues|), rest)
    ensures Popped(queues, VectorsUpTo(|queues| / 3), rest)
  {
    var team, all := VectorsUpTo(|queues| / 3), Cores(false, |queues|);
    VectorsExactly(|queues| / 3);
    CoresExactly(false, |queues|);
    forall b | 0 <= b < |queues| && queues[b] != [] ensures b in team <==> b in all {
    }
  }

  /** One block gives up its oldest time, if it has any. */
  function TakeOne(joined: Time, rest: seq<Times>, block: nat): (Time, seq<Times>) {
    if block < |rest| && rest[block] != [] then (Join(rest[block][0], joined), rest[block := rest[block][1..]])
    else (joined, rest)
  }

  function TakenAll(queues: seq<Times>, team: seq<nat>): (Time, seq<Times>) {
    if team == [] then (map[], queues)
    else var p := TakenAll(queues, team[..|team| - 1]); TakeOne(p.0, p.1, team[|team| - 1])
  }

  lemma TakenNext(queues: seq<Times>, team: seq<nat>, block: nat)
    ensures TakenAll(queues, team + [block]) == TakeOne(TakenAll(queues, team).0, TakenAll(queues, team).1, block)
  {
    assert (team + [block])[..|team|] == team;
  }

  /** The first half of UpdateSyncInfoInMode0: the oldest times are joined and taken out. */
  method CollectFronts(queues: seq<Times>, aic: bool) returns (joined: Time, rest: seq<Times>)
    requires |queues| % 3 == 0
    ensures Collected(queues, Cores(aic, |queues|), joined, rest)
  {
    if aic {
      joined, rest := CollectCubes(queues);
    } else {
      joined, rest := CollectVectors(queues);
    }
    CoresOnce(aic, |queues|);
    TeamTaken(queues, Cores(aic, |queues|));
  }

  method CollectCubes(queues: seq<Times>) returns (joined: Time, rest: seq<Times>)
    requires |queues| % 3 == 0
    ensures (joined, rest) == TakenAll(queues, Cores(true, |queues|))
  {
    joined, rest := map[], queues;
    var i: nat := 2;
    ghost var g, groups: nat := 0, |queues| / 3;
    while i < |queues|
      invariant i == 3 * g + 2 && g <= groups && |queues| == 3 * groups
      invariant (joined, rest) == TakenAll(queues, CubesOf(g))
    {
      NextCubeTaken(queues, g, i);
      var next := TakeOne(joined, rest, i);
      joined, rest := next.0, next.1;
      g, i := g + 1, i + 3;
    }
    assert g == groups;
    CubesAreCores(groups);
  }

  /** The cube cores of the first groups. */
  ghost function CubesOf(groups: nat): seq<nat> { if groups == 0 then [] else CubesOf(groups - 1) + [3 * groups - 1] }

  lemma NextCubeTaken(queues: seq<Times>, g: nat, i: nat)
    requires i == 3 * g + 2
    ensures TakenAll(queues, CubesOf(g + 1)) == TakeOne(TakenAll(queues, CubesOf(g)).0, TakenAll(queues, CubesOf(g)).1, i)
  {
    TakenNext(queues, CubesOf(g), i);
  }

  lemma {:induction false} CubesAreCores(groups: nat)
    ensures CubesOf(groups) == Cores(true, 3 * groups)
  {
    if groups > 0 {
      CubesAreCores(groups - 1);
      CoresOfGroup(true, 3 * (groups - 1));
    }
  }

  method CollectVectors(queues: seq<Times>) returns (joined: Time, rest: seq<Times>)
    ensures (joined, rest) == TakenAll(queues, Cores(false, |queues|))
  {
    joined, rest := map[], queues;
    for i := 0 to |queues|
      invariant (joined, rest) == TakenAll(queues, Cores(false, i))
    {
      if !IsAIC(i) {
        TakenNext(queues, Cores(false, i), i);
        var next := TakeOne(joined, rest, i);
        joined, rest := next.0, next.1;
      }
    }
  }

  ghost predicate Collected(queues: seq<Times>, team: seq<nat>, joined: Time, rest: seq<Times>) {
    joined == JoinAll(Column(queues, team, 0)) && Popped(queues, team, rest)
  }

  /** Each block is new to those before it. */
  ghost predicate NoRepeats(team: seq<nat>) {
    team == [] || (team[|team| - 1] !in team[..|team| - 1] && NoRepeats(team[..|team| - 1]))
  }

  lemma {:induction false} CoresOnce(aic: bool, n: nat)
    ensures NoRepeats(Cores(aic, n))
  {
    if n > 0 {
      CoresOnce(aic, n - 1);
      if IsAIC(n - 1) == aic {
        NotBelow(aic, n - 1);
        assert Cores(aic, n)[..|Cores(aic, n)| - 1] == Cores(aic, n - 1);
      }
    }
  }

  /** Taking one after the other joins all fronts and pops each queue once. */
  lemma {:induction false} TeamTaken(queues: seq<Times>, team: seq<nat>)
    requires NoRepeats(team)
    ensures Collected(queues, team, TakenAll(queues, team).0, TakenAll(queues, team).1)
  {
    if team == [] {
      assert Column(queues, team, 0) == [];
    } else {
      var init, block := team[..|team| - 1], team[|team| - 1];
      TeamTaken(queues, init);
      var p := TakenAll(queues, init);
      CollectedNext(queues, init, block, p.0, p.1);
      assert team == init + [block];
    }
  }

  lemma CollectedNext(queues: seq<Times>, team: seq<nat>, block: nat, joined: Time, rest: seq<Times>)
    requires Collected(queues, team, joined, rest) && block !in team
    ensures Collected(queues, team + [block], TakeOne(joined, rest, block).0, TakeOne(joined, rest, block).1)
  {
    CollectOne(queues, team, block);
  }

  lemma NotBelow(aic: bool, i: nat)
    ensures i !in Cores(aic, i)
  {
    CoresExactly(aic, i);
  }

  lemma CollectOne(queues: seq<Times>, team: seq<nat>, block: nat)
    ensures JoinAll(Column(queues, team + [block], 0)) == Join(Nth(queues, block, 0), JoinAll(Column(queues, team, 0)))
    ensures Count(queues, block) == 0 ==> JoinAll(Column(queues, team + [block], 0)) == JoinAll(Column(queues, team, 0))
  {
    JoinEmpty(JoinAll(Column(queues, team, 0)));
    assert Column(queues, team + [block], 0) == Column(queues, team, 0) + [Nth(queues, block, 0)];
    JoinAllAppend(Column(queues, team, 0), Nth(queues, block, 0));
  }

  function GrantAll(q: seq<Times>, aic: bool, t: Time): seq<Times> {
    seq(|q|, b requires 0 <= b < |q| => if IsAIC(b) == aic then q[b] + [t] else q[b])
  }

  /** The second half of UpdateSyncInfoInMode0: the joined time goes to every core of the kind. */
  method PushAll(waits: seq<Times>, aic: bool, t: Time) returns (waits': seq<Times>)
    requires |waits| % 3 == 0
    ensures waits' == GrantAll(waits, aic, t)
  {
    waits' := waits;
    if aic {
      var i: nat := 2;
      while i < |waits|
        invariant i % 3 == 2 && |waits'| == |waits|
        invariant forall b :: 0 <= b < |waits| ==> waits'[b] == if b < i && IsAIC(b) then waits[b] + [t] else waits[b]
      {
        waits' := Pushed(waits', i, t);
        i := i + 3;
      }
    } else {
      for i := 0 to |waits|
        invariant |waits'| == |waits|
        invariant forall b :: 0 <= b < |waits| ==> waits'[b] == if b < i && !IsAIC(b) then waits[b] + [t] else waits[b]
      {
        if !IsAIC(i) { waits' := Pushed(waits', i, t); }
      }
    }
  }

  lemma AllGranted(mode: Mode, grants: seq<Times>, block: nat, t: Time)
    requires (mode == Mode0 || mode == Mode0Solo) && |grants| % 3 == 0 && block < |grants| && InUse(mode, |grants|, block)
    ensures Granted(mode, grants, block, t, GrantAll(grants, IsAIC(block), t))
  {
    CoresExactly(true, |grants|);
    CoresExactly(false, |grants|);
    VectorsExactly(|grants| / 3);
  }

  lemma WaitingAll(waits: seq<Times>, grants: seq<Times>, taken: seq<nat>, aic: bool, t: Time)
    requires Waiting(waits, grants, taken)
    ensures Waiting(GrantAll(waits, aic, t), GrantAll(grants, aic, t), taken)
  {
  }
}
