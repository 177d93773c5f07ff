/**
 * Who waits for whom on a cross-core flag.  The blocks of a MIX kernel come in groups: block 3g is the first
 * vector core (AIV) of group g, block 3g + 1 the second and block 3g + 2 the cube core (AIC).  A grant to a block
 * joins one set of each of its senders; the senders of a block are a team, and teams do not overlap.
 */
module FlagTeams {
  import opened VectorTime

  /** On one-to-one kernels modes 0 and 2 work with as many vector cores as there are cube cores. */
  datatype Mode = Mode0 | Mode0Solo | Mode1 | Mode2 | Mode2Solo

  type Times = seq<Time>

  predicate IsAIC(block: nat) { block % 3 == 2 }

  /** The cube cores, or the vector cores, among the first n blocks. */
  function Cores(aic: bool, n: nat): seq<nat> {
    if n == 0 then [] else if IsAIC(n - 1) == aic then Cores(aic, n - 1) + [n - 1] else Cores(aic, n - 1)
  }

  lemma {:induction false} CoresExactly(aic: bool, n: nat)
    ensures forall i :: 0 <= i < |Cores(aic, n)| ==> Cores(aic, n)[i] < n && IsAIC(Cores(aic, n)[i]) == aic
    ensures forall b :: 0 <= b < n && IsAIC(b) == aic ==> b in Cores(aic, n)
  {
    if n > 0 { CoresExactly(aic, n - 1); }
  }

  lemma CoresOfGroup(aic: bool, n: nat)
    requires n % 3 == 0
    ensures Cores(aic, n + 1) == if aic then Cores(aic, n) else Cores(aic, n) + [n]
    ensures Cores(aic, n + 2) == if aic then Cores(aic, n) else Cores(aic, n) + [n] + [n + 1]
    ensures Cores(aic, n + 3) == if aic then Cores(aic, n) + [n + 2] else Cores(aic, n) + [n] + [n + 1]
  {
  }

  /** GetAICCount and GetAIVCount. */
  lemma {:induction false} CoreCounts(n: nat)
    requires n % 3 == 0
    ensures |Cores(true, n)| == n / 3 && |Cores(false, n)| == n / 3 * 2
  {
    if n > 0 {
      CoreCounts(n - 3);
      CoresOfGroup(true, n - 3);
      CoresOfGroup(false, n - 3);
    }
  }

  function Vectors(block: nat): seq<nat> { [block / 3 * 3, block / 3 * 3 + 1] }
  function Cube(block: nat): nat { block / 3 * 3 + 2 }

  /** One-to-one kernels: the n-th cube core and the n-th vector core, counted over all groups. */
  function VectorOf(aic: nat): nat { aic / 3 / 2 * 3 + aic / 3 % 2 }
  function CubeOf(aiv: nat): nat { 3 * (aiv / 3 * 2 + aiv % 3) + 2 }

  /** The partner formulas are inverse to each other. */
  lemma Partners(b: nat)
    ensures IsAIC(b) ==> !IsAIC(VectorOf(b)) && CubeOf(VectorOf(b)) == b && VectorOf(b) <= b
    ensures !IsAIC(b) ==> IsAIC(CubeOf(b)) && VectorOf(CubeOf(b)) == b
  {
    if IsAIC(b) {
      var h, r := b / 3 / 2, b / 3 % 2;
      assert b / 3 == h * 2 + r && VectorOf(b) == h * 3 + r;
      assert VectorOf(b) / 3 == h && VectorOf(b) % 3 == r;
    } else {
      var g, r := b / 3, b % 3;
      var n := g * 2 + r;
      assert CubeOf(b) / 3 == n && n / 2 == g && n % 2 == r;
    }
  }

  /** The n-th vector core, and the first k of them, in block order. */
  function Vector(n: nat): nat { n / 2 * 3 + n % 2 }

  function VectorsUpTo(k: nat): seq<nat> { if k == 0 then [] else VectorsUpTo(k - 1) + [Vector(k - 1)] }

  lemma VectorsAndCubes(n: nat, v: nat)
    ensures !IsAIC(Vector(n)) && CubeOf(Vector(n)) == 3 * n + 2
    ensures !IsAIC(v) && CubeOf(v) == 3 * n + 2 ==> v == Vector(n)
  {
    var h, r := n / 2, n % 2;
    assert n == h * 2 + r && Vector(n) / 3 == h && Vector(n) % 3 == r;
    Partners(v);
    assert (3 * n + 2) / 3 == n;
  }

  lemma {:induction false} VectorsAre(k: nat)
    ensures |VectorsUpTo(k)| == k && forall i :: 0 <= i < k ==> VectorsUpTo(k)[i] == Vector(i)
  {
    if k > 0 { VectorsAre(k - 1); }
  }

  lemma VectorsExactly(k: nat)
    ensures |VectorsUpTo(k)| == k
    ensures forall i :: 0 <= i < k ==> !IsAIC(VectorsUpTo(k)[i]) && CubeOf(VectorsUpTo(k)[i]) < 3 * k
    ensures forall v :: !IsAIC(v) && CubeOf(v) < 3 * k ==> v in VectorsUpTo(k)
  {
    VectorsAre(k);
    forall i | 0 <= i < k ensures !IsAIC(VectorsUpTo(k)[i]) && CubeOf(VectorsUpTo(k)[i]) < 3 * k {
      VectorsAndCubes(i, 0);
    }
    forall v: nat | !IsAIC(v) && CubeOf(v) < 3 * k ensures v in VectorsUpTo(k) {
      var n := v / 3 * 2 + v % 3;
      VectorsAndCubes(n, v);
      assert VectorsUpTo(k)[n] == v;
    }
  }

  /** All vector cores of a number of groups. */
  lemma {:induction false} VectorsAreCores(groups: nat)
    ensures Cores(false, 3 * groups) == VectorsUpTo(2 * groups)
  {
    if groups > 0 {
      VectorsAreCores(groups - 1);
      TwoMoreCores(groups - 1);
      TwoMoreVectors(groups - 1);
    }
  }

  lemma TwoMoreCores(g: nat)
    ensures Cores(false, 3 * (g + 1)) == Cores(false, 3 * g) + [3 * g] + [3 * g + 1]
  {
    CoresOfGroup(false, 3 * g);
  }

  lemma TwoMoreVectors(g: nat)
    ensures VectorsUpTo(2 * (g + 1)) == VectorsUpTo(2 * g) + [3 * g] + [3 * g + 1]
  {
    VectorsOfGroup(g);
    assert VectorsUpTo(2 * g + 1) == VectorsUpTo(2 * g) + [Vector(2 * g)];
    assert VectorsUpTo(2 * g + 2) == VectorsUpTo(2 * g + 1) + [Vector(2 * g + 1)];
  }

  lemma VectorsOfGroup(g: nat)
    ensures Vector(2 * g) == 3 * g && Vector(2 * g + 1) == 3 * g + 1
  {
    assert 2 * g / 2 == g && 2 * g % 2 == 0;
    assert (2 * g + 1) / 2 == g && (2 * g + 1) % 2 == 1;
  }

  /** Vectors and Cube stay inside the group of three. */
  lemma InGroup(b: nat)
    ensures Cube(b) / 3 == b / 3 && IsAIC(Cube(b))
    ensures Vectors(b)[0] / 3 == b / 3 && !IsAIC(Vectors(b)[0])
    ensures Vectors(b)[1] / 3 == b / 3 && !IsAIC(Vectors(b)[1])
  {
    var g := b / 3;
    assert g * 3 / 3 == g && (g * 3 + 1) / 3 == g && (g * 3 + 2) / 3 == g;
  }

  lemma GroupMembers(b: nat, c: nat)
    ensures c in Vectors(b) <==> !IsAIC(c) && c / 3 == b / 3
    ensures c == Cube(b) <==> IsAIC(c) && c / 3 == b / 3
  {
    InGroup(b);
    var g, r := c / 3, c % 3;
    assert c == g * 3 + r && 0 <= r < 3;
  }

  /** The blocks whose sets a grant to this block waits for, in block order. */
  function Senders(mode: Mode, blocks: nat, block: nat): seq<nat> {
    match mode
    case Mode0 => Cores(IsAIC(block), blocks)
    case Mode0Solo => if IsAIC(block) then Cores(true, blocks) else VectorsUpTo(blocks / 3)
    case Mode1 => if IsAIC(block) then [] else Vectors(block)
    case Mode2 => if IsAIC(block) then Vectors(block) else [Cube(block)]
    case Mode2Solo => if IsAIC(block) then [VectorOf(block)] else if CubeOf(block) < blocks then [CubeOf(block)] else []
  }

  /**
   * Whose sets a block waits for, kind by kind: in mode 0 the blocks of its kind; in mode 1 the vector cores of its
   * group, if it is one; in mode 2 the blocks of its group of the other kind.  On one-to-one kernels mode 0 leaves
   * out vector cores without a cube core, and in mode 2 the n-th cube core and the n-th vector core are partners.
   */
  lemma SendersExactly(blocks: nat, b: nat, c: nat)
    requires blocks % 3 == 0 && b < blocks
    ensures c in Senders(Mode0, blocks, b) <==> c < blocks && IsAIC(c) == IsAIC(b)
    ensures c in Senders(Mode0Solo, blocks, b) <==>
            c < blocks && IsAIC(c) == IsAIC(b) && (!IsAIC(c) ==> CubeOf(c) < blocks)
    ensures c in Senders(Mode1, blocks, b) <==> !IsAIC(b) && !IsAIC(c) && c / 3 == b / 3
    ensures c in Senders(Mode2, blocks, b) <==> IsAIC(c) != IsAIC(b) && c / 3 == b / 3
    ensures c in Senders(Mode2Solo, blocks, b) <==>
            c < blocks && if IsAIC(b) then !IsAIC(c) && CubeOf(c) == b else IsAIC(c) && CubeOf(b) == c
  {
    CoresExactly(IsAIC(b), blocks);
    GroupMembers(b, c);
    SoloSenders(blocks, b, c);
    Partners(b);
    Partners(c);
  }

  lemma SoloSenders(blocks: nat, b: nat, c: nat)
    requires blocks % 3 == 0 && b < blocks
    ensures c in Senders(Mode0Solo, blocks, b) <==>
            c < blocks && IsAIC(c) == IsAIC(b) && (!IsAIC(c) ==> CubeOf(c) < blocks)
  {
    if IsAIC(b) {
      CoresExactly(true, blocks);
    } else {
      VectorsExactly(blocks / 3);
      Partners(c);
      if !IsAIC(c) { BelowCube(c); }
    }
  }

  lemma BelowCube(v: nat)
    requires !IsAIC(v)
    ensures v <= CubeOf(v)
  {
    var g, r := v / 3, v % 3;
    assert v == g * 3 + r;
  }

  /** The blocks that must all have set the flag for a set by this one to take effect. */
  function Team(mode: Mode, blocks: nat, block: nat): seq<nat> {
    match mode
    case Mode0 => Cores(IsAIC(block), blocks)
    case Mode0Solo =>
      if IsAIC(block) then Cores(true, blocks) else if CubeOf(block) < blocks then VectorsUpTo(blocks / 3) else []
    case Mode1 => if IsAIC(block) then [] else Vectors(block)
    case Mode2 => if IsAIC(block) then [block] else Vectors(block)
    case Mode2Solo => [block]
  }

  /** Whoever waits for one member of a team waits for exactly that team. */
  lemma SendersAreTeams(mode: Mode, blocks: nat, block: nat, i: nat)
    requires i < |Senders(mode, blocks, block)|
    ensures Team(mode, blocks, Senders(mode, blocks, block)[i]) == Senders(mode, blocks, block)
  {
    if mode == Mode0 || mode == Mode0Solo {
      CoresExactly(IsAIC(block), blocks);
      VectorsExactly(blocks / 3);
    } else if mode != Mode2Solo {
      InGroup(block);
    }
  }

  // ------------------------------------------------------------------ what the flag promises

  function Nth(sets: seq<Times>, block: nat, k: nat): Time {
    if block < |sets| && k < |sets[block]| then sets[block][k] else map[]
  }

  /** The k-th times set by the members of a team. */
  function Column(sets: seq<Times>, team: seq<nat>, k: nat): seq<Time> {
    seq(|team|, i requires 0 <= i < |team| => Nth(sets, team[i], k))
  }

  function Count(sets: seq<Times>, block: nat): nat { if block < |sets| then |sets[block]| else 0 }

  /**
   * The k-th grant joins the k-th sets of all senders, and there are as many grants as the slowest sender has
   * sets; a block without senders is granted nothing.
   */
  ghost predicate Promised(sets: seq<Times>, senders: seq<nat>, given: Times) {
    && (forall i :: 0 <= i < |senders| ==> |given| <= Count(sets, senders[i]))
    && (if senders == [] then given == []
        else exists i :: 0 <= i < |senders| && |given| == Count(sets, senders[i]))
    && (forall k :: 0 <= k < |given| ==> given[k] == JoinAll(Column(sets, senders, k)))
  }

  /** The promise leaves no choice: the sets made so far determine the grants. */
  lemma PromiseIsExact(sets: seq<Times>, senders: seq<nat>, given: Times, given': Times)
    requires Promised(sets, senders, given) && Promised(sets, senders, given')
    ensures given == given'
  {
    assert |given| == |given'|;
    forall k | 0 <= k < |given| ensures given[k] == given'[k] {
      assert given[k] == JoinAll(Column(sets, senders, k));
    }
  }

  // ------------------------------------------------------------------ one team

  /** What a member has queued is what it has set beyond the grants given. */
  ghost predicate Queued(sets: seq<Times>, queues: seq<Times>, senders: seq<nat>, given: Times) {
    && |queues| == |sets|
    && forall i :: 0 <= i < |senders| ==>
         senders[i] < |sets| && |given| <= |sets[senders[i]]| && queues[senders[i]] == sets[senders[i]][|given|..]
  }

  ghost predicate Served(sets: seq<Times>, queues: seq<Times>, senders: seq<nat>, given: Times) {
    Promised(sets, senders, given) && Queued(sets, queues, senders, given)
  }

  function Pushed(q: seq<Times>, block: nat, t: Time): seq<Times> {
    if block < |q| then q[block := q[block] + [t]] else q
  }

  ghost predicate Full(queues: seq<Times>, team: seq<nat>) {
    forall i :: 0 <= i < |team| ==> Count(queues, team[i]) > 0
  }

  /** Every member of the team gives up its oldest time; nobody else does. */
  ghost predicate Popped(queues: seq<Times>, team: seq<nat>, queues': seq<Times>) {
    && |queues'| == |queues|
    && forall b :: 0 <= b < |queues| ==>
         queues'[b] == if b in team && queues[b] != [] then queues[b][1..] else queues[b]
  }

  /** While a team is not full, a new set only queues. */
  lemma NotYet(sets: seq<Times>, queues: seq<Times>, team: seq<nat>, given: Times, block: nat, t: Time)
    requires Served(sets, queues, team, given) && block in team && !Full(Pushed(queues, block, t), team)
    ensures Served(Pushed(sets, block, t), Pushed(queues, block, t), team, given)
  {
    var sets', queues' := Pushed(sets, block, t), Pushed(queues, block, t);
    var i :| 0 <= i < |team| && Count(queues', team[i]) == 0;
    assert Count(sets', team[i]) == |given|;
    SameColumns(sets, sets', team, |given|);
  }

  lemma SameColumns(sets: seq<Times>, sets': seq<Times>, team: seq<nat>, n: nat)
    requires forall i, k {:trigger Nth(sets, team[i], k)} :: 0 <= i < |team| && 0 <= k < n ==> Nth(sets, team[i], k) == Nth(sets', team[i], k)
    ensures forall k :: 0 <= k < n ==> Column(sets, team, k) == Column(sets', team, k)
  {
  }

  /** A member that completes its team had nothing queued. */
  lemma LastToArrive(sets: seq<Times>, queues: seq<Times>, team: seq<nat>, given: Times, block: nat, t: Time)
    requires Served(sets, queues, team, given) && block in team && Full(Pushed(queues, block, t), team)
    ensures block < |queues| && queues[block] == []
  {
    var i :| 0 <= i < |team| && |given| == Count(sets, team[i]);
    assert Count(queues, team[i]) == 0;
    assert Count(Pushed(queues, block, t), team[i]) > 0;
  }

  /** Once the team is full, the oldest times are joined into one more grant. */
  lemma Fire(sets: seq<Times>, queues: seq<Times>, team: seq<nat>, given: Times, block: nat, t: Time, queues': seq<Times>)
    requires Served(sets, queues, team, given) && block in team && Full(Pushed(queues, block, t), team)
    requires Popped(Pushed(queues, block, t), team, queues')
    ensures Served(Pushed(sets, block, t), queues', team, given + [JoinAll(Column(Pushed(queues, block, t), team, 0))])
  {
    var sets', pushed := Pushed(sets, block, t), Pushed(queues, block, t);
    var given' := given + [JoinAll(Column(pushed, team, 0))];
    LastToArrive(sets, queues, team, given, block, t);
    PushedQueued(sets, queues, team, given, block, t);
    FirePopped(sets', pushed, team, given, queues', given');
    SameColumns(sets, sets', team, |given|);
    FrontColumn(sets', pushed, team, given);
    MorePromised(sets, sets', team, given, given', block);
  }

  lemma MorePromised(sets: seq<Times>, sets': seq<Times>, team: seq<nat>, given: Times, given': Times, block: nat)
    requires Promised(sets, team, given) && block in team
    requires forall k :: 0 <= k < |given| ==> Column(sets, team, k) == Column(sets', team, k)
    requires given' == given + [JoinAll(Column(sets', team, |given|))]
    requires forall i :: 0 <= i < |team| ==> |given'| <= Count(sets', team[i])
    requires |given'| == Count(sets', block)
    ensures Promised(sets', team, given')
  {
    var i :| 0 <= i < |team| && team[i] == block;
    assert |given'| == Count(sets', team[i]);
    forall k | 0 <= k < |given'| ensures given'[k] == JoinAll(Column(sets', team, k)) {
      if k < |given| { assert given[k] == JoinAll(Column(sets, team, k)); }
    }
  }

  lemma PushedQueued(sets: seq<Times>, queues: seq<Times>, team: seq<nat>, given: Times, block: nat, t: Time)
    requires Queued(sets, queues, team, given)
    ensures Queued(Pushed(sets, block, t), Pushed(queues, block, t), team, given)
  {
  }

  lemma FirePopped(sets: seq<Times>, queues: seq<Times>, team: seq<nat>, given: Times, queues': seq<Times>, given': Times)
    requires Queued(sets, queues, team, given) && Full(queues, team) && Popped(queues, team, queues')
    requires |given'| == |given| + 1
    ensures Queued(sets, queues', team, given')
  {
    forall i | 0 <= i < |team|
      ensures |given'| <= |sets[team[i]]| && queues'[team[i]] == sets[team[i]][|given'|..]
    {
      assert Count(queues, team[i]) > 0;
    }
  }

  lemma FrontColumn(sets: seq<Times>, queues: seq<Times>, team: seq<nat>, given: Times)
    requires Queued(sets, queues, team, given) && Full(queues, team)
    ensures Column(queues, team, 0) == Column(sets, team, |given|)
  {
    forall i | 0 <= i < |team| ensures Nth(queues, team[i], 0) == Nth(sets, team[i], |given|) {
      assert Count(queues, team[i]) > 0;
    }
  }

  /** A team that neither set nor gave up anything is served as before. */
  lemma Untouched(sets: seq<Times>, queues: seq<Times>, team: seq<nat>, given: Times, sets': seq<Times>, queues': seq<Times>)
    requires Served(sets, queues, team, given) && |sets'| == |queues'| == |sets|
    requires forall i :: 0 <= i < |team| ==> team[i] < |sets| ==> sets'[team[i]] == sets[team[i]] && queues'[team[i]] == queues[team[i]]
    ensures Served(sets', queues', team, given)
  {
    SameColumns(sets, sets', team, |given|);
    if team != [] {
      var i :| 0 <= i < |team| && |given| == Count(sets, team[i]);
      assert Count(sets', team[i]) == |given|;
    }
  }

  // ------------------------------------------------------------------ all blocks

  ghost predicate AllServed(mode: Mode, sets: seq<Times>, queues: seq<Times>, grants: seq<Times>) {
    && |queues| == |sets| == |grants|
    && forall b :: 0 <= b < |grants| ==> Served(sets, queues, Senders(mode, |sets|, b), grants[b])
  }

  /** The grants after the whole team of a block has set the flag. */
  ghost predicate Granted(mode: Mode, grants: seq<Times>, block: nat, t: Time, grants': seq<Times>) {
    && |grants'| == |grants|
    && forall b :: 0 <= b < |grants| ==>
         grants'[b] == if block in Senders(mode, |grants|, b) then grants[b] + [t] else grants[b]
  }

  lemma AllNotYet(mode: Mode, sets: seq<Times>, queues: seq<Times>, grants: seq<Times>, block: nat, t: Time)
    requires AllServed(mode, sets, queues, grants) && block < |sets|
    requires !Full(Pushed(queues, block, t), Team(mode, |sets|, block))
    ensures AllServed(mode, Pushed(sets, block, t), Pushed(queues, block, t), grants)
  {
    forall b | 0 <= b < |grants|
      ensures Served(Pushed(sets, block, t), Pushed(queues, block, t), Senders(mode, |sets|, b), grants[b])
    {
      var senders := Senders(mode, |sets|, b);
      if i :| 0 <= i < |senders| && senders[i] == block {
        SendersAreTeams(mode, |sets|, b, i);
        NotYet(sets, queues, senders, grants[b], block, t);
      } else {
        Untouched(sets, queues, senders, grants[b], Pushed(sets, block, t), Pushed(queues, block, t));
      }
    }
  }

  lemma AllFire(mode: Mode, sets: seq<Times>, queues: seq<Times>, grants: seq<Times>, block: nat, t: Time,
                queues': seq<Times>, grants': seq<Times>)
    requires AllServed(mode, sets, queues, grants) && block < |sets|
    requires Full(Pushed(queues, block, t), Team(mode, |sets|, block))
    requires Popped(Pushed(queues, block, t), Team(mode, |sets|, block), queues')
    requires Granted(mode, grants, block, JoinAll(Column(Pushed(queues, block, t), Team(mode, |sets|, block), 0)), grants')
    ensures AllServed(mode, Pushed(sets, block, t), queues', grants')
  {
    var team := Team(mode, |sets|, block);
    var pushed := Pushed(queues, block, t);
    forall b | 0 <= b < |grants|
      ensures Served(Pushed(sets, block, t), queues', Senders(mode, |sets|, b), grants'[b])
    {
      var senders := Senders(mode, |sets|, b);
      if i :| 0 <= i < |senders| && senders[i] == block {
        SendersAreTeams(mode, |sets|, b, i);
        Fire(sets, queues, senders, grants[b], block, t, queues');
      } else {
        OtherTeam(mode, |sets|, block, b);
        Untouched(sets, queues, senders, grants[b], Pushed(sets, block, t), queues');
      }
    }
  }

  lemma OtherTeam(mode: Mode, blocks: nat, block: nat, b: nat)
    requires block !in Senders(mode, blocks, b) && block < blocks
    ensures forall i :: 0 <= i < |Senders(mode, blocks, b)| ==> Senders(mode, blocks, b)[i] !in Team(mode, blocks, block)
  {
    match mode
    case Mode0 =>
      CoresExactly(true, blocks);
      CoresExactly(false, blocks);
    case Mode0Solo => OtherSolo(blocks, block, b);
    case _ =>
      InGroup(block);
      InGroup(b);
  }

  lemma OtherSolo(blocks: nat, block: nat, b: nat)
    requires block !in Senders(Mode0Solo, blocks, b) && block < blocks
    ensures forall i :: 0 <= i < |Senders(Mode0Solo, blocks, b)| ==>
              Senders(Mode0Solo, blocks, b)[i] !in Team(Mode0Solo, blocks, block)
  {
    CoresExactly(true, blocks);
    VectorsExactly(blocks / 3);
    if !IsAIC(block) && !IsAIC(b) { assert CubeOf(block) >= blocks by { UsersAre(blocks, block); } }
  }

  lemma UsersAre(blocks: nat, v: nat)
    requires !IsAIC(v)
    ensures v in VectorsUpTo(blocks / 3) <==> CubeOf(v) < blocks / 3 * 3
    ensures CubeOf(v) < blocks / 3 * 3 <==> CubeOf(v) < blocks
  {
    VectorsExactly(blocks / 3);
    CubeBelow(blocks, v);
  }

  lemma CubeBelow(blocks: nat, v: nat)
    requires !IsAIC(v)
    ensures CubeOf(v) < blocks / 3 * 3 <==> CubeOf(v) < blocks
  {
    var n, q, r := v / 3 * 2 + v % 3, blocks / 3, blocks % 3;
    assert CubeOf(v) == 3 * n + 2 && blocks == 3 * q + r && 0 <= r <= 2;
    BelowGroups(n, q, r);
  }

  lemma BelowGroups(n: nat, q: nat, r: nat)
    requires r <= 2
    ensures 3 * n + 2 < q * 3 <==> 3 * n + 2 < 3 * q + r
  {
  }

  /** On a one-to-one kernel a vector core takes part only if there is a cube core for it. */
  predicate InUse(mode: Mode, blocks: nat, block: nat) {
    (mode == Mode0Solo || mode == Mode2Solo) && !IsAIC(block) ==> CubeOf(block) < blocks
  }

  // ------------------------------------------------------------------ picking grants up

  ghost predicate Waiting(waits: seq<Times>, grants: seq<Times>, taken: seq<nat>) {
    && |waits| == |grants| == |taken|
    && forall b :: 0 <= b < |waits| ==> taken[b] <= |grants[b]| && waits[b] == grants[b][taken[b]..]
  }

  lemma WaitingPushed(waits: seq<Times>, grants: seq<Times>, taken: seq<nat>, block: nat, t: Time)
    requires Waiting(waits, grants, taken)
    ensures Waiting(Pushed(waits, block, t), Pushed(grants, block, t), taken)
  {
  }

  lemma WaitingTwice(waits: seq<Times>, grants: seq<Times>, taken: seq<nat>, x: nat, y: nat, t: Time)
    requires Waiting(waits, grants, taken)
    ensures Waiting(Pushed(Pushed(waits, x, t), y, t), Pushed(Pushed(grants, x, t), y, t), taken)
  {
    WaitingPushed(waits, grants, taken, x, t);
    WaitingPushed(Pushed(waits, x, t), Pushed(grants, x, t), taken, y, t);
  }

  lemma SendersExist(mode: Mode, blocks: nat, block: nat)
    requires blocks % 3 == 0 && block < blocks
    ensures forall i :: 0 <= i < |Senders(mode, blocks, block)| ==> Senders(mode, blocks, block)[i] < blocks
  {
    if mode == Mode0 || mode == Mode0Solo {
      CoresExactly(IsAIC(block), blocks);
      SoloExist(blocks);
    } else if mode == Mode2Solo {
      Partners(block);
    }
  }

  lemma SoloExist(blocks: nat)
    requires blocks % 3 == 0
    ensures forall i :: 0 <= i < |VectorsUpTo(blocks / 3)| ==> VectorsUpTo(blocks / 3)[i] < blocks
  {
    VectorsExactly(blocks / 3);
    forall i | 0 <= i < |VectorsUpTo(blocks / 3)| ensures VectorsUpTo(blocks / 3)[i] < blocks {
      VectorBelowCube(VectorsUpTo(blocks / 3)[i]);
    }
  }

  lemma VectorBelowCube(v: nat)
    requires !IsAIC(v)
    ensures v < CubeOf(v)
  {
  }

  lemma NothingSet(mode: Mode, sets: seq<Times>, grants: seq<Times>)
    requires |sets| == |grants| && |sets| % 3 == 0
    requires forall b :: 0 <= b < |sets| ==> sets[b] == grants[b] == []
    ensures AllServed(mode, sets, sets, grants)
  {
    forall b | 0 <= b < |grants| ensures Served(sets, sets, Senders(mode, |sets|, b), grants[b]) {
      var senders := Senders(mode, |sets|, b);
      SendersExist(mode, |sets|, b);
      if senders != [] { assert Count(sets, senders[0]) == 0; }
    }
  }
}
