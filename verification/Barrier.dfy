/**
 * A reusable barrier: workers gather until enough have arrived, are then released one by one with the
 * joined time, and the barrier starts over.
 */
module Barrier {
  import opened VectorTime

  // ------------------------------------------------------------------ histories

  /** The history of one round: the times passed while gathering, who arrived, and who left with what. */
  datatype Round<W> = Round(times: seq<Time>, arrived: set<W>, releases: seq<(W, Time)>)

  ghost function Released<W>(r: Round<W>): set<W> {
    set i | 0 <= i < |r.releases| :: r.releases[i].0
  }

  /** Those who have arrived and not left yet. */
  ghost function Waiting<W>(r: Round<W>): set<W> { r.arrived - Released(r) }

  /** Nobody leaves twice or without having arrived, and everybody leaves with the join of all times. */
  ghost predicate Proper<W>(r: Round<W>) {
    && Released(r) <= r.arrived
    && (forall i, j :: 0 <= i < j < |r.releases| ==> r.releases[i].0 != r.releases[j].0)
    && (forall i :: 0 <= i < |r.releases| ==> r.releases[i].1 == JoinAll(r.times))
  }

  /** A finished round: enough workers arrived and every one of them was released. */
  ghost predicate Complete<W>(r: Round<W>, rank: nat) {
    Proper(r) && r.arrived != {} && |r.arrived| >= rank && Released(r) == r.arrived
  }

  /** A barrier with its history: whether it is releasing, the current round and the finished ones. */
  datatype Story<W> = Story(full: bool, current: Round<W>, finished: seq<Round<W>>)

  function NewRound<W>(): Round<W> { Round([], {}, []) }

  function Joined<W>(r: Round<W>, w: W, vt: Time): Round<W> {
    Round(r.times + [vt], r.arrived + {w}, r.releases)
  }

  ghost function Departed<W>(r: Round<W>, w: W): Round<W> {
    r.(releases := r.releases + [(w, JoinAll(r.times))])
  }

  /** The first stage of Wait: while gathering, the worker and its time join the round. */
  ghost function Arrive<W>(s: Story<W>, rank: nat, w: W, vt: Time): Story<W> {
    if s.full then s
    else
      var r := Joined(s.current, w, vt);
      Story(|r.arrived| >= rank, r, s.finished)
  }

  /** The second stage: a waiting worker leaves, and the last one to leave ends the round. */
  ghost function Leave<W>(s: Story<W>, w: W): (Story<W>, bool) {
    if !s.full || w !in Waiting(s.current) then (s, false)
    else
      var out := Departed(s.current, w);
      if Waiting(out) == {} then (Story(false, NewRound(), s.finished + [out]), true)
      else (Story(true, out, s.finished), true)
  }

  /** A call of Wait, told by the history; the second component says whether it returns true. */
  ghost function Next<W>(s: Story<W>, rank: nat, w: W, vt: Time): (Story<W>, bool) {
    Leave(Arrive(s, rank, w, vt), w)
  }

  datatype Call<W> = Call(worker: W, time: Time)

  ghost function Run<W>(s: Story<W>, rank: nat, calls: seq<Call<W>>): Story<W>
    decreases |calls|
  {
    if calls == [] then s else Run(Next(s, rank, calls[0].worker, calls[0].time).0, rank, calls[1..])
  }

  ghost predicate Sound<W>(s: Story<W>, rank: nat) {
    && (forall i :: 0 <= i < |s.finished| ==> Complete(s.finished[i], rank))
    && Proper(s.current)
    && (s.full ==> |s.current.arrived| >= rank && Waiting(s.current) != {})
    && (!s.full ==> s.current.releases == [] && (s.current.arrived == {} || |s.current.arrived| < rank))
  }

  lemma DepartOne<W>(r: Round<W>, w: W)
    requires Proper(r) && w in Waiting(r)
    ensures Proper(Departed(r, w)) && Released(Departed(r, w)) == Released(r) + {w}
  {
    var out := Departed(r, w);
    forall i | 0 <= i < |r.releases| ensures out.releases[i] == r.releases[i] && r.releases[i].0 in Released(r) {}
    assert out.releases[|r.releases|].0 == w;
    forall x | x in Released(r) ensures x in Released(out) {
      var i :| 0 <= i < |r.releases| && r.releases[i].0 == x;
      assert out.releases[i].0 == x;
    }
  }

  lemma JoinedWaiting<W>(r: Round<W>, w: W, vt: Time)
    requires r.releases == []
    ensures Proper(Joined(r, w, vt)) && Waiting(Joined(r, w, vt)) == r.arrived + {w} && w in Waiting(Joined(r, w, vt))
  {
    assert Released(Joined(r, w, vt)) == {};
  }

  lemma ArriveSound<W>(s: Story<W>, rank: nat, w: W, vt: Time)
    requires Sound(s, rank)
    ensures Sound(Arrive(s, rank, w, vt), rank)
    ensures !s.full ==> Waiting(Arrive(s, rank, w, vt).current) == s.current.arrived + {w}
  {
    if !s.full { JoinedWaiting(s.current, w, vt); }
  }

  lemma LeaveSound<W>(s: Story<W>, rank: nat, w: W)
    requires Sound(s, rank)
    ensures Sound(Leave(s, w).0, rank)
    ensures Leave(s, w).1 ==> |s.current.arrived| >= rank
    ensures s.full && w in Waiting(s.current) ==> Waiting(Departed(s.current, w)) == Waiting(s.current) - {w}
  {
    if s.full && w in Waiting(s.current) { DepartOne(s.current, w); }
  }

  /**
   * Every sequence of calls with a common rank, retries and newcomers included: no round releases anyone
   * before `rank` workers have arrived, and a finished round released each of its workers exactly once,
   * all with the join of every time passed while gathering.
   */
  lemma {:induction false} EveryRun<W>(s: Story<W>, rank: nat, calls: seq<Call<W>>)
    requires Sound(s, rank)
    ensures Sound(Run(s, rank, calls), rank)
    decreases |calls|
  {
    if calls != [] {
      ArriveSound(s, rank, calls[0].worker, calls[0].time);
      LeaveSound(Arrive(s, rank, calls[0].worker, calls[0].time), rank, calls[0].worker);
      EveryRun(Next(s, rank, calls[0].worker, calls[0].time).0, rank, calls[1..]);
    }
  }

  /** During release a call from anyone who is not waiting changes nothing. */
  lemma OutsidersChangeNothing<W>(s: Story<W>, rank: nat, w: W, vt: Time)
    requires Sound(s, rank) && s.full && w !in Waiting(s.current)
    ensures Next(s, rank, w, vt) == (s, false)
  {
  }

  // ------------------------------------------------------------------ who is let go

  /** Everybody who has arrived in the round, counting a call by this worker. */
  ghost function ArrivedWith<W>(s: Story<W>, w: W): set<W> {
    if s.full then s.current.arrived else s.current.arrived + {w}
  }

  ghost function TimesWith<W>(s: Story<W>, vt: Time): seq<Time> {
    if s.full then s.current.times else s.current.times + [vt]
  }

  /**
   * What a call must do, in terms of who has arrived and who has been let go: it succeeds exactly when enough
   * workers have arrived and the caller is one of them not yet let go; a success hands out the join of the
   * round's times and is recorded; and the round is over, the barrier as new, exactly when all of them have gone.
   */
  ghost predicate Obeys<W>(s: Story<W>, rank: nat, w: W, vt: Time, s': Story<W>, ok: bool) {
    var arrived, times := ArrivedWith(s, w), TimesWith(s, vt);
    && (ok <==> |arrived| >= rank && w in arrived && w !in Released(s.current))
    && var releases := if ok then s.current.releases + [(w, JoinAll(times))] else s.current.releases;
       var round := Round(times, arrived, releases);
       s' == if |arrived| >= rank && Released(round) == arrived then Story(false, NewRound(), s.finished + [round])
             else Story(|arrived| >= rank, round, s.finished)
  }

  lemma CallsObey<W>(s: Story<W>, rank: nat, w: W, vt: Time)
    requires Sound(s, rank)
    ensures Obeys(s, rank, w, vt, Next(s, rank, w, vt).0, Next(s, rank, w, vt).1)
  {
    var a := Arrive(s, rank, w, vt);
    ArriveSound(s, rank, w, vt);
    assert a.current.arrived == ArrivedWith(s, w) && a.current.times == TimesWith(s, vt);
    assert a.current.releases == s.current.releases && Released(a.current) == Released(s.current);
    if a.full && w in Waiting(a.current) {
      DepartOne(a.current, w);
      assert Waiting(Departed(a.current, w)) == {} <==> Released(Departed(a.current, w)) == a.current.arrived;
    } else if !a.full {
      assert Released(s.current) == {};
    }
  }

  lemma FreshBarrier<W>(rank: nat, calls: seq<Call<W>>)
    ensures var s := Run(Story(false, NewRound(), []), rank, calls);
            && (forall i :: 0 <= i < |s.finished| ==> Complete(s.finished[i], rank))
            && (s.current.releases != [] ==> |s.current.arrived| >= rank)
            && Proper(s.current)
  {
    assert Sound(Story(false, NewRound<W>(), []), rank);
    EveryRun(Story(false, NewRound(), []), rank, calls);
  }

  // ------------------------------------------------------------------ the barrier itself

  class BarrierEvent<Worker(==)> {
    var allReachBarrier: bool
    var vtGlobal: Time
    var reachedWorkers: set<Worker>
    ghost var story: Story<Worker>
    ghost const rank: nat

    ghost predicate Valid()
      reads this
    {
      && Sound(story, rank)
      && allReachBarrier == story.full
      && vtGlobal == JoinAll(story.current.times)
      && reachedWorkers == Waiting(story.current)
    }

    constructor (ghost rank: nat)
      ensures Valid() && story == Story(false, NewRound(), []) && this.rank == rank
    {
      allReachBarrier, vtGlobal, reachedWorkers := false, map[], {};
      this.rank := rank;
      story := Story(false, NewRound(), []);
    }

    /** The first stage: record the worker and its time, and see whether enough have come. */
    method Gather(rank: nat, worker: Worker, vtSelf: Time)
      requires Valid() && !allReachBarrier && rank == this.rank
      modifies this
      ensures Valid() && story == Arrive(old(story), rank, worker, vtSelf)
    {
      ghost var s := story;
      ArriveSound(s, rank, worker, vtSelf);
      JoinAllAppend(s.current.times, vtSelf);
      JoinEmpty(vtSelf);
      assert Released(s.current) == {};
      reachedWorkers := reachedWorkers + {worker};
      if vtGlobal == map[] {
        vtGlobal := vtSelf;
      } else {
        vtGlobal := Join(vtSelf, vtGlobal);
      }
      if |reachedWorkers| >= rank {
        allReachBarrier := true;
      }
      story := Arrive(s, rank, worker, vtSelf);
    }

    /** The second stage: hand the joined time to a waiting worker and forget the worker. */
    method Release(worker: Worker) returns (ok: bool, vt: Time)
      requires Valid() && allReachBarrier
      modifies this
      ensures Valid() && (story, ok) == Leave(old(story), worker)
      ensures ok ==> vt == JoinAll(old(story).current.times)
    {
      ghost var s := story;
      LeaveSound(s, rank, worker);
      if worker !in reachedWorkers {
        return false, map[];
      }
      reachedWorkers := reachedWorkers - {worker};
      vt := vtGlobal;
      ok := true;
      story := Leave(s, worker).0;
      if reachedWorkers == {} {
        allReachBarrier := false;
        vtGlobal := map[];
        assert Waiting(NewRound<Worker>()) == {};
      }
    }

    /** A call does what the history says, and a release hands out the join of the round's times. */
    method Wait(rank: nat, worker: Worker, vtSelf: Time) returns (ok: bool, vt: Time)
      requires Valid() && rank == this.rank
      modifies this
      ensures Valid() && (story, ok) == Next(old(story), rank, worker, vtSelf)
      ensures Obeys(old(story), rank, worker, vtSelf, story, ok)
      ensures ok ==> vt == JoinAll(TimesWith(old(story), vtSelf))
    {
      CallsObey(story, rank, worker, vtSelf);
      if !allReachBarrier {
        Gather(rank, worker, vtSelf);
        if !allReachBarrier { return false, map[]; }
      }
      ok, vt := Release(worker);
    }
  }
}
