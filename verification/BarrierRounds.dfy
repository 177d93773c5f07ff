/**
 * Whole rounds of the barrier as its callers see them: which calls fail, which succeed, and that the barrier ends
 * as it began.
 */
module BarrierRounds {
  import opened VectorTime
  import opened Barrier

  /** The calls' results in a run. */
  ghost function Answers<W>(s: Story<W>, rank: nat, calls: seq<Call<W>>): seq<bool>
    decreases |calls|
  {
    if calls == [] then []
    else
      var next := Next(s, rank, calls[0].worker, calls[0].time);
      [next.1] + Answers(next.0, rank, calls[1..])
  }

  ghost predicate AllAre(answers: seq<bool>, n: nat, ok: bool) {
    |answers| == n && forall i :: 0 <= i < n ==> answers[i] == ok
  }

  ghost function Workers<W>(calls: seq<Call<W>>): set<W> { set i | 0 <= i < |calls| :: calls[i].worker }

  ghost predicate Once<W>(calls: seq<Call<W>>) { forall i, j :: 0 <= i < j < |calls| ==> calls[i].worker != calls[j].worker }

  lemma WorkersFirst<W>(calls: seq<Call<W>>)
    requires calls != []
    ensures Workers(calls) == {calls[0].worker} + Workers(calls[1..])
    ensures Once(calls) ==> calls[0].worker !in Workers(calls[1..]) && Once(calls[1..])
  {
    var rest := calls[1..];
    forall i | 0 <= i < |rest| ensures rest[i] == calls[i + 1] { }
    forall w | w in Workers(calls) ensures w == calls[0].worker || w in Workers(rest) {
      var i :| 0 <= i < |calls| && calls[i].worker == w;
      if i > 0 { assert rest[i - 1].worker == w; }
    }
    forall w | w in Workers(rest) ensures w in Workers(calls) {
      var i :| 0 <= i < |rest| && rest[i].worker == w;
      assert calls[i + 1].worker == w;
    }
  }

  lemma SomeWorkers<W>(calls: seq<Call<W>>)
    ensures Workers(calls) == {} <==> calls == []
  {
    if calls != [] { assert calls[0].worker in Workers(calls); }
  }

  lemma Fewer<W>(a: set<W>, b: set<W>)
    requires a <= b
    ensures |a| <= |b|
  {
    assert b == a + (b - a);
  }

  // ------------------------------------------------------------------ single calls

  lemma NextSound<W>(s: Story<W>, rank: nat, w: W, vt: Time)
    requires Sound(s, rank)
    ensures Sound(Next(s, rank, w, vt).0, rank)
  {
    ArriveSound(s, rank, w, vt);
    LeaveSound(Arrive(s, rank, w, vt), rank, w);
  }

  /** Too few have come: the call fails and its worker has arrived. */
  lemma TooFew<W>(s: Story<W>, rank: nat, w: W, vt: Time)
    requires Sound(s, rank) && !s.full && |s.current.arrived + {w}| < rank
    ensures Next(s, rank, w, vt) == (Story(false, Joined(s.current, w, vt), s.finished), false)
  {
    CallsObey(s, rank, w, vt);
  }

  /** Somebody waiting calls again and is let go; the last one ends the round. */
  lemma LetGo<W>(s: Story<W>, rank: nat, w: W, vt: Time)
    requires Sound(s, rank) && s.full && w in Waiting(s.current)
    ensures Next(s, rank, w, vt).1
    ensures Waiting(s.current) == {w} ==>
              Next(s, rank, w, vt).0 == Story(false, NewRound(), s.finished + [Departed(s.current, w)])
    ensures Waiting(s.current) != {w} ==>
              && Next(s, rank, w, vt).0 == Story(true, Departed(s.current, w), s.finished)
              && Waiting(Departed(s.current, w)) == Waiting(s.current) - {w}
  {
    CallsObey(s, rank, w, vt);
    LeaveSound(s, rank, w);
    DepartOne(s.current, w);
  }

  /** The call that completes the gathering succeeds and leaves the others waiting. */
  lemma FirstGone<W>(s: Story<W>, rank: nat, w: W, vt: Time)
    requires Sound(s, rank) && !s.full && rank <= |s.current.arrived + {w}| && w !in s.current.arrived
    ensures Next(s, rank, w, vt).1
    ensures var s' := Next(s, rank, w, vt).0;
            if s.current.arrived == {} then
              s' == Story(false, NewRound(), s.finished + [Departed(Joined(s.current, w, vt), w)])
            else
              s' == Story(true, Departed(Joined(s.current, w, vt), w), s.finished) && Waiting(s'.current) == s.current.arrived
  {
    ArriveSound(s, rank, w, vt);
    LetGo(Arrive(s, rank, w, vt), rank, w, vt);
  }

  // ------------------------------------------------------------------ stages of a round

  /** While fewer than `rank` workers have called, all calls fail and everybody who called has arrived. */
  lemma {:induction false} Gathering<W>(s: Story<W>, rank: nat, calls: seq<Call<W>>, all: set<W>)
    requires Sound(s, rank) && !s.full && all == s.current.arrived + Workers(calls) && |all| < rank
    ensures !Run(s, rank, calls).full && Run(s, rank, calls).current.arrived == all && Run(s, rank, calls).finished == s.finished
    ensures AllAre(Answers(s, rank, calls), |calls|, false)
    decreases |calls|
  {
    SomeWorkers(calls);
    if calls != [] {
      var s' := GatherOne(s, rank, calls, all);
      Gathering(s', rank, calls[1..], all);
    }
  }

  lemma GatherOne<W>(s: Story<W>, rank: nat, calls: seq<Call<W>>, all: set<W>) returns (s': Story<W>)
    requires Sound(s, rank) && !s.full && calls != [] && all == s.current.arrived + Workers(calls) && |all| < rank
    ensures Next(s, rank, calls[0].worker, calls[0].time) == (s', false)
    ensures Sound(s', rank) && !s'.full && all == s'.current.arrived + Workers(calls[1..]) && s'.finished == s.finished
  {
    var c := calls[0];
    WorkersFirst(calls);
    Fewer(s.current.arrived + {c.worker}, all);
    TooFew(s, rank, c.worker, c.time);
    NextSound(s, rank, c.worker, c.time);
    s' := Story(false, Joined(s.current, c.worker, c.time), s.finished);
  }

  /** The last finished round is one of these workers and times, and the barrier is as new. */
  ghost predicate RoundOver<W>(s: Story<W>, s': Story<W>, arrived: set<W>, times: seq<Time>) {
    && !s'.full && s'.current == NewRound() && |s'.finished| == |s.finished| + 1 && s.finished <= s'.finished
    && s'.finished[|s.finished|].arrived == arrived && s'.finished[|s.finished|].times == times
  }

  /** Once enough have come, each of them gets away with one more call, in any order, and then the barrier is as new. */
  lemma {:induction false} Dispersing<W>(s: Story<W>, rank: nat, calls: seq<Call<W>>)
    requires Sound(s, rank) && s.full && Once(calls) && Workers(calls) == Waiting(s.current)
    ensures AllAre(Answers(s, rank, calls), |calls|, true)
    ensures RoundOver(s, Run(s, rank, calls), s.current.arrived, s.current.times)
    decreases |calls|
  {
    SomeWorkers(calls);
    var c := calls[0];
    WorkersFirst(calls);
    SomeWorkers(calls[1..]);
    LetGo(s, rank, c.worker, c.time);
    NextSound(s, rank, c.worker, c.time);
    if calls[1..] != [] {
      Dispersing(Story(true, Departed(s.current, c.worker), s.finished), rank, calls[1..]);
    }
  }

  /**
   * A whole round as its callers see it: all calls fail until the one that brings the number of different callers
   * to `rank`; that one succeeds, and so does one more call of every other caller, in any order; then the barrier
   * is as new, and the round on record has all the callers.
   */
  lemma WholeRound<W>(s: Story<W>, rank: nat, gather: seq<Call<W>>, last: Call<W>, leave: seq<Call<W>>)
    requires Sound(s, rank) && !s.full && s.current == NewRound()
    requires |Workers(gather)| < rank <= |Workers(gather) + {last.worker}|
    requires Once(leave) && Workers(leave) == Workers(gather)
    ensures AllAre(Answers(s, rank, gather), |gather|, false)
    ensures var s1 := Run(s, rank, gather);
            var next := Next(s1, rank, last.worker, last.time);
            && next.1 && AllAre(Answers(next.0, rank, leave), |leave|, true)
            && RoundOver(s, Run(next.0, rank, leave), Workers(gather) + {last.worker}, s1.current.times + [last.time])
  {
    Gathering(s, rank, gather, Workers(gather));
    EveryRun(s, rank, gather);
    LastStage(Run(s, rank, gather), rank, last, leave);
  }

  lemma LastStage<W>(s: Story<W>, rank: nat, last: Call<W>, leave: seq<Call<W>>)
    requires Sound(s, rank) && !s.full && |s.current.arrived| < rank <= |s.current.arrived + {last.worker}|
    requires Once(leave) && Workers(leave) == s.current.arrived
    ensures var next := Next(s, rank, last.worker, last.time);
            && next.1 && AllAre(Answers(next.0, rank, leave), |leave|, true)
            && RoundOver(s, Run(next.0, rank, leave), s.current.arrived + {last.worker}, s.current.times + [last.time])
  {
    assert last.worker in s.current.arrived ==> s.current.arrived + {last.worker} == s.current.arrived;
    FirstGone(s, rank, last.worker, last.time);
    NextSound(s, rank, last.worker, last.time);
    SomeWorkers(leave);
    if leave != [] { Dispersing(Next(s, rank, last.worker, last.time).0, rank, leave); }
  }
}
