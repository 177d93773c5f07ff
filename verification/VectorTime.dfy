/** Vector times: finite maps from components to counts, joined by the pointwise maximum. */
module VectorTime {
  import opened Intervals

  type Time = map<nat, nat>

  function At(t: Time, i: nat): nat { if i in t then t[i] else 0 }

  /** VectorClock::UpdateVectorTime(x, y), as the new value of y. */
  function Join(x: Time, y: Time): (t: Time)
    ensures t.Keys == x.Keys + y.Keys
    ensures forall i :: At(t, i) == Max(At(x, i), At(y, i))
  {
    map i | i in x.Keys + y.Keys :: Max(At(x, i), At(y, i))
  }

  lemma SameAt(s: Time, t: Time)
    requires s.Keys == t.Keys && forall i :: At(s, i) == At(t, i)
    ensures s == t
  {
    forall i | i in s.Keys ensures s[i] == t[i] {
      assert At(s, i) == At(t, i);
    }
  }

  lemma JoinCommutes(x: Time, y: Time)
    ensures Join(x, y) == Join(y, x)
  {
    SameAt(Join(x, y), Join(y, x));
  }

  lemma JoinEmpty(x: Time)
    ensures Join(x, map[]) == x == Join(map[], x)
  {
    SameAt(Join(x, map[]), x);
    SameAt(Join(map[], x), x);
  }

  /** The join of a sequence of times, in the order in which they come in. */
  function JoinAll(ts: seq<Time>): Time {
    if ts == [] then map[] else Join(ts[|ts| - 1], JoinAll(ts[..|ts| - 1]))
  }

  lemma JoinAllAppend(ts: seq<Time>, t: Time)
    ensures JoinAll(ts + [t]) == Join(t, JoinAll(ts))
  {
    assert (ts + [t])[..|ts|] == ts;
  }

  /** The join is the least time above all of them, componentwise. */
  lemma {:induction false} JoinAllIsSupremum(ts: seq<Time>, i: nat)
    ensures forall k :: 0 <= k < |ts| ==> At(ts[k], i) <= At(JoinAll(ts), i)
    ensures At(JoinAll(ts), i) == 0 || exists k :: 0 <= k < |ts| && At(ts[k], i) == At(JoinAll(ts), i)
  {
    if ts != [] {
      var init := ts[..|ts| - 1];
      JoinAllIsSupremum(init, i);
      assert At(JoinAll(ts), i) == Max(At(ts[|ts| - 1], i), At(JoinAll(init), i));
      forall k | 0 <= k < |ts| ensures At(ts[k], i) <= At(JoinAll(ts), i) {
        if k < |init| { assert init[k] == ts[k]; }
      }
      if At(JoinAll(ts), i) != 0 && At(JoinAll(ts), i) != At(ts[|ts| - 1], i) {
        var k :| 0 <= k < |init| && At(init[k], i) == At(JoinAll(init), i);
        assert ts[k] == init[k];
      }
    }
  }
}
