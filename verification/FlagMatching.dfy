/**
 * Pairing of set_flag and wait_flag events.  Each channel has a packed id for its sets and one for its waits;
 * an event either cancels a pending event of its counterpart or becomes pending itself, and the sets still
 * pending at the end are reported.
 */
module FlagMatching {

  /** Core, block type, source pipe, destination pipe and event number name a channel. */
  datatype Channel = Channel(coreId: nat, blockType: nat, srcPipe: nat, dstPipe: nat, eventId: nat)

  datatype Op = SetFlag | WaitFlag | OtherOp
  datatype Event = Event(op: Op, channel: Channel, serialNo: nat)

  // ------------------------------------------------------------------ packed ids

  /** Bit fields side by side, most significant first; each but the first is four bits wide. */
  function Pack(fields: seq<nat>): nat {
    if fields == [] then 0 else Pack(fields[..|fields| - 1]) * 16 + fields[|fields| - 1]
  }

  /** The fields after masking. */
  function Fields(c: Channel): seq<nat> {
    [c.coreId % 0x10000, c.blockType % 16, c.srcPipe % 16, c.dstPipe % 16, c.eventId % 16]
  }

  /** CalcSetFlagSyncID and CalcWaitFlagSyncID; the lowest field stays free. */
  function SetId(c: Channel): nat { Pack(Fields(c)) * 16 }
  function WaitId(c: Channel): nat { SetId(c) + 1 }

  /** The channel an id stands for. */
  predicate InFields(c: Channel) {
    c.coreId < 0x10000 && c.blockType < 16 && c.srcPipe < 16 && c.dstPipe < 16 && c.eventId < 16
  }

  ghost predicate Same(c: Channel, d: Channel) { Fields(c) == Fields(d) }

  ghost predicate Nibbles(fields: seq<nat>) { forall i :: 1 <= i < |fields| ==> fields[i] < 16 }

  lemma {:induction false} PackInjective(f: seq<nat>, g: seq<nat>)
    requires |f| == |g| && Nibbles(f) && Nibbles(g) && Pack(f) == Pack(g)
    ensures f == g
  {
    if f != [] {
      var n := |f| - 1;
      assert Pack(f) == Pack(f[..n]) * 16 + f[n] && Pack(g) == Pack(g[..n]) * 16 + g[n];
      if n == 0 {
        assert f[..0] == g[..0] == [];
      } else {
        PackInjective(f[..n], g[..n]);
      }
      assert f == f[..n] + [f[n]] && g == g[..n] + [g[n]];
    }
  }

  /** Ids tell channels apart exactly up to the masks, and a set id is never a wait id. */
  lemma IdsTellApart(c: Channel, d: Channel)
    ensures SetId(c) == SetId(d) <==> Same(c, d)
    ensures WaitId(c) == WaitId(d) <==> Same(c, d)
    ensures SetId(c) != WaitId(d)
    ensures InFields(c) && InFields(d) ==> (Same(c, d) <==> c == d)
  {
    var x, y := Pack(Fields(c)), Pack(Fields(d));
    assert SetId(c) == x * 16 && WaitId(d) == y * 16 + 1;
    if x == y { PackInjective(Fields(c), Fields(d)); }
    if InFields(c) && InFields(d) { Unmasked(c, d); }
  }

  /** Within their widths the masks change nothing. */
  lemma Unmasked(c: Channel, d: Channel)
    requires InFields(c) && InFields(d)
    ensures Same(c, d) <==> c == d
  {
    var f, g := Fields(c), Fields(d);
    assert f[0] == c.coreId && f[1] == c.blockType && f[2] == c.srcPipe && f[3] == c.dstPipe && f[4] == c.eventId;
    assert g[0] == d.coreId && g[1] == d.blockType && g[2] == d.srcPipe && g[3] == d.dstPipe && g[4] == d.eventId;
  }

  /** The low four bits say which of the two an id is. */
  lemma LowBits(c: Channel)
    ensures SetId(c) % 16 == 0 && WaitId(c) % 16 == 1
  {
    Sixteens(Pack(Fields(c)));
  }

  lemma Sixteens(x: nat)
    ensures x * 16 % 16 == 0 && (x * 16 + 1) % 16 == 1
  {
  }

  // ------------------------------------------------------------------ counting

  /** Events of one kind on one channel. */
  ghost function Count(h: seq<Event>, op: Op, c: Channel): nat {
    if h == [] then 0
    else Count(h[..|h| - 1], op, c) + if h[|h| - 1].op == op && Same(h[|h| - 1].channel, c) then 1 else 0
  }

  lemma CountAppend(h: seq<Event>, e: Event, op: Op, c: Channel)
    ensures Count(h + [e], op, c) == Count(h, op, c) + if e.op == op && Same(e.channel, c) then 1 else 0
  {
    assert (h + [e])[..|h|] == h;
  }

  lemma {:induction false} CountConcat(g: seq<Event>, h: seq<Event>, op: Op, c: Channel)
    ensures Count(g + h, op, c) == Count(g, op, c) + Count(h, op, c)
  {
    if h == [] {
      assert g + h == g;
    } else {
      var init, last := h[..|h| - 1], h[|h| - 1];
      CountConcat(g, init, op, c);
      CountAppend(g + init, last, op, c);
      assert g + h == g + init + [last];
    }
  }

  type Pending = map<nat, seq<Event>>

  function At(m: Pending, id: nat): seq<Event> { if id in m then m[id] else [] }

  /** One of the two has nothing pending, and the other what it is ahead by. */
  ghost predicate Balanced(m: Pending, h: seq<Event>, c: Channel) {
    && (At(m, SetId(c)) == [] || At(m, WaitId(c)) == [])
    && |At(m, SetId(c))| - |At(m, WaitId(c))| == Count(h, SetFlag, c) - Count(h, WaitFlag, c)
  }

  ghost predicate AllSetOn(es: seq<Event>, c: Channel) {
    forall i :: 0 <= i < |es| ==> es[i].op == SetFlag && Same(es[i].channel, c)
  }

  ghost predicate Known(id: nat) { exists c :: id == SetId(c) || id == WaitId(c) }

  ghost predicate Entries(m: Pending, h: seq<Event>) {
    forall id :: id in m ==> m[id] != [] && Known(id) && forall i :: 0 <= i < |m[id]| ==> m[id][i] in h
  }

  // ------------------------------------------------------------------ which sets stay pending

  /** How far the sets of a channel are ahead of its waits. */
  ghost function Ahead(h: seq<Event>, c: Channel): int { Count(h, SetFlag, c) - Count(h, WaitFlag, c) }

  /** The set at i found no wait before it that was not taken, and the balance never comes back to what it was. */
  ghost predicate Unmatched(h: seq<Event>, c: Channel, i: nat) {
    && i < |h| && h[i].op == SetFlag && Same(h[i].channel, c)
    && Ahead(h[..i], c) >= 0
    && forall j :: i < j <= |h| ==> Ahead(h[..j], c) > Ahead(h[..i], c)
  }

  ghost predicate Below(p: seq<nat>, n: nat) { forall k :: 0 <= k < |p| ==> p[k] < n }

  /** The places of the pending sets: a wait takes away the last of them. */
  ghost function Places(h: seq<Event>, c: Channel): (p: seq<nat>)
    ensures Below(p, |h|)
  {
    if h == [] then []
    else
      var init, e := h[..|h| - 1], h[|h| - 1];
      var p := Places(init, c);
      if !Same(e.channel, c) then p
      else if e.op == SetFlag && Ahead(init, c) >= 0 then p + [|h| - 1]
      else if e.op == WaitFlag && p != [] then p[..|p| - 1]
      else p
  }

  /** Their order and number: the k-th was set when the sets were ahead by k. */
  ghost predicate Ranked(h: seq<Event>, c: Channel, p: seq<nat>) {
    && |p| == (if Ahead(h, c) > 0 then Ahead(h, c) else 0)
    && (forall k :: 0 <= k < |p| ==> p[k] < |h| && Ahead(h[..p[k]], c) == k)
  }

  lemma AheadNext(h: seq<Event>, e: Event, c: Channel)
    ensures Ahead(h + [e], c) == Ahead(h, c) + if !Same(e.channel, c) || e.op == OtherOp then 0 else if e.op == SetFlag then 1 else -1
  {
    CountAppend(h, e, SetFlag, c);
    CountAppend(h, e, WaitFlag, c);
  }

  lemma {:induction false} PlacesRanked(h: seq<Event>, c: Channel)
    ensures Ranked(h, c, Places(h, c))
  {
    if h != [] {
      var init, e := h[..|h| - 1], h[|h| - 1];
      assert h == init + [e];
      AheadNext(init, e, c);
      PlacesRanked(init, c);
      var p := Places(init, c);
      forall k | 0 <= k < |p| ensures h[..p[k]] == init[..p[k]] { }
    }
  }

  /** The places are exactly those of the unmatched sets. */
  lemma {:induction false} PlacesExactly(h: seq<Event>, c: Channel, i: nat)
    ensures i in Places(h, c) <==> Unmatched(h, c, i)
  {
    if h != [] {
      var init, e := h[..|h| - 1], h[|h| - 1];
      assert h == init + [e];
      PlacesExactly(init, c, i);
      PlacesRanked(init, c);
      UnmatchedNext(init, e, c, i);
      PlacesNext(init, e, c, i);
    }
  }

  lemma UnmatchedNext(h: seq<Event>, e: Event, c: Channel, i: nat)
    ensures Unmatched(h + [e], c, i) <==>
            if i == |h| then e.op == SetFlag && Same(e.channel, c) && Ahead(h, c) >= 0
            else Unmatched(h, c, i) && Ahead(h + [e], c) > Ahead(h[..i], c)
  {
    var h' := h + [e];
    AheadNext(h, e, c);
    forall j | 0 <= j <= |h| ensures h'[..j] == h[..j] { }
    assert h'[..|h'|] == h' && h[..|h|] == h;
  }

  lemma PlacesNext(h: seq<Event>, e: Event, c: Channel, i: nat)
    requires Ranked(h, c, Places(h, c)) && (i in Places(h, c) ==> i < |h|)
    ensures i in Places(h + [e], c) <==>
            if i == |h| then e.op == SetFlag && Same(e.channel, c) && Ahead(h, c) >= 0
            else i in Places(h, c) && Ahead(h + [e], c) > Ahead(h[..i], c)
  {
    var p := Places(h, c);
    AheadNext(h, e, c);
    assert (h + [e])[..|h|] == h;
    if i in p {
      var k :| 0 <= k < |p| && p[k] == i;
      if k < |p| - 1 { assert p[..|p| - 1][k] == i; }
      if Same(e.channel, c) && e.op == WaitFlag { forall x | 0 <= x < |p| - 1 ensures p[x] == i ==> x == k { } }
    }
  }

  ghost function EventsAt(h: seq<Event>, p: seq<nat>): seq<Event>
    requires Below(p, |h|)
  {
    if p == [] then [] else EventsAt(h, p[..|p| - 1]) + [h[p[|p| - 1]]]
  }

  lemma {:induction false} EventsStay(h: seq<Event>, e: Event, p: seq<nat>)
    requires Below(p, |h|)
    ensures EventsAt(h + [e], p) == EventsAt(h, p)
  {
    if p != [] { EventsStay(h, e, p[..|p| - 1]); }
  }

  lemma {:induction false} EventsConcat(h: seq<Event>, p: seq<nat>, q: seq<nat>)
    requires Below(p, |h|) && Below(q, |h|)
    ensures Below(p + q, |h|) && EventsAt(h, p + q) == EventsAt(h, p) + EventsAt(h, q)
  {
    if q == [] {
      assert p + q == p;
    } else {
      var n := |q| - 1;
      EventsConcat(h, p, q[..n]);
      assert (p + q)[..|p + q| - 1] == p + q[..n];
    }
  }

  /** The pending sets of a channel, in the order in which they were made. */
  ghost predicate Stacked(m: Pending, h: seq<Event>, c: Channel) { At(m, SetId(c)) == EventsAt(h, Places(h, c)) }

  ghost predicate Inv(m: Pending, h: seq<Event>) {
    && (forall c :: Balanced(m, h, c))
    && (forall c :: AllSetOn(At(m, SetId(c)), c))
    && (forall c :: Stacked(m, h, c))
    && Entries(m, h)
  }

  function Cancel(m: Pending, id: nat): Pending
    requires id in m && m[id] != []
  {
    if |m[id]| > 1 then m[id := m[id][..|m[id]| - 1]] else m - {id}
  }

  function Matched(m: Pending, e: Event): Pending
    requires forall id :: id in m ==> m[id] != []
  {
    if e.op == OtherOp then m
    else
      var self := if e.op == SetFlag then SetId(e.channel) else WaitId(e.channel);
      var peer := if e.op == SetFlag then WaitId(e.channel) else SetId(e.channel);
      if peer in m then Cancel(m, peer) else m[self := At(m, self) + [e]]
  }

  lemma StepEntries(m: Pending, h: seq<Event>, e: Event)
    requires Entries(m, h)
    ensures Entries(Matched(m, e), h + [e])
  {
    assert Known(SetId(e.channel)) && Known(WaitId(e.channel));
  }

  /** An event leaves other channels alone. */
  lemma StepElsewhere(m: Pending, h: seq<Event>, e: Event, c: Channel)
    requires Entries(m, h) && !Same(e.channel, c)
    ensures At(Matched(m, e), SetId(c)) == At(m, SetId(c)) && At(Matched(m, e), WaitId(c)) == At(m, WaitId(c))
  {
    IdsTellApart(e.channel, c);
    IdsTellApart(c, e.channel);
  }

  /** On its own channel an event takes away the last pending counterpart or joins its own kind. */
  lemma StepHere(m: Pending, h: seq<Event>, e: Event, self: nat, peer: nat)
    requires Entries(m, h) && e.op != OtherOp && self != peer
    requires self == if e.op == SetFlag then SetId(e.channel) else WaitId(e.channel)
    requires peer == if e.op == SetFlag then WaitId(e.channel) else SetId(e.channel)
    ensures var m', p := Matched(m, e), At(m, peer);
            if p != [] then At(m', self) == At(m, self) && At(m', peer) == p[..|p| - 1]
            else At(m', self) == At(m, self) + [e] && At(m', peer) == []
  {
  }

  lemma StepBalanced(m: Pending, h: seq<Event>, e: Event, c: Channel)
    requires Entries(m, h) && Balanced(m, h, c) && AllSetOn(At(m, SetId(c)), c)
    ensures Balanced(Matched(m, e), h + [e], c) && AllSetOn(At(Matched(m, e), SetId(c)), c)
  {
    CountAppend(h, e, SetFlag, c);
    CountAppend(h, e, WaitFlag, c);
    if !Same(e.channel, c) {
      StepElsewhere(m, h, e, c);
    } else if e.op != OtherOp {
      IdsTellApart(e.channel, c);
      if e.op == SetFlag { StepHere(m, h, e, SetId(c), WaitId(c)); } else { StepHere(m, h, e, WaitId(c), SetId(c)); }
    }
  }

  lemma LastEvent(h: seq<Event>, p: seq<nat>)
    requires p != [] && Below(p, |h|)
    ensures var es := EventsAt(h, p); es != [] && EventsAt(h, p[..|p| - 1]) == es[..|es| - 1]
  {
  }

  lemma StackedSet(m: Pending, h: seq<Event>, e: Event, c: Channel)
    requires Entries(m, h) && Balanced(m, h, c) && Stacked(m, h, c) && Same(e.channel, c) && e.op == SetFlag
    ensures Stacked(Matched(m, e), h + [e], c)
  {
    var p := Places(h, c);
    assert (h + [e])[..|h|] == h;
    EventsStay(h, e, p);
    IdsTellApart(e.channel, c);
    StepHere(m, h, e, SetId(c), WaitId(c));
    assert (p + [|h|])[..|p|] == p;
  }

  lemma StackedWait(m: Pending, h: seq<Event>, e: Event, c: Channel)
    requires Entries(m, h) && Stacked(m, h, c) && Same(e.channel, c) && e.op == WaitFlag
    ensures Stacked(Matched(m, e), h + [e], c)
  {
    var p := Places(h, c);
    assert (h + [e])[..|h|] == h;
    EventsStay(h, e, p);
    IdsTellApart(e.channel, c);
    StepHere(m, h, e, WaitId(c), SetId(c));
    if p != [] {
      LastEvent(h, p);
      EventsStay(h, e, p[..|p| - 1]);
    }
  }

  lemma StepStacked(m: Pending, h: seq<Event>, e: Event, c: Channel)
    requires Entries(m, h) && Balanced(m, h, c) && Stacked(m, h, c)
    ensures Stacked(Matched(m, e), h + [e], c)
  {
    if Same(e.channel, c) && e.op == SetFlag {
      StackedSet(m, h, e, c);
    } else if Same(e.channel, c) && e.op == WaitFlag {
      StackedWait(m, h, e, c);
    } else {
      PlacesUnmoved(h, e, c);
      if !Same(e.channel, c) { StepElsewhere(m, h, e, c); }
    }
  }

  lemma PlacesUnmoved(h: seq<Event>, e: Event, c: Channel)
    requires !Same(e.channel, c) || e.op == OtherOp
    ensures Places(h + [e], c) == Places(h, c) && EventsAt(h + [e], Places(h, c)) == EventsAt(h, Places(h, c))
  {
    assert (h + [e])[..|h|] == h;
    EventsStay(h, e, Places(h, c));
  }

  /** Every event keeps the balance of every channel, and its pending sets in order. */
  lemma StepKeepsInv(m: Pending, h: seq<Event>, e: Event)
    requires Inv(m, h)
    ensures Inv(Matched(m, e), h + [e])
  {
    StepEntries(m, h, e);
    forall c ensures Balanced(Matched(m, e), h + [e], c) && AllSetOn(At(Matched(m, e), SetId(c)), c) {
      assert Balanced(m, h, c);
      StepBalanced(m, h, e, c);
    }
    forall c ensures Stacked(Matched(m, e), h + [e], c) {
      assert Balanced(m, h, c) && Stacked(m, h, c);
      StepStacked(m, h, e, c);
    }
  }

  ghost function Run(h: seq<Event>): (m: Pending)
    ensures Inv(m, h)
  {
    if h == [] then map[]
    else
      var init := h[..|h| - 1];
      assert h == init + [h[|h| - 1]];
      StepKeepsInv(Run(init), init, h[|h| - 1]);
      Matched(Run(init), h[|h| - 1])
  }

  ghost predicate Unpaired(h: seq<Event>, c: Channel, n: nat) {
    n == var s, w := Count(h, SetFlag, c), Count(h, WaitFlag, c); if s > w then s - w else 0
  }

  lemma {:induction false} CountOnChannel(es: seq<Event>, c: Channel, d: Channel)
    requires AllSetOn(es, c)
    ensures Count(es, SetFlag, d) == if Same(c, d) then |es| else 0
  {
    if es != [] { CountOnChannel(es[..|es| - 1], c, d); }
  }

  method Match(m: Pending, e: Event, ghost h: seq<Event>) returns (m': Pending)
    requires Entries(m, h)
    ensures m' == Matched(m, e)
  {
    if e.op == OtherOp { return m; }
    var self := if e.op == SetFlag then SetId(e.channel) else WaitId(e.channel);
    var peer := if e.op == SetFlag then WaitId(e.channel) else SetId(e.channel);
    if peer in m {
      if |m[peer]| > 1 {
        m' := m[peer := m[peer][..|m[peer]| - 1]];
      } else {
        m' := m - {peer};
      }
    } else {
      m' := m[self := At(m, self) + [e]];
    }
  }

  class Matcher {
    var syncEvents: Pending
    ghost var history: seq<Event>

    ghost predicate Valid()
      reads this
    {
      Inv(syncEvents, history)
    }

    constructor ()
      ensures Valid() && history == []
    {
      syncEvents, history := map[], [];
    }

    /** DoMatchCheck. */
    method DoMatchCheck(e: Event)
      requires Valid()
      modifies this
      ensures Valid() && history == old(history) + [e] && syncEvents == Matched(old(syncEvents), e)
    {
      StepKeepsInv(syncEvents, history, e);
      var m := Match(syncEvents, e, history);
      syncEvents, history := m, history + [e];
    }

    /**
     * The events ReportUnpairedInfo picks: each unmatched set of the history once, and nothing else; so for each
     * channel as many sets as there are more sets than waits.
     */
    method ReportUnpaired() returns (events: seq<Event>, ghost places: seq<nat>)
      requires Valid()
      ensures Below(places, |history|) && events == EventsAt(history, places)
      ensures forall i :: 0 <= i < |history| ==> multiset(places)[i] == if LeftOver(history, i) then 1 else 0
      ensures forall c :: Unpaired(history, c, Count(events, SetFlag, c))
      ensures forall i :: 0 <= i < |events| ==> events[i].op == SetFlag && events[i] in history
    {
      events, places := [], [];
      var rest := syncEvents.Keys;
      NothingYet(syncEvents, history);
      while rest != {}
        invariant rest <= syncEvents.Keys && Collected(syncEvents, history, rest, events, places)
        decreases |rest|
      {
        var id :| id in rest;
        places := CollectOne(syncEvents, history, rest, events, places, id);
        if id % 16 == 0 { events := events + syncEvents[id]; }
        rest := rest - {id};
      }
      AllCollected(syncEvents, history, events, places);
    }
  }

  /** What the loop has picked when it still has to look at `rest`. */
  ghost predicate Collected(m: Pending, h: seq<Event>, rest: set<nat>, events: seq<Event>, places: seq<nat>) {
    && Picked(m, rest, events)
    && (forall i :: 0 <= i < |events| ==> events[i].op == SetFlag && events[i] in h)
    && Below(places, |h|) && events == EventsAt(h, places)
    && Gathered(h, rest, places)
  }

  lemma NothingYet(m: Pending, h: seq<Event>)
    requires Inv(m, h)
    ensures Collected(m, h, m.Keys, [], [])
  {
    forall i | 0 <= i < |h| && LeftOver(h, i) ensures SetId(h[i].channel) in m {
      var c := h[i].channel;
      PlacesExactly(h, c, i);
      assert Stacked(m, h, c);
    }
  }

  lemma CollectOne(m: Pending, h: seq<Event>, rest: set<nat>, events: seq<Event>, places: seq<nat>, id: nat)
    returns (places': seq<nat>)
    requires Inv(m, h) && rest <= m.Keys && id in rest && Collected(m, h, rest, events, places)
    ensures Collected(m, h, rest - {id}, if id % 16 == 0 then events + m[id] else events, places')
  {
    assert Known(id);
    var d :| id == SetId(d) || id == WaitId(d);
    LowBits(d);
    if id == SetId(d) {
      CollectSet(m, h, rest, events, places, d);
      places' := places + Places(h, d);
    } else {
      CollectWait(m, h, rest, events, places, d);
      places' := places;
    }
  }

  lemma CollectSet(m: Pending, h: seq<Event>, rest: set<nat>, events: seq<Event>, places: seq<nat>, d: Channel)
    requires Inv(m, h) && SetId(d) in m && SetId(d) in rest && Collected(m, h, rest, events, places)
    ensures Collected(m, h, rest - {SetId(d)}, events + m[SetId(d)], places + Places(h, d))
  {
    PickAll(m, h, rest, events, d);
    EventsConcat(h, places, Places(h, d));
    assert Stacked(m, h, d);
    forall i | 0 <= i < |h|
      ensures multiset(places + Places(h, d))[i]
              == if LeftOver(h, i) && SetId(h[i].channel) !in rest - {SetId(d)} then 1 else 0
    {
      GatherSet(h, rest, places, d, i);
    }
  }

  lemma CollectWait(m: Pending, h: seq<Event>, rest: set<nat>, events: seq<Event>, places: seq<nat>, d: Channel)
    requires Collected(m, h, rest, events, places)
    ensures Collected(m, h, rest - {WaitId(d)}, events, places)
  {
    forall c ensures PickedFor(m, rest - {WaitId(d)}, events, c) {
      assert PickedFor(m, rest, events, c);
      IdsTellApart(c, d);
    }
    forall i | 0 <= i < |h| ensures SetId(h[i].channel) != WaitId(d) { IdsTellApart(h[i].channel, d); }
  }

  lemma AllCollected(m: Pending, h: seq<Event>, events: seq<Event>, places: seq<nat>)
    requires Inv(m, h) && Collected(m, h, {}, events, places)
    ensures forall i :: 0 <= i < |h| ==> multiset(places)[i] == if LeftOver(h, i) then 1 else 0
    ensures forall c :: Unpaired(h, c, Count(events, SetFlag, c))
  {
    AllPicked(m, h, events);
  }

  /** The event at i is a set that no wait of its channel has cancelled. */
  ghost predicate LeftOver(h: seq<Event>, i: nat) { i < |h| && Unmatched(h, h[i].channel, i) }

  /** The places found so far are those of the unmatched sets whose id is done, each once. */
  ghost predicate Gathered(h: seq<Event>, rest: set<nat>, places: seq<nat>) {
    forall i :: 0 <= i < |h| ==>
      multiset(places)[i] == if LeftOver(h, i) && SetId(h[i].channel) !in rest then 1 else 0
  }

  lemma {:induction false} SameCounts(h: seq<Event>, op: Op, c: Channel, d: Channel)
    requires Same(c, d)
    ensures Count(h, op, c) == Count(h, op, d)
  {
    if h != [] { SameCounts(h[..|h| - 1], op, c, d); }
  }

  lemma SameUnmatched(h: seq<Event>, i: nat, d: Channel)
    ensures Unmatched(h, d, i) <==> LeftOver(h, i) && Same(h[i].channel, d)
  {
    if i < |h| && Same(h[i].channel, d) {
      forall j | 0 <= j <= |h| ensures Ahead(h[..j], d) == Ahead(h[..j], h[i].channel) {
        SameCounts(h[..j], SetFlag, d, h[i].channel);
        SameCounts(h[..j], WaitFlag, d, h[i].channel);
      }
    }
  }

  lemma {:induction false} OnceEach(p: seq<nat>, i: nat)
    requires forall k, l :: 0 <= k < l < |p| ==> p[k] != p[l]
    ensures multiset(p)[i] == if i in p then 1 else 0
  {
    if p != [] {
      var n := |p| - 1;
      assert p == p[..n] + [p[n]];
      OnceEach(p[..n], i);
    }
  }

  lemma PlacesOnce(h: seq<Event>, d: Channel, i: nat)
    ensures multiset(Places(h, d))[i] == if Unmatched(h, d, i) then 1 else 0
  {
    var p := Places(h, d);
    PlacesRanked(h, d);
    PlacesExactly(h, d, i);
    forall k, l | 0 <= k < l < |p| ensures p[k] != p[l] {
      assert Ahead(h[..p[k]], d) == k && Ahead(h[..p[l]], d) == l;
    }
    OnceEach(p, i);
  }

  lemma GatherSet(h: seq<Event>, rest: set<nat>, places: seq<nat>, d: Channel, i: nat)
    requires Gathered(h, rest, places) && SetId(d) in rest && i < |h|
    ensures multiset(places + Places(h, d))[i] == if LeftOver(h, i) && SetId(h[i].channel) !in rest - {SetId(d)} then 1 else 0
  {
    PlacesOnce(h, d, i);
    SameUnmatched(h, i, d);
    IdsTellApart(h[i].channel, d);
    assert multiset(places + Places(h, d)) == multiset(places) + multiset(Places(h, d));
  }

  /** For every channel whose id is done, all its pending sets have been picked. */
  ghost predicate Picked(m: Pending, rest: set<nat>, events: seq<Event>) {
    forall c :: PickedFor(m, rest, events, c)
  }

  lemma PickAll(m: Pending, h: seq<Event>, rest: set<nat>, events: seq<Event>, d: Channel)
    requires Inv(m, h) && SetId(d) in m && SetId(d) in rest && Picked(m, rest, events)
    ensures Picked(m, rest - {SetId(d)}, events + m[SetId(d)])
    ensures forall i :: 0 <= i < |m[SetId(d)]| ==> m[SetId(d)][i].op == SetFlag && m[SetId(d)][i] in h
  {
    forall c ensures PickedFor(m, rest - {SetId(d)}, events + m[SetId(d)], c) {
      assert PickedFor(m, rest, events, c);
      IdsTellApart(c, d);
      PickSet(m, h, rest, events, d, c);
    }
    assert AllSetOn(At(m, SetId(d)), d);
  }

  ghost predicate PickedFor(m: Pending, rest: set<nat>, events: seq<Event>, c: Channel) {
    Count(events, SetFlag, c) == if SetId(c) in rest then 0 else |At(m, SetId(c))|
  }

  lemma PickSet(m: Pending, h: seq<Event>, rest: set<nat>, events: seq<Event>, d: Channel, c: Channel)
    requires Inv(m, h) && SetId(d) in m && SetId(d) in rest && PickedFor(m, rest, events, c)
    requires SetId(c) == SetId(d) <==> Same(c, d)
    ensures PickedFor(m, rest - {SetId(d)}, events + m[SetId(d)], c)
  {
    assert AllSetOn(At(m, SetId(d)), d);
    CountConcat(events, m[SetId(d)], SetFlag, c);
    CountOnChannel(m[SetId(d)], d, c);
  }

  lemma AllPicked(m: Pending, h: seq<Event>, events: seq<Event>)
    requires Inv(m, h) && Picked(m, {}, events)
    ensures forall c :: Unpaired(h, c, Count(events, SetFlag, c))
  {
    forall c ensures Unpaired(h, c, Count(events, SetFlag, c)) {
      assert Balanced(m, h, c) && PickedFor(m, {}, events, c);
    }
  }
}
