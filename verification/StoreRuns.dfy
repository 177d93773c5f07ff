/**
 * Whole runs of stores to fresh global memory, by the host and by device cores, atomic or not, with overlap checking
 * on or off: what each shadow byte says about the stores that took effect on it, and what the reports add up to.
 */
module StoreRuns {
  import opened Intervals
  import opened ShadowWord
  import opened PrimaryMap
  import opened GlobalMap
  import opened ShadowMemory

  datatype StoreOp = StoreOp(addr: nat, size: nat, core: bv8, atomic: bool, checked: bool) {
    predicate Covers(a: nat) { addr <= a < addr + size }
    predicate FromHost() { core == HOST }
    /** Only such a store may be found to trample another core's data. */
    predicate Strict() { core != HOST && !atomic && checked }
  }

  /** A store by the host or by a core whose id fits, within the address range. */
  predicate Legal(s: StoreOp) { s.addr + s.size <= GLOBAL_MASK && (s.core == HOST || s.core < NO_CORE) }

  function ModeOf(s: StoreOp): Mode { Mode(s.core, s.atomic, s.checked) }

  // ------------------------------------------------------------------ what stores mean for a byte

  /** Store j is the first by a device core after the last by the host. */
  ghost predicate Opens(l: seq<StoreOp>, j: nat) {
    && j < |l| && (j == 0 || l[j - 1].FromHost())
    && forall k :: j <= k < |l| ==> !l[k].FromHost()
  }

  /** The owner of the byte is the first device core to store it since the last host store. */
  ghost predicate OwnedBy(l: seq<StoreOp>, c: bv8) { exists j :: 0 <= j < |l| && Opens(l, j) && l[j].core == c }

  ghost predicate Unowned(l: seq<StoreOp>) { l == [] || l[|l| - 1].FromHost() }

  /** A strict store of a byte that another core owns. */
  ghost predicate Clash(l: seq<StoreOp>, s: StoreOp) { s.Strict() && exists c :: OwnedBy(l, c) && c != s.core }

  ghost predicate Raced(l: seq<StoreOp>) { exists i :: 0 <= i < |l| && Clash(l[..i], l[i]) }

  lemma OwnerIsOne(l: seq<StoreOp>, c: bv8, d: bv8)
    requires OwnedBy(l, c) && OwnedBy(l, d)
    ensures c == d
  {
    var i :| 0 <= i < |l| && Opens(l, i) && l[i].core == c;
    var j :| 0 <= j < |l| && Opens(l, j) && l[j].core == d;
    assert i == j;
  }

  lemma OpensNext(l: seq<StoreOp>, s: StoreOp, j: nat)
    requires j < |l|
    ensures Opens(l + [s], j) <==> Opens(l, j) && !s.FromHost()
  {
    var l' := l + [s];
    assert l'[|l|] == s && forall k :: 0 <= k < |l| ==> l'[k] == l[k];
    if Opens(l', j) { assert !l'[|l|].FromHost(); }
  }

  lemma OwnerStays(l: seq<StoreOp>, s: StoreOp, c: bv8)
    requires OwnedBy(l, c) && !s.FromHost()
    ensures OwnedBy(l + [s], c)
  {
    var j :| 0 <= j < |l| && Opens(l, j) && l[j].core == c;
    OpensNext(l, s, j);
    assert (l + [s])[j] == l[j];
  }

  lemma OwnerWas(l: seq<StoreOp>, s: StoreOp, c: bv8)
    requires OwnedBy(l + [s], c)
    ensures !s.FromHost() && if Unowned(l) then c == s.core else OwnedBy(l, c)
  {
    var l' := l + [s];
    var j :| 0 <= j < |l'| && Opens(l', j) && l'[j].core == c;
    assert !l'[|l|].FromHost();
    if j < |l| {
      OpensNext(l, s, j);
      assert l'[j] == l[j] && !l[|l| - 1].FromHost();
    } else if j > 0 {
      assert l'[j - 1] == l[j - 1];
    }
  }

  lemma OwnerNext(l: seq<StoreOp>, s: StoreOp, c: bv8)
    ensures OwnedBy(l + [s], c) <==> !s.FromHost() && if Unowned(l) then c == s.core else OwnedBy(l, c)
  {
    if OwnedBy(l + [s], c) {
      OwnerWas(l, s, c);
    } else if OwnedBy(l, c) && !s.FromHost() {
      OwnerStays(l, s, c);
    } else if Unowned(l) && !s.FromHost() {
      FirstOwner(l, s);
    }
  }

  lemma FirstOwner(l: seq<StoreOp>, s: StoreOp)
    requires Unowned(l) && !s.FromHost()
    ensures OwnedBy(l + [s], s.core)
  {
    var l' := l + [s];
    assert l'[|l|] == s && (|l| > 0 ==> l'[|l| - 1] == l[|l| - 1]);
    assert Opens(l', |l|);
  }

  lemma RacedNext(l: seq<StoreOp>, s: StoreOp)
    ensures Raced(l + [s]) <==> Raced(l) || Clash(l, s)
  {
    var l' := l + [s];
    forall i | 0 <= i < |l| ensures l'[..i] == l[..i] && l'[i] == l[i] { }
    assert l'[..|l|] == l && l'[|l|] == s;
  }

  lemma OwnersAreLegal(l: seq<StoreOp>, c: bv8)
    requires OwnedBy(l, c) && forall x <- l :: Legal(x)
    ensures c < NO_CORE && !Unowned(l)
  {
    var j :| 0 <= j < |l| && Opens(l, j) && l[j].core == c;
    assert l[j] in l && !l[j].FromHost() && !l[|l| - 1].FromHost();
  }

  lemma {:induction false} SomeOwner(l: seq<StoreOp>)
    requires !Unowned(l)
    ensures exists c :: OwnedBy(l, c)
  {
    var init, s := l[..|l| - 1], l[|l| - 1];
    assert l == init + [s];
    if Unowned(init) {
      OwnerNext(init, s, s.core);
    } else {
      SomeOwner(init);
      var c :| OwnedBy(init, c);
      OwnerNext(init, s, c);
    }
  }

  // ------------------------------------------------------------------ the shadow byte keeps the record

  /** What the byte says about the stores that took effect on it. */
  ghost predicate Records(b: bv8, l: seq<StoreOp>) {
    if Raced(l) then GetMemStatus(b) == ERROR
    else if l == [] then b == GM_DEFAULT
    else
      && GetMemStatus(b) == DEFINED
      && (Unowned(l) ==> GetCoreId(b) == NO_CORE)
      && (forall c :: OwnedBy(l, c) ==> GetCoreId(b) == c)
  }

  lemma HostCase(b: bv8, m: Mode)
    requires m.core == HOST
    ensures !Tramples(b, m)
    ensures GetMemStatus(b) == ERROR ==> Stored(b, m) == b
    ensures b == GM_DEFAULT || GetMemStatus(b) == DEFINED ==>
              GetMemStatus(Stored(b, m)) == DEFINED && GetCoreId(Stored(b, m)) == NO_CORE
  {
  }

  lemma DeviceCase(b: bv8, m: Mode)
    requires m.core < NO_CORE
    ensures GetMemStatus(b) == ERROR ==> Stored(b, m) == b && !Tramples(b, m)
    ensures b == GM_DEFAULT || (GetMemStatus(b) == DEFINED && GetCoreId(b) == NO_CORE) ==>
              GetMemStatus(Stored(b, m)) == DEFINED && GetCoreId(Stored(b, m)) == m.core && !Tramples(b, m)
    ensures GetMemStatus(b) == DEFINED && GetCoreId(b) == m.core ==> Stored(b, m) == b && !Tramples(b, m)
  {
  }

  lemma OtherOwnerCase(b: bv8, m: Mode)
    requires m.core < NO_CORE && GetMemStatus(b) == DEFINED && GetCoreId(b) < NO_CORE && GetCoreId(b) != m.core
    ensures Tramples(b, m) <==> !m.atomic && m.overlapCheck
    ensures Tramples(b, m) ==> GetMemStatus(Stored(b, m)) == ERROR
    ensures !Tramples(b, m) ==> Stored(b, m) == b
  {
  }

  lemma RecordsHost(b: bv8, l: seq<StoreOp>, s: StoreOp)
    requires Records(b, l) && s.FromHost()
    ensures Records(Stored(b, ModeOf(s)), l + [s]) && !Tramples(b, ModeOf(s)) && !Clash(l, s)
  {
    HostCase(b, ModeOf(s));
    RacedNext(l, s);
    assert (l + [s])[|l|] == s;
    forall c ensures !OwnedBy(l + [s], c) { OwnerNext(l, s, c); }
  }

  lemma RecordsDevice(b: bv8, l: seq<StoreOp>, s: StoreOp, owner: bv8)
    requires Records(b, l) && !s.FromHost() && s.core < NO_CORE && OwnedBy(l, owner) && owner < NO_CORE && !Unowned(l)
    ensures Records(Stored(b, ModeOf(s)), l + [s])
    ensures Tramples(b, ModeOf(s)) <==> !Raced(l) && Clash(l, s)
  {
    RacedNext(l, s);
    DeviceCase(b, ModeOf(s));
    assert (l + [s])[|l|] == s;
    forall c ensures (OwnedBy(l + [s], c) <==> c == owner) && (OwnedBy(l, c) ==> c == owner) {
      OwnerNext(l, s, c);
      if OwnedBy(l, c) { OwnerIsOne(l, c, owner); }
    }
    assert Clash(l, s) <==> s.Strict() && owner != s.core;
    if !Raced(l) && owner != s.core { OtherOwnerCase(b, ModeOf(s)); }
  }

  lemma RecordsFirst(b: bv8, l: seq<StoreOp>, s: StoreOp)
    requires Records(b, l) && !s.FromHost() && s.core < NO_CORE && Unowned(l)
    ensures Records(Stored(b, ModeOf(s)), l + [s])
    ensures !Tramples(b, ModeOf(s)) && !Clash(l, s)
  {
    RacedNext(l, s);
    DeviceCase(b, ModeOf(s));
    assert (l + [s])[|l|] == s;
    forall c ensures (OwnedBy(l + [s], c) <==> c == s.core) && !OwnedBy(l, c) {
      OwnerNext(l, s, c);
      if OwnedBy(l, c) { NotBoth(l, c); }
    }
  }

  lemma NotBoth(l: seq<StoreOp>, c: bv8)
    ensures !(Unowned(l) && OwnedBy(l, c))
  {
    if OwnedBy(l, c) {
      var j :| 0 <= j < |l| && Opens(l, j) && l[j].core == c;
      assert !l[|l| - 1].FromHost();
    }
  }

  /**
   * One more store, by anyone: the byte still records the truth, and the store is reported exactly when it clashes
   * with the owner of a byte that has not raced before.
   */
  lemma RecordsStore(b: bv8, l: seq<StoreOp>, s: StoreOp)
    requires Records(b, l) && Legal(s) && forall x <- l :: Legal(x)
    ensures Records(Stored(b, ModeOf(s)), l + [s])
    ensures Tramples(b, ModeOf(s)) <==> !Raced(l) && Clash(l, s)
  {
    if s.FromHost() {
      RecordsHost(b, l, s);
    } else if Unowned(l) {
      RecordsFirst(b, l, s);
    } else {
      SomeOwner(l);
      var owner :| OwnedBy(l, owner);
      OwnersAreLegal(l, owner);
      RecordsDevice(b, l, s, owner);
    }
  }

  /**
   * Core ids from 64 on do not fit in a shadow byte: such a core finds its own byte to be another's, unless the low
   * six bits of its id are the mark for "unowned", in which case its stores leave no owner behind.
   */
  lemma WideCore(c: bv8)
    requires c != HOST
    ensures var m := Mode(c, false, true);
            && (Tramples(Stored(GM_DEFAULT, m), m) <==> c > NO_CORE && c & 63 != NO_CORE)
            && (GetCoreId(Stored(GM_DEFAULT, m)) == NO_CORE <==> c & 63 == NO_CORE)
  {
  }

  // ------------------------------------------------------------------ runs

  /** The maps a run goes through: fresh at first, then each store's outcome. */
  ghost predicate History(vs: seq<seq<bv8>>, stores: seq<StoreOp>) {
    && |vs| == |stores| + 1
    && (forall i :: 0 <= i < |vs| ==> |vs[i]| == GLOBAL_MASK + 1)
    && (forall a :: 0 <= a <= GLOBAL_MASK ==> vs[0][a] == GM_DEFAULT)
    && (forall i, j :: 0 <= i && j == i + 1 < |vs| ==>
          Outcome(vs[i], vs[j], stores[i].addr, stores[i].size, ModeOf(stores[i])))
  }

  /** The stores among the first n that took effect on the byte. */
  ghost function Landed(vs: seq<seq<bv8>>, stores: seq<StoreOp>, n: nat, a: nat): (l: seq<StoreOp>)
    requires n <= |stores| && n <= |vs|
    ensures forall x <- l :: x in stores
  {
    if n == 0 then []
    else
      var before, s := Landed(vs, stores, n - 1, a), stores[n - 1];
      if s.Covers(a) && Reached(vs[n - 1], s.addr + s.size, a) then before + [s] else before
  }

  /** After every run each byte records the stores that took effect on it. */
  lemma {:induction false} HistoryRecords(vs: seq<seq<bv8>>, stores: seq<StoreOp>, n: nat, a: nat)
    requires History(vs, stores) && (forall s <- stores :: Legal(s)) && n <= |stores| && a <= GLOBAL_MASK
    ensures Records(vs[n][a], Landed(vs, stores, n, a))
  {
    if n > 0 {
      var s := stores[n - 1];
      HistoryRecords(vs, stores, n - 1, a);
      assert Outcome(vs[n - 1], vs[n], s.addr, s.size, ModeOf(s));
      if s.Covers(a) { RecordsStore(vs[n - 1][a], Landed(vs, stores, n - 1, a), s); }
    }
  }

  /** The bytes where store i is the first to clash. */
  ghost predicate Joins(l: seq<StoreOp>, s: StoreOp, a: nat) { s.Covers(a) && !Raced(l) && Clash(l, s) }

  ghost function NewlyRaced(vs: seq<seq<bv8>>, stores: seq<StoreOp>, i: nat): set<nat>
    requires i < |stores| && i <= |vs|
  {
    set a | 0 <= a <= GLOBAL_MASK && Joins(Landed(vs, stores, i, a), stores[i], a)
  }

  ghost function Reported(vs: seq<seq<bv8>>, stores: seq<StoreOp>, n: nat): nat
    requires n <= |stores| && n <= |vs|
  {
    if n == 0 then 0 else Reported(vs, stores, n - 1) + |NewlyRaced(vs, stores, n - 1)|
  }

  /** The bytes a store reports are exactly those where it is the first to clash. */
  lemma TrampledIsNew(vs: seq<seq<bv8>>, stores: seq<StoreOp>, i: nat, v: seq<bv8>, s: StoreOp)
    requires History(vs, stores) && (forall x <- stores :: Legal(x)) && i < |stores| && v == vs[i] && s == stores[i]
    ensures s.addr + s.size <= |v|
    ensures |TrampledIn(v, s.addr, s.addr + s.size, ModeOf(s))| == |NewlyRaced(vs, stores, i)|
  {
    assert Legal(s) && |v| == GLOBAL_MASK + 1;
    var hit, added := TrampledIn(v, s.addr, s.addr + s.size, ModeOf(s)), NewlyRaced(vs, stores, i);
    forall a: nat ensures a in hit <==> a in added {
      if a <= GLOBAL_MASK && s.Covers(a) { TrampledJoins(vs, stores, i, a); }
    }
    assert hit == added;
  }

  lemma TrampledJoins(vs: seq<seq<bv8>>, stores: seq<StoreOp>, i: nat, a: nat)
    requires History(vs, stores) && (forall s <- stores :: Legal(s)) && i < |stores| && a <= GLOBAL_MASK && stores[i].Covers(a)
    ensures Tramples(vs[i][a], ModeOf(stores[i])) <==> Joins(Landed(vs, stores, i, a), stores[i], a)
  {
    HistoryRecords(vs, stores, i, a);
    RecordsStore(vs[i][a], Landed(vs, stores, i, a), stores[i]);
  }

  lemma HistoryNext(vs: seq<seq<bv8>>, w: seq<bv8>, stores: seq<StoreOp>, s: StoreOp)
    requires History(vs, stores) && |w| == GLOBAL_MASK + 1
    requires Outcome(vs[|stores|], w, s.addr, s.size, ModeOf(s))
    ensures History(vs + [w], stores + [s])
  {
    var vs', stores' := vs + [w], stores + [s];
    forall i, j | 0 <= i && j == i + 1 < |vs'|
      ensures Outcome(vs'[i], vs'[j], stores'[i].addr, stores'[i].size, ModeOf(stores'[i]))
    {
      if i < |stores| {
        assert vs'[i] == vs[i] && vs'[j] == vs[j] && stores'[i] == stores[i];
      } else {
        assert vs'[i] == vs[|stores|] && vs'[j] == w && stores'[i] == s;
      }
    }
  }

  lemma {:induction false} LandedPrefix(vs: seq<seq<bv8>>, w: seq<bv8>, stores: seq<StoreOp>, s: StoreOp, n: nat, a: nat)
    requires n <= |stores| && n <= |vs|
    ensures Landed(vs + [w], stores + [s], n, a) == Landed(vs, stores, n, a)
  {
    if n > 0 {
      LandedPrefix(vs, w, stores, s, n - 1, a);
      assert (vs + [w])[n - 1] == vs[n - 1] && (stores + [s])[n - 1] == stores[n - 1];
    }
  }

  lemma {:induction false} ReportedPrefix(vs: seq<seq<bv8>>, w: seq<bv8>, stores: seq<StoreOp>, s: StoreOp, n: nat)
    requires n <= |stores| && n <= |vs|
    ensures Reported(vs + [w], stores + [s], n) == Reported(vs, stores, n)
  {
    if n > 0 {
      ReportedPrefix(vs, w, stores, s, n - 1);
      NewlyRacedPrefix(vs, w, stores, s, n - 1);
    }
  }

  lemma NewlyRacedPrefix(vs: seq<seq<bv8>>, w: seq<bv8>, stores: seq<StoreOp>, s: StoreOp, k: nat)
    requires k < |stores| && k < |vs|
    ensures NewlyRaced(vs + [w], stores + [s], k) == NewlyRaced(vs, stores, k)
  {
    var vs', stores' := vs + [w], stores + [s];
    assert stores'[k] == stores[k];
    forall a: nat ensures a in NewlyRaced(vs', stores', k) <==> a in NewlyRaced(vs, stores, k) {
      LandedPrefix(vs, w, stores, s, k, a);
    }
  }

  /**
   * Over any run of stores to fresh global memory the reported byte counts add up to the bytes where a store was
   * the first to clash with an owner; when every store takes effect, these are the bytes that ever raced.
   */
  method RunStores(stores: seq<StoreOp>) returns (total: nat, ghost vs: seq<seq<bv8>>)
    requires forall s <- stores :: Legal(s)
    ensures History(vs, stores) && total == Reported(vs, stores, |stores|)
    ensures AllReach(stores) ==> total == |RacedBytes(stores, |stores|)|
  {
    var sm := new ShadowMemory();
    total := 0;
    vs := [sm.gm.flat];
    for i := 0 to |stores|
      invariant sm.Valid() && fresh(sm) && fresh(sm.gm.Repr)
      invariant |vs| == i + 1 && sm.gm.flat == vs[i] && Tallied(vs, stores[..i], total)
    {
      assert stores[i] in stores && stores[..i + 1] == stores[..i] + [stores[i]];
      total, vs := StoreNext(sm, stores[i], vs, stores[..i], total);
    }
    assert stores[..|stores|] == stores;
    if AllReach(stores) { ReportedIsRaced(vs, stores, |stores|); }
  }

  ghost predicate Tallied(vs: seq<seq<bv8>>, stores: seq<StoreOp>, total: nat) {
    History(vs, stores) && (forall s <- stores :: Legal(s)) && total == Reported(vs, stores, |stores|)
  }

  lemma TalliedNext(vs: seq<seq<bv8>>, w: seq<bv8>, before: seq<StoreOp>, s: StoreOp, total: nat, n: nat)
    requires Tallied(vs, before, total) && Legal(s) && |w| == GLOBAL_MASK + 1
    requires Outcome(vs[|before|], w, s.addr, s.size, ModeOf(s))
    requires n == |TrampledIn(vs[|before|], s.addr, s.addr + s.size, ModeOf(s))|
    ensures Tallied(vs + [w], before + [s], total + n)
  {
    HistoryNext(vs, w, before, s);
    TrampledIsNew(vs + [w], before + [s], |before|, vs[|before|], s);
    ReportedPrefix(vs, w, before, s, |before|);
  }

  method StoreNext(sm: ShadowMemory, s: StoreOp, ghost vs: seq<seq<bv8>>, ghost before: seq<StoreOp>, total: nat)
    returns (total': nat, ghost vs': seq<seq<bv8>>)
    requires sm.Valid() && Legal(s)
    requires Tallied(vs, before, total) && sm.gm.flat == vs[|before|]
    modifies sm, sm.gm.Repr
    ensures sm.Valid() && fresh(sm.gm.Repr - old(sm.gm.Repr))
    ensures Tallied(vs', before + [s], total') && sm.gm.flat == vs'[|before| + 1]
  {
    sm.atomicEnabled := s.atomic;
    var n := sm.StoreNBytes(s.addr, s.size, s.core, true, s.checked);
    vs', total' := vs + [sm.gm.flat], total + n;
    TalliedNext(vs, sm.gm.flat, before, s, total, n);
  }

  // ------------------------------------------------------------------ away from the top every store lands

  ghost predicate AllReach(stores: seq<StoreOp>) { forall s <- stores :: Reaches(s.addr, s.size) }

  /** Those of the first n stores that cover a byte, in order. */
  ghost function Covering(stores: seq<StoreOp>, n: nat, a: nat): seq<StoreOp>
    requires n <= |stores|
  {
    if n == 0 then []
    else
      var before, s := Covering(stores, n - 1, a), stores[n - 1];
      if s.Covers(a) then before + [s] else before
  }

  ghost function RacedBytes(stores: seq<StoreOp>, n: nat): set<nat>
    requires n <= |stores|
  {
    set a | 0 <= a <= GLOBAL_MASK && Raced(Covering(stores, n, a))
  }

  lemma {:induction false} AllLand(vs: seq<seq<bv8>>, stores: seq<StoreOp>, n: nat, a: nat)
    requires n <= |stores| && n <= |vs| && AllReach(stores)
    ensures Landed(vs, stores, n, a) == Covering(stores, n, a)
  {
    if n > 0 {
      var s := stores[n - 1];
      assert Reaches(s.addr, s.size) by { assert s in stores; }
      AllLand(vs, stores, n - 1, a);
      if s.Covers(a) { ReachedWhere(vs[n - 1], s.addr, s.size, a); }
    }
  }

  lemma RacedAt(vs: seq<seq<bv8>>, stores: seq<StoreOp>, i: nat, a: nat)
    requires i < |stores| && i <= |vs| && AllReach(stores)
    ensures var before, joins := Raced(Covering(stores, i, a)), Joins(Landed(vs, stores, i, a), stores[i], a);
            (Raced(Covering(stores, i + 1, a)) <==> before || joins) && !(before && joins)
  {
    AllLand(vs, stores, i, a);
    RacedNext(Covering(stores, i, a), stores[i]);
  }

  lemma NothingRaced(stores: seq<StoreOp>)
    ensures |RacedBytes(stores, 0)| == 0
  {
    assert RacedBytes(stores, 0) == {};
  }

  lemma {:induction false} ReportedIsRaced(vs: seq<seq<bv8>>, stores: seq<StoreOp>, n: nat)
    requires n <= |stores| && n <= |vs| && AllReach(stores)
    ensures Reported(vs, stores, n) == |RacedBytes(stores, n)|
  {
    if n == 0 {
      NothingRaced(stores);
    } else {
      ReportedIsRaced(vs, stores, n - 1);
      RacedBytesNext(vs, stores, n - 1);
    }
  }

  lemma RacedBytesNext(vs: seq<seq<bv8>>, stores: seq<StoreOp>, i: nat)
    requires i < |stores| && i <= |vs| && AllReach(stores)
    ensures |RacedBytes(stores, i + 1)| == |RacedBytes(stores, i)| + |NewlyRaced(vs, stores, i)|
  {
    var before, added, after := RacedBytes(stores, i), NewlyRaced(vs, stores, i), RacedBytes(stores, i + 1);
    forall a: nat ensures (a in after <==> a in before || a in added) && !(a in before && a in added) {
      RacedAt(vs, stores, i, a);
    }
    assert after == before + added && before !! added;
  }

  /** When all stores are strict, a byte races exactly when two different cores store it. */
  lemma {:induction false} StrictRace(l: seq<StoreOp>)
    requires forall x <- l :: x.Strict()
    ensures Raced(l) <==> exists i, j :: 0 <= i < |l| && 0 <= j < |l| && l[i].core != l[j].core
    ensures l != [] ==> OwnedBy(l, l[0].core)
  {
    if l != [] {
      assert Opens(l, 0) by { forall k | 0 <= k < |l| ensures !l[k].FromHost() { assert l[k] in l; } }
      if i :| 0 <= i < |l| && l[i].core != l[0].core {
        assert l[i] in l && Opens(l[..i], 0) by { forall k | 0 <= k < i ensures !l[..i][k].FromHost() { assert l[k] in l; } }
        assert OwnedBy(l[..i], l[0].core) && Clash(l[..i], l[i]);
      }
      if Raced(l) {
        var i :| 0 <= i < |l| && Clash(l[..i], l[i]);
        var c :| OwnedBy(l[..i], c) && c != l[i].core;
        var j :| 0 <= j < i && Opens(l[..i], j) && l[..i][j].core == c;
        assert l[j].core != l[i].core;
      }
    }
  }

  /**
   * The fast path of a load misses an undefined byte at the end of a first-level block once the block
   * has been materialised: here the last byte of block 0, after a one-byte store to address 0.
   */
  method MissedUndefinedRead() returns (sm: ShadowMemory, n: nat)
    ensures fresh(sm) && sm.Valid() && HasStatus(sm.gm.flat[WIDTH - 1], UNDEFINED) && n == 0
  {
    sm := new ShadowMemory();
    var _ := sm.StoreNBytes(0, 1, 5, true, true);
    DeviceCase(GM_DEFAULT, Mode(5, false, true));
    sm.gm.Materialised(0);
    ghost var bad := UndefinedIn(sm.gm.flat, WIDTH - 1, WIDTH);
    assert WIDTH - 1 in bad && forall a <- bad :: a == WIDTH - 1;
    assert !sm.gm.Scanned(WIDTH - 1, 1, WIDTH - 1);
    n := sm.LoadNBytes(WIDTH - 1, 1, true);
  }

  /** A store up to the 48-bit limit takes effect on its first byte and not on its last. */
  method PartialStore() returns (sm: ShadowMemory)
    ensures sm.Valid() && sm.gm.flat[0] == Stored(GM_DEFAULT, Mode(5, false, true)) != GM_DEFAULT
    ensures sm.gm.flat[GLOBAL_MASK - 1] == GM_DEFAULT
  {
    sm := new ShadowMemory();
    ghost var was := sm.gm.flat;
    var _ := sm.StoreNBytes(0, GLOBAL_MASK, 5, true, true);
    DeviceCase(GM_DEFAULT, Mode(5, false, true));
    ReachedWhere(was, 0, GLOBAL_MASK, 0);
    ReachedWhere(was, 0, GLOBAL_MASK, GLOBAL_MASK - 1);
  }
}
