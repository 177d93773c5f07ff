/**
 * The global-memory part of the host shadow memory: loads and stores walk the range in runs of equal
 * shadow bytes, rewriting the map as they go; what they compute is a byte-by-byte transition.
 */
module ShadowMemory {
  import opened Intervals
  import opened ShadowWord
  import opened PrimaryMap
  import opened GlobalMap

  const NOACCESS: bv8 := 0
  const UNDEFINED: bv8 := 1
  const DEFINED: bv8 := 2
  const ERROR: bv8 := 3
  const NO_CORE: bv8 := 63
  const HOST: bv8 := 0xFF

  // ------------------------------------------------------------------ one shadow byte

  function MakeByte(status: bv8, core: bv8): bv8 { (status & 3) | ((core << 2) & 0xFC) }
  function GetMemStatus(b: bv8): bv8 { b & 3 }
  function GetCoreId(b: bv8): bv8 { (b & 0xFC) >> 2 }
  function SetMemStatus(b: bv8, status: bv8): bv8 { (b & 0xFC) | (status & 3) }
  function SetCoreId(b: bv8, core: bv8): bv8 { (b & 3) | ((core << 2) & 0xFC) }

  const GM_DEFAULT: bv8 := MakeByte(UNDEFINED, NO_CORE)

  lemma PackedByte(b: bv8, status: bv8, core: bv8)
    requires status <= 3 && core <= 63
    ensures GetMemStatus(MakeByte(status, core)) == status && GetCoreId(MakeByte(status, core)) == core
    ensures GetMemStatus(SetMemStatus(b, status)) == status && GetCoreId(SetMemStatus(b, status)) == GetCoreId(b)
    ensures GetMemStatus(SetCoreId(b, core)) == GetMemStatus(b) && GetCoreId(SetCoreId(b, core)) == core
    ensures GetMemStatus(b) <= 3 && GetCoreId(b) <= 63
  {
  }

  /** Who stores, and with which checks: the parameters of a store other than its range. */
  datatype Mode = Mode(core: bv8, atomic: bool, overlapCheck: bool)

  /** The byte is owned by another core and the store is to be reported. */
  predicate Tramples(b: bv8, m: Mode) {
    && GetMemStatus(b) != ERROR && m.core != HOST && GetCoreId(b) != NO_CORE && GetCoreId(b) != m.core
    && !m.atomic && m.overlapCheck
  }

  /** What a store does to one byte. */
  function Stored(b: bv8, m: Mode): bv8 {
    if GetMemStatus(b) == ERROR then b
    else
      var d := if GetMemStatus(b) == UNDEFINED then SetMemStatus(b, DEFINED) else b;
      if m.core == HOST then SetCoreId(d, NO_CORE)
      else if GetCoreId(d) == NO_CORE then SetCoreId(d, m.core)
      else if Tramples(d, m) then SetMemStatus(d, ERROR)
      else d
  }

  // ------------------------------------------------------------------ ranges of a flat map

  /** The bytes of [lo, hi) that a store would report. */
  ghost function TrampledIn(v: seq<bv8>, lo: nat, hi: nat, m: Mode): set<nat>
    requires hi <= |v|
  {
    set a | lo <= a < hi && Tramples(v[a], m)
  }

  ghost function UndefinedIn(v: seq<bv8>, lo: nat, hi: nat): set<nat>
    requires hi <= |v|
  {
    set a | lo <= a < hi && HasStatus(v[a], UNDEFINED)
  }

  /** `w` is `v` with the store's transition applied to every byte of the range. */
  ghost predicate IsStore(v: seq<bv8>, w: seq<bv8>, addr: nat, size: nat, m: Mode) {
    |w| == |v| && forall a :: 0 <= a < |v| ==> w[a] == if addr <= a < addr + size then Stored(v[a], m) else v[a]
  }

  /** `w` is `v` with the run set to one byte, where overwrites take effect. */
  ghost predicate IsRun(v: seq<bv8>, w: seq<bv8>, at: nat, n: nat, b: bv8) {
    |w| == |v| && forall a :: 0 <= a < |v| ==> w[a] == if at <= a < at + n && Reaches(at, n) then b else v[a]
  }

  /** The transition in the order in which the code decides: first the status, then the owner. */
  lemma StoredInSteps(b: bv8, m: Mode)
    ensures var d := if GetMemStatus(b) == UNDEFINED then SetMemStatus(b, DEFINED) else b;
            GetMemStatus(b) != ERROR ==>
              && (Tramples(b, m) <==> m.core != HOST && GetCoreId(d) != NO_CORE && GetCoreId(d) != m.core
                                      && !m.atomic && m.overlapCheck)
              && (Tramples(d, m) <==> Tramples(b, m))
  {
    PackedByte(b, DEFINED, 0);
  }

  /** A run of equal bytes of [.., end) stops here. */
  ghost predicate Ends(v: seq<bv8>, end: nat, e: nat) {
    e == end || Boundary(e) || (0 < e < |v| && v[e - 1] != v[e])
  }

  /** The run that holds `a` stops soon enough for an overwrite of it to take effect. */
  ghost predicate Reached(v: seq<bv8>, end: nat, a: nat) {
    exists e :: a < e <= end && Reaches(e, 0) && Ends(v, end, e)
  }

  /** `w` is `v` with the transition applied to every byte of [addr, at) whose run is reached. */
  ghost predicate StoredUpTo(v: seq<bv8>, w: seq<bv8>, addr: nat, at: nat, end: nat, m: Mode) {
    && |w| == |v|
    && forall a :: 0 <= a < |v| ==> w[a] == if addr <= a < at && Reached(v, end, a) then Stored(v[a], m) else v[a]
  }

  /** Exactly what a store leaves behind. */
  ghost predicate Outcome(v: seq<bv8>, w: seq<bv8>, addr: nat, size: nat, m: Mode) {
    StoredUpTo(v, w, addr, addr + size, addr + size, m)
  }

  /** A range that reaches has all its bytes reached; in any other, those 64 KB before the point are and those past it are not. */
  lemma ReachedWhere(v: seq<bv8>, addr: nat, size: nat, a: nat)
    requires addr <= a < addr + size
    ensures Reaches(addr, size) ==> Reached(v, addr + size, a)
    ensures Reaches(a, SM_SIZE) ==> Reached(v, addr + size, a)
    ensures !Reaches(a, 1) ==> !Reached(v, addr + size, a)
  {
    if Reaches(addr, size) { assert Reaches(addr + size, 0) && Ends(v, addr + size, addr + size); }
    if Reaches(a, SM_SIZE) {
      var e := NextBoundary(a);
      var stop := Min(e, addr + size);
      assert Reaches(stop, 0) && Ends(v, addr + size, stop);
    }
  }

  /** A store is done in full if and only if every byte it would change is in a run that is reached. */
  lemma StoredInFull(v: seq<bv8>, w: seq<bv8>, addr: nat, size: nat, m: Mode)
    requires Outcome(v, w, addr, size, m) && addr + size <= |v|
    ensures IsStore(v, w, addr, size, m)
            <==> forall a :: addr <= a < addr + size && Stored(v[a], m) != v[a] ==> Reached(v, addr + size, a)
    ensures Reaches(addr, size) ==> IsStore(v, w, addr, size, m)
    ensures 0 < size && Stored(v[addr + size - 1], m) != v[addr + size - 1] ==>
              (IsStore(v, w, addr, size, m) <==> Reaches(addr, size))
  {
    var end := addr + size;
    forall a | addr <= a < end
      ensures (Reaches(addr, size) ==> Reached(v, end, a)) && (!Reaches(a, 1) ==> !Reached(v, end, a))
    {
      ReachedWhere(v, addr, size, a);
    }
    assert StoredUpTo(v, w, addr, end, end, m);
    if IsStore(v, w, addr, size, m) {
      forall a | addr <= a < end && Stored(v[a], m) != v[a] ensures Reached(v, end, a) {
        assert w[a] == Stored(v[a], m);
      }
    }
  }

  /** A maximal run of the map as it is now is one of the map as it was, because what lies ahead is unchanged. */
  lemma RunEnds(v: seq<bv8>, mid: seq<bv8>, addr: nat, size: nat, at: nat, n: nat, end: nat)
    requires end == addr + size && addr <= at < addr + size && addr + size < |v| == |mid| && 1 <= n <= RunLimit(addr, size, at) <= addr + size - at
    requires forall a :: at <= a < |v| ==> mid[a] == v[a]
    requires forall a :: at <= a < at + n ==> mid[a] == mid[at]
    requires n == RunLimit(addr, size, at) || mid[at + n] != mid[at]
    ensures Ends(v, end, at + n) && forall e :: at < e < at + n ==> !Ends(v, end, e)
    ensures forall a :: at <= a < at + n ==> v[a] == v[at]
  {
    RunCrossesNothing(addr, size, at, n);
    assert v[at + n - 1] == mid[at + n - 1] == mid[at];
    forall e | at < e < at + n ensures v[e - 1] == v[e] {
      assert mid[e - 1] == mid[at] && mid[e] == mid[at];
    }
  }

  /** The bytes of one run are reached together. */
  lemma RunReached(v: seq<bv8>, end: nat, at: nat, n: nat, a: nat)
    requires at <= a < at + n <= end && Ends(v, end, at + n)
    requires forall e :: at < e < at + n ==> !Ends(v, end, e)
    ensures Reached(v, end, a) <==> Reaches(at, n)
  {
    if Reaches(at, n) { assert Reaches(at + n, 0); }
  }

  lemma RunStored(v: seq<bv8>, mid: seq<bv8>, w: seq<bv8>, addr: nat, at: nat, n: nat, end: nat, m: Mode)
    requires addr <= at && 0 < n && at + n <= end <= |v| && StoredUpTo(v, mid, addr, at, end, m) && |w| == |mid|
    requires IsRun(mid, w, at, n, Stored(mid[at], m)) && forall a :: at <= a < at + n ==> v[a] == v[at]
    requires Ends(v, end, at + n) && forall e :: at < e < at + n ==> !Ends(v, end, e)
    ensures StoredUpTo(v, w, addr, at + n, end, m)
  {
    forall a | at <= a < at + n ensures Reached(v, end, a) <==> Reaches(at, n) { RunReached(v, end, at, n, a); }
  }

  lemma UndefinedRun(v: seq<bv8>, addr: nat, at: nat, k: nat)
    requires addr <= at && at + k <= |v| && 0 < k && forall a :: at <= a < at + k ==> v[a] == v[at]
    ensures |UndefinedIn(v, addr, at + k)|
            == |UndefinedIn(v, addr, at)| + (if HasStatus(v[at], UNDEFINED) then k else 0)
  {
    var s, next := UndefinedIn(v, addr, at), UndefinedIn(v, addr, at + k);
    if HasStatus(v[at], UNDEFINED) {
      assert next == s + Interval(at, at + k);
      AddRun(s, at, at + k);
    } else {
      assert next == s;
    }
  }

  lemma TrampledRun(v: seq<bv8>, addr: nat, at: nat, k: nat, m: Mode)
    requires addr <= at && at + k <= |v| && 0 < k && forall a :: at <= a < at + k ==> v[a] == v[at]
    ensures |TrampledIn(v, addr, at + k, m)| == |TrampledIn(v, addr, at, m)| + (if Tramples(v[at], m) then k else 0)
  {
    var s, next := TrampledIn(v, addr, at, m), TrampledIn(v, addr, at + k, m);
    if Tramples(v[at], m) {
      assert next == s + Interval(at, at + k);
      AddRun(s, at, at + k);
    } else {
      assert next == s;
    }
  }

  /** ValidateRange for global memory: the range is cut at the end of the address range, wrap-around included. */
  method ValidateRange(addr: nat, size: nat) returns (addr': nat, size': nat)
    requires addr <= UINT64_MAX && size <= UINT64_MAX
    ensures addr' == Min(GLOBAL_MASK, addr) && addr' + size' == Min(GLOBAL_MASK, addr + size)
  {
    var addrR;
    if UINT64_MAX - size < addr {
      addrR := GLOBAL_MASK;
    } else {
      addrR := Min(GLOBAL_MASK, addr + size);
    }
    addr' := Min(GLOBAL_MASK, addr);
    size' := addrR - addr';
  }

  class ShadowMemory {
    const gm: GmPM
    var atomicEnabled: bool

    ghost predicate Valid()
      reads this, gm, gm.Repr
    {
      gm.Valid() && this !in gm.Repr
    }

    constructor ()
      ensures Valid() && fresh(gm) && fresh(gm.Repr) && !atomicEnabled && gm.init == GM_DEFAULT
      ensures forall a :: 0 <= a <= GLOBAL_MASK ==> gm.flat[a] == GM_DEFAULT
    {
      gm := new GmPM(GM_DEFAULT);
      atomicEnabled := false;
    }

    /** One overwrite of the run. */
    method WriteRun(at: nat, n: nat, bits: bv8, ghost was: seq<bv8>, ghost now: bv8)
      requires Valid() && at + n <= GLOBAL_MASK && IsRun(was, gm.flat, at, n, now)
      modifies gm.Repr
      ensures Valid() && fresh(gm.Repr - old(gm.Repr)) && IsRun(was, gm.flat, at, n, bits)
    {
      gm.Set(at, n, bits);
    }

    /** One run of equal bytes: at most two overwrites, as the code does them. */
    method StoreRun(at: nat, n: nat, m: Mode) returns (bad: nat)
      requires Valid() && at + n <= GLOBAL_MASK && 0 < n
      requires m.atomic == atomicEnabled
      requires forall a :: at <= a < at + n ==> gm.flat[a] == gm.flat[at]
      modifies gm.Repr
      ensures Valid() && fresh(gm.Repr - old(gm.Repr))
      ensures bad == if Tramples(old(gm.flat[at]), m) then n else 0
      ensures IsRun(old(gm.flat), gm.flat, at, n, Stored(old(gm.flat[at]), m))
    {
      bad := 0;
      var bits := gm.GetBits(at);
      ghost var was, first := gm.flat, bits;
      StoredInSteps(first, m);
      if GetMemStatus(bits) == ERROR {
        return;
      } else if GetMemStatus(bits) == UNDEFINED {
        WriteRun(at, n, SetMemStatus(bits, DEFINED), was, bits);
        bits := SetMemStatus(bits, DEFINED);
      }
      var id := GetCoreId(bits);
      if m.core == HOST {
        WriteRun(at, n, SetCoreId(bits, NO_CORE), was, bits);
      } else if id == NO_CORE {
        WriteRun(at, n, SetCoreId(bits, m.core), was, bits);
      } else if id != m.core {
        if atomicEnabled { return; }
        if m.overlapCheck {
          bad := n;
          WriteRun(at, n, SetMemStatus(bits, ERROR), was, bits);
        }
      }
    }

    /**
     * A store of [addr, addr + size) made run by run applies the byte transition to each byte whose run is
     * reached, which is every byte unless the range ends near the top of the address range; and the count is
     * the number of bytes that trample another core's data.
     */
    method StoreInRange(addr: nat, size: nat, m: Mode) returns (bad: nat)
      requires Valid() && addr + size <= GLOBAL_MASK && m.atomic == atomicEnabled
      modifies gm.Repr
      ensures Valid() && fresh(gm.Repr - old(gm.Repr))
      ensures bad == |TrampledIn(old(gm.flat), addr, addr + size, m)|
      ensures Outcome(old(gm.flat), gm.flat, addr, size, m)
    {
      bad := 0;
      var at: nat := addr;
      ghost var was := gm.flat;
      while at < addr + size
        invariant addr <= at <= addr + size
        invariant Valid() && fresh(gm.Repr - old(gm.Repr))
        invariant StoredUpTo(was, gm.flat, addr, at, addr + size, m)
        invariant bad == |TrampledIn(was, addr, at, m)|
      {
        var n, b := StoreNextRun(addr, size, at, m, was);
        TrampledRun(was, addr, at, n, m);
        bad := bad + b;
        at := at + n;
      }
    }

    /** One turn of the loop: the run found at `at` is stored. */
    method StoreNextRun(addr: nat, size: nat, at: nat, m: Mode, ghost was: seq<bv8>) returns (n: nat, bad: nat)
      requires Valid() && addr <= at < addr + size <= GLOBAL_MASK && m.atomic == atomicEnabled
      requires StoredUpTo(was, gm.flat, addr, at, addr + size, m)
      modifies gm.Repr
      ensures Valid() && fresh(gm.Repr - old(gm.Repr))
      ensures 0 < n && at + n <= addr + size && (forall a :: at <= a < at + n ==> was[a] == was[at])
      ensures bad == if Tramples(was[at], m) then n else 0
      ensures StoredUpTo(was, gm.flat, addr, at + n, addr + size, m)
    {
      n := gm.UnifiedSizeAfter(addr, size, at);
      ghost var mid := gm.flat;
      RunEnds(was, mid, addr, size, at, n, addr + size);
      bad := StoreRun(at, n, m);
      RunStored(was, mid, gm.flat, addr, at, n, addr + size, m);
    }

    /** The loop of LoadNBytes: how many bytes of the range are undefined. */
    method CountUndefined(addr: nat, size: nat) returns (n: nat)
      requires Valid() && addr + size <= GLOBAL_MASK
      ensures n == |UndefinedIn(gm.flat, addr, addr + size)|
    {
      n := 0;
      var at: nat := addr;
      ghost var v := gm.flat;
      while at < addr + size
        invariant addr <= at <= addr + size
        invariant n == |UndefinedIn(v, addr, at)|
      {
        var k := gm.UnifiedSizeAfter(addr, size, at);
        var bits := gm.GetBits(at);
        assert forall a :: at <= a < at + k ==> v[a] == gm.flat[a];
        UndefinedRun(v, addr, at, k);
        if GetMemStatus(bits) == UNDEFINED { n := n + k; }
        at := at + k;
      }
    }

    method StoreNBytes(addr: nat, size: nat, core: bv8, memCheck: bool, overlapCheck: bool) returns (reported: nat)
      requires Valid() && addr <= UINT64_MAX && size <= UINT64_MAX
      modifies gm.Repr
      ensures Valid() && fresh(gm.Repr - old(gm.Repr))
      ensures var lo, hi := Min(GLOBAL_MASK, addr), Min(GLOBAL_MASK, addr + size);
              var m := Mode(core, atomicEnabled, overlapCheck);
              && reported == (if memCheck then |TrampledIn(old(gm.flat), lo, hi, m)| else 0)
              && Outcome(old(gm.flat), gm.flat, lo, hi - lo, m)
              && (Reaches(lo, hi - lo) ==> IsStore(old(gm.flat), gm.flat, lo, hi - lo, m))
    {
      var a, n := ValidateRange(addr, size);
      ghost var was := gm.flat;
      reported := StoreInRange(a, n, Mode(core, atomicEnabled, overlapCheck));
      StoredInFull(was, gm.flat, a, n, Mode(core, atomicEnabled, overlapCheck));
      if !memCheck { reported := 0; }
    }

    /**
     * The fast path answers zero whenever the status scan finds no undefined byte; otherwise the count is
     * exact.  So the answer is the number of undefined bytes if and only if there are none or one of
     * them is scanned.
     */
    method LoadNBytes(addr: nat, size: nat, initCheck: bool) returns (n: nat)
      requires Valid() && addr <= UINT64_MAX && size <= UINT64_MAX
      ensures !initCheck ==> n == 0
      ensures var lo, hi := Min(GLOBAL_MASK, addr), Min(GLOBAL_MASK, addr + size);
              var bad := UndefinedIn(gm.flat, lo, hi);
              initCheck ==>
                && (n == 0 || n == |bad|)
                && (n == |bad| <==> bad == {} || (Reaches(lo, hi - lo) && exists a <- bad :: gm.Scanned(lo, hi - lo, a)))
    {
      var a, k := ValidateRange(addr, size);
      if !initCheck { return 0; }
      var found := gm.RangeHasStatus(a, k, UNDEFINED);
      FastPath(a, k, found);
      if !found { return 0; }
      n := CountUndefined(a, k);
    }

    lemma FastPath(lo: nat, size: nat, found: bool)
      requires Valid() && lo + size <= GLOBAL_MASK
      requires found <==> Reaches(lo, size) && exists a :: lo <= a < lo + size && HasStatus(gm.flat[a], UNDEFINED) && gm.Scanned(lo, size, a)
      ensures var bad := UndefinedIn(gm.flat, lo, lo + size);
              found <==> Reaches(lo, size) && exists a <- bad :: gm.Scanned(lo, size, a)
    {
      var v := gm.flat;
      var bad := UndefinedIn(v, lo, lo + size);
      if found {
        var a :| lo <= a < lo + size && HasStatus(gm.flat[a], UNDEFINED) && gm.Scanned(lo, size, a);
        assert v[a] == gm.flat[a] && a in bad;
      }
      if Reaches(lo, size) && exists a <- bad :: gm.Scanned(lo, size, a) {
        var a :| a in bad && gm.Scanned(lo, size, a);
        assert v[a] == gm.flat[a];
      }
    }

    method MakeMemUndefined(addr: nat, size: nat)
      requires Valid() && addr <= UINT64_MAX && size <= UINT64_MAX
      modifies gm.Repr
      ensures Valid() && fresh(gm.Repr - old(gm.Repr))
      ensures var lo, hi := Min(GLOBAL_MASK, addr), Min(GLOBAL_MASK, addr + size);
              forall a :: 0 <= a <= GLOBAL_MASK ==>
                gm.flat[a] == if lo <= a < hi && Reaches(lo, hi - lo) then GM_DEFAULT else old(gm.flat[a])
    {
      var a, n := ValidateRange(addr, size);
      gm.Set(a, n, MakeByte(UNDEFINED, NO_CORE));
    }
  }
}
