/**
 * The allocated ranges of a memory: a sorted vector of half-open ranges with permissions, edited in
 * place.  It stands for a partial map from addresses to permissions.
 */
module DiscreteBounds {
  import opened Intervals

  datatype Range = Range(addrL: nat, addrR: nat, permission: bv32) {
    predicate Has(a: nat) { addrL <= a < addrR }
  }

  datatype AccessType = READ | WRITE | BOTH

  predicate HasPermission(permission: bv32, access: AccessType) {
    match access
    case READ => permission & 1 != 0
    case WRITE => permission & 2 != 0
    case BOTH => permission & 1 != 0 && permission & 2 != 0
  }

  /** The permissions none, read, write and both; the flag for shared memory makes no difference. */
  lemma PermissionTable(p: bv32, access: AccessType)
    requires p <= 3
    ensures HasPermission(p, READ) <==> p == 1 || p == 3
    ensures HasPermission(p, WRITE) <==> p == 2 || p == 3
    ensures HasPermission(p, BOTH) <==> p == 3
    ensures HasPermission(p | 4, access) <==> HasPermission(p, access)
  {
  }

  // ------------------------------------------------------------------ the partial map

  /** Ascending and disjoint; empty ranges may occur. */
  ghost predicate Sorted(rs: seq<Range>) {
    && (forall i :: 0 <= i < |rs| ==> rs[i].addrL <= rs[i].addrR)
    && (forall i, j :: 0 <= i < j < |rs| ==> rs[i].addrR <= rs[j].addrL)
  }

  /** The map sends `a` to `p`. */
  ghost predicate Maps(rs: seq<Range>, a: nat, p: bv32) {
    exists i :: 0 <= i < |rs| && rs[i].Has(a) && rs[i].permission == p
  }

  ghost predicate Mapped(rs: seq<Range>, a: nat) { exists i :: 0 <= i < |rs| && rs[i].Has(a) }

  lemma MapsIsFunctional(rs: seq<Range>, a: nat, p: bv32, q: bv32)
    requires Sorted(rs) && Maps(rs, a, p) && Maps(rs, a, q)
    ensures p == q
  {
  }

  /** The part of a differently labelled range that an Add in its middle loses. */
  ghost predicate Dropped(rs: seq<Range>, addr: nat, size: nat, permission: bv32, a: nat) {
    exists i :: 0 <= i < |rs| && rs[i].addrL <= addr && addr + size <= a < rs[i].addrR && rs[i].permission != permission
  }

  /** Where all ranges carry the permission added, nothing is lost. */
  lemma UniformNotDropped(rs: seq<Range>, addr: nat, size: nat, p: bv32, x: nat)
    requires forall y: nat, q :: Maps(rs, y, q) ==> q == p
    ensures !Dropped(rs, addr, size, p, x)
  {
    if Dropped(rs, addr, size, p, x) {
      var i :| 0 <= i < |rs| && rs[i].addrL <= addr && addr + size <= x < rs[i].addrR && rs[i].permission != p;
      assert rs[i].Has(x);
      assert Maps(rs, x, rs[i].permission);
    }
  }

  // ------------------------------------------------------------------ searching

  /** std::upper_bound on the left ends. */
  function AfterLeft(rs: seq<Range>, addr: nat): (k: nat)
    ensures k <= |rs|
    ensures forall i :: 0 <= i < k ==> rs[i].addrL <= addr
    ensures k < |rs| ==> addr < rs[k].addrL
  {
    if rs == [] || addr < rs[0].addrL then 0 else 1 + AfterLeft(rs[1..], addr)
  }

  /** std::upper_bound on the right ends. */
  function AfterRight(rs: seq<Range>, addr: nat): (k: nat)
    ensures k <= |rs|
    ensures forall i :: 0 <= i < k ==> rs[i].addrR <= addr
    ensures k < |rs| ==> addr < rs[k].addrR
  {
    if rs == [] || addr < rs[0].addrR then 0 else 1 + AfterRight(rs[1..], addr)
  }

  /** The number of bytes of a request that lie beyond the 48-bit range; zero lets it pass. */
  function Overflow(addr: nat, size: nat): nat {
    if addr <= GLOBAL_MASK && size > GLOBAL_MASK - addr then size - (GLOBAL_MASK - addr)
    else if addr > GLOBAL_MASK then size
    else 0
  }

  lemma OverflowCounts(addr: nat, size: nat)
    ensures Overflow(addr, size) == |Interval(Max(addr, GLOBAL_MASK), addr + size)|
    ensures Overflow(addr, size) == 0 <==> size == 0 || addr + size <= GLOBAL_MASK
  {
  }

  // ------------------------------------------------------------------ pieces of a vector

  lemma MapsConcat(x: seq<Range>, y: seq<Range>, a: nat, p: bv32)
    ensures Maps(x + y, a, p) <==> Maps(x, a, p) || Maps(y, a, p)
  {
    if Maps(x, a, p) {
      var i :| 0 <= i < |x| && x[i].Has(a) && x[i].permission == p;
      assert (x + y)[i] == x[i];
    }
    if Maps(y, a, p) {
      var i :| 0 <= i < |y| && y[i].Has(a) && y[i].permission == p;
      assert (x + y)[|x| + i] == y[i];
    }
  }

  lemma MapsOne(r: Range, a: nat, p: bv32)
    ensures Maps([r], a, p) <==> r.Has(a) && r.permission == p
  {
    if r.Has(a) && r.permission == p { assert [r][0].Has(a); }
  }

  /** A vector cut in two, and in a single range with what is before and after it. */
  lemma MapsSplit(rs: seq<Range>, k: nat, a: nat, p: bv32)
    requires k <= |rs|
    ensures Maps(rs, a, p) <==> Maps(rs[..k], a, p) || Maps(rs[k..], a, p)
    ensures k < |rs| ==> (Maps(rs[k..], a, p) <==> (rs[k].Has(a) && rs[k].permission == p) || Maps(rs[k + 1..], a, p))
  {
    assert rs == rs[..k] + rs[k..];
    MapsConcat(rs[..k], rs[k..], a, p);
    if k < |rs| {
      assert rs[k..] == [rs[k]] + rs[k + 1..];
      MapsConcat([rs[k]], rs[k + 1..], a, p);
      MapsOne(rs[k], a, p);
    }
  }

  // ------------------------------------------------------------------ Remove

  /** What Remove keeps of the range it starts in, and of the range it ends in. */
  function LeftPart(rs: seq<Range>, k: nat, addr: nat): seq<Range>
    requires k <= |rs|
  {
    if k < |rs| && addr > rs[k].addrL then [rs[k].(addrR := addr)] else []
  }

  function RightPart(rs: seq<Range>, n: nat, addrR: nat): seq<Range>
    requires n <= |rs|
  {
    if n < |rs| && rs[n].addrL < addrR then [rs[n].(addrL := addrR)] + rs[n + 1..] else rs[n..]
  }

  /** The ranges k .. n end inside the removed part, the one at n, if any, does not. */
  ghost predicate Erased(rs: seq<Range>, addr: nat, addrR: nat, k: nat, n: nat) {
    && k <= n <= |rs|
    && (forall j :: 0 <= j < k ==> rs[j].addrR <= addr)
    && (forall j :: k <= j < n ==> rs[j].addrR <= addrR)
    && (k < |rs| ==> addr < rs[k].addrR)
    && (n < |rs| ==> addrR <= rs[n].addrL || addrR < rs[n].addrR)
  }

  lemma RemovedSorted(rs: seq<Range>, addr: nat, addrR: nat, k: nat, n: nat)
    requires Sorted(rs) && addr <= addrR && Erased(rs, addr, addrR, k, n)
    ensures Sorted(rs[..k] + LeftPart(rs, k, addr) + RightPart(rs, n, addrR))
  {
    var l, t := LeftPart(rs, k, addr), RightPart(rs, n, addrR);
    RightSortedFrom(rs, n, addrR);
    if l == [] {
      assert rs[..k] + l == rs[..k];
      if k < |rs| { RightAfter(rs, k, n, addrR, rs[k].addrL); SortedConcat(rs[..k], t, rs[k].addrL); }
      else { assert rs[..k] + t == rs; }
    } else {
      SortedConcat(rs[..k], l, rs[k].addrL);
      RightAfter(rs, k, n, addrR, addr);
      SortedConcat(rs[..k] + l, t, addr);
    }
  }

  lemma RightSortedFrom(rs: seq<Range>, n: nat, addrR: nat)
    requires Sorted(rs) && n <= |rs| && (n < |rs| ==> addrR <= rs[n].addrL || addrR < rs[n].addrR)
    ensures Sorted(RightPart(rs, n, addrR))
  {
    if n < |rs| && rs[n].addrL < addrR { SortedConcat([rs[n].(addrL := addrR)], rs[n + 1..], rs[n].addrR); }
  }

  lemma RightAfter(rs: seq<Range>, k: nat, n: nat, addrR: nat, m: nat)
    requires Sorted(rs) && k <= n <= |rs| && k < |rs|
    requires m == rs[k].addrL || (rs[k].addrL < m < rs[k].addrR && m <= addrR && (n == k ==> rs[k].addrL < addrR))
    ensures forall i :: 0 <= i < |RightPart(rs, n, addrR)| ==> m <= RightPart(rs, n, addrR)[i].addrL
  {
  }

  /** `r` is `rs` without exactly the addresses [addr, addrR). */
  ghost predicate Removes(rs: seq<Range>, r: seq<Range>, addr: nat, addrR: nat) {
    forall a: nat, p :: Maps(r, a, p) <==> Maps(rs, a, p) && !(addr <= a < addrR)
  }

  lemma RemovesSorted(rs: seq<Range>, addr: nat, addrR: nat, k: nat, n: nat, r: seq<Range>)
    requires Sorted(rs) && addr <= addrR && Erased(rs, addr, addrR, k, n)
    requires r == rs[..k] + LeftPart(rs, k, addr) + RightPart(rs, n, addrR)
    ensures Sorted(r) && Removes(rs, r, addr, addrR)
  {
    RemovedSorted(rs, addr, addrR, k, n);
    RemovesAll(rs, addr, addrR, k, n);
  }

  lemma RemovesAll(rs: seq<Range>, addr: nat, addrR: nat, k: nat, n: nat)
    requires Sorted(rs) && addr <= addrR && Erased(rs, addr, addrR, k, n)
    ensures Removes(rs, rs[..k] + LeftPart(rs, k, addr) + RightPart(rs, n, addrR), addr, addrR)
  {
    var r := rs[..k] + LeftPart(rs, k, addr) + RightPart(rs, n, addrR);
    forall a: nat, p ensures Maps(r, a, p) <==> Maps(rs, a, p) && !(addr <= a < addrR) {
      RemovedMaps(rs, addr, addrR, k, n, a, p);
    }
  }

  /** From k on the ranges before n end inside the request, the one at n, if any, does not. */
  ghost predicate EndsFrom(rs: seq<Range>, k: nat, n: nat, addrR: nat) {
    && k <= n <= |rs|
    && (forall j :: k <= j < n ==> rs[j].addrR <= addrR)
    && (n < |rs| ==> addrR <= rs[n].addrL || addrR < rs[n].addrR)
  }

  lemma ErasedAll(rs: seq<Range>, addr: nat, addrR: nat, k: nat, n: nat)
    requires k == AfterRight(rs, addr) && EndsFrom(rs, k, n, addrR)
    ensures Erased(rs, addr, addrR, k, n)
  {
  }

  lemma RemovedMaps(rs: seq<Range>, addr: nat, addrR: nat, k: nat, n: nat, a: nat, p: bv32)
    requires Sorted(rs) && addr <= addrR && Erased(rs, addr, addrR, k, n)
    ensures Maps(rs[..k] + LeftPart(rs, k, addr) + RightPart(rs, n, addrR), a, p)
            <==> Maps(rs, a, p) && !(addr <= a < addrR)
  {
    var l, r := LeftPart(rs, k, addr), RightPart(rs, n, addrR);
    MapsConcat(rs[..k] + l, r, a, p);
    MapsConcat(rs[..k], l, a, p);
    LeftMaps(rs, addr, k, a, p);
    RightMaps(rs, addrR, n, a, p);
    MapsSplit(rs, k, a, p);
    MiddleMaps(rs, addr, addrR, k, n, a, p);
  }

  lemma LeftMaps(rs: seq<Range>, addr: nat, k: nat, a: nat, p: bv32)
    requires Sorted(rs) && k <= |rs| && (forall j :: 0 <= j < k ==> rs[j].addrR <= addr) && (k < |rs| ==> addr < rs[k].addrR)
    ensures Maps(rs[..k], a, p) ==> a < addr
    ensures Maps(LeftPart(rs, k, addr), a, p) <==> k < |rs| && rs[k].Has(a) && rs[k].permission == p && a < addr
  {
    if k < |rs| && addr > rs[k].addrL { MapsOne(rs[k].(addrR := addr), a, p); }
  }

  lemma RightMaps(rs: seq<Range>, addrR: nat, n: nat, a: nat, p: bv32)
    requires Sorted(rs) && n <= |rs| && (n < |rs| ==> addrR <= rs[n].addrL || addrR < rs[n].addrR)
    ensures Maps(RightPart(rs, n, addrR), a, p) <==> Maps(rs[n..], a, p) && addrR <= a
  {
    if n < |rs| {
      MapsSplit(rs, n, a, p);
      if rs[n].addrL < addrR {
        MapsConcat([rs[n].(addrL := addrR)], rs[n + 1..], a, p);
        MapsOne(rs[n].(addrL := addrR), a, p);
      }
    }
  }

  /** Between k and n only the part before `addr` of the first range lies outside the removed bytes. */
  lemma MiddleMaps(rs: seq<Range>, addr: nat, addrR: nat, k: nat, n: nat, a: nat, p: bv32)
    requires Sorted(rs) && addr <= addrR && Erased(rs, addr, addrR, k, n)
    ensures addrR <= a ==> (Maps(rs[k..], a, p) <==> Maps(rs[n..], a, p))
    ensures a < addr ==> (Maps(rs[k..], a, p) <==> k < |rs| && rs[k].Has(a) && rs[k].permission == p)
    ensures Maps(rs[..k], a, p) ==> a < addr
  {
    assert rs[k..] == rs[k..n] + rs[n..];
    MapsConcat(rs[k..n], rs[n..], a, p);
    MapsSplit(rs, k, a, p);
  }

  // ------------------------------------------------------------------ Add

  /** Whether Add meets the range before it, and whether it may simply extend that range. */
  predicate Meets(rs: seq<Range>, k: nat, addr: nat) { 0 < k <= |rs| && rs[k - 1].addrR >= addr }

  /** What stands before the current range once Add has placed it. */
  function Before(rs: seq<Range>, k: nat, addr: nat, permission: bv32): seq<Range>
    requires k <= |rs|
  {
    if !Meets(rs, k, addr) then rs[..k]
    else if rs[k - 1].permission == permission then rs[..k - 1]
    else rs[..k - 1] + [rs[k - 1].(addrR := addr)]
  }

  /** The current range, before it swallows its right neighbours. */
  function Current(rs: seq<Range>, k: nat, addr: nat, size: nat, permission: bv32): Range
    requires k <= |rs|
  {
    if Meets(rs, k, addr) && rs[k - 1].permission == permission
    then rs[k - 1].(addrR := Max(rs[k - 1].addrR, addr + size))
    else Range(addr, addr + size, permission)
  }

  /**
   * The current range, ending first at r0 and now at r, has swallowed the first n ranges after it: what
   * it gained beyond r0 already had its permission.
   */
  ghost predicate Swallowed(suf: seq<Range>, r0: nat, r: nat, n: nat, permission: bv32) {
    && n <= |suf| && r0 <= r
    && (forall j :: 0 <= j < n ==> suf[j].addrR <= r)
    && (forall a: nat :: r0 <= a < r ==> Maps(suf[..n], a, permission))
  }

  lemma SwallowNext(suf: seq<Range>, r0: nat, r: nat, n: nat, permission: bv32)
    requires Swallowed(suf, r0, r, n, permission) && n < |suf| && suf[n].addrL <= r
    requires suf[n].addrR <= r || suf[n].permission == permission
    ensures Swallowed(suf, r0, Max(r, suf[n].addrR), n + 1, permission)
  {
    var more := suf[..n + 1];
    assert more == suf[..n] + [suf[n]];
    forall a: nat | r0 <= a < Max(r, suf[n].addrR) ensures Maps(more, a, permission) {
      MapsConcat(suf[..n], [suf[n]], a, permission);
      MapsOne(suf[n], a, permission);
    }
  }

  ghost predicate Stops(suf: seq<Range>, r: nat, n: nat, permission: bv32) {
    n <= |suf| && (n < |suf| ==> r < suf[n].addrL || (r < suf[n].addrR && suf[n].permission != permission))
  }

  function Added(rs: seq<Range>, k: nat, addr: nat, size: nat, permission: bv32, r: nat, n: nat): seq<Range>
    requires k <= |rs| && n <= |rs| - k
  {
    Before(rs, k, addr, permission) + [Current(rs, k, addr, size, permission).(addrR := r)] + RightPart(rs[k..], n, r)
  }

  ghost predicate AddState(rs: seq<Range>, k: nat, addr: nat, size: nat, permission: bv32, r: nat, n: nat) {
    && Sorted(rs) && k == AfterLeft(rs, addr)
    && n <= |rs| - k
    && Swallowed(rs[k..], Current(rs, k, addr, size, permission).addrR, r, n, permission)
    && Stops(rs[k..], r, n, permission)
  }

  lemma BeforeSorted(rs: seq<Range>, k: nat, addr: nat, size: nat, permission: bv32)
    requires Sorted(rs) && k == AfterLeft(rs, addr)
    ensures Sorted(Before(rs, k, addr, permission)) && Current(rs, k, addr, size, permission).addrL <= addr
    ensures forall i :: 0 <= i < |Before(rs, k, addr, permission)| ==>
              Before(rs, k, addr, permission)[i].addrR <= Current(rs, k, addr, size, permission).addrL
  {
    if k > 0 { PrefixSorted(rs, k - 1); }
    PrefixSorted(rs, k);
    if Meets(rs, k, addr) && rs[k - 1].permission != permission {
      SortedConcat(rs[..k - 1], [rs[k - 1].(addrR := addr)], rs[k - 1].addrL);
    }
  }

  lemma PrefixSorted(rs: seq<Range>, k: nat)
    requires Sorted(rs) && k <= |rs|
    ensures Sorted(rs[..k]) && (k < |rs| ==> forall i :: 0 <= i < k ==> rs[..k][i].addrR <= rs[k].addrL)
  {
  }

  lemma BeforeMaps(rs: seq<Range>, k: nat, addr: nat, size: nat, permission: bv32, a: nat, p: bv32)
    requires Sorted(rs) && k == AfterLeft(rs, addr)
    ensures Maps(Before(rs, k, addr, permission), a, p) ==> a < addr
    ensures a < addr ==>
              (Maps(rs[..k], a, p)
               <==> Maps(Before(rs, k, addr, permission), a, p)
                    || (Current(rs, k, addr, size, permission).Has(a) && p == permission))
  {
    var b := Before(rs, k, addr, permission);
    if Meets(rs, k, addr) {
      var prev := rs[k - 1];
      assert rs[..k] == rs[..k - 1] + [prev];
      MapsConcat(rs[..k - 1], [prev], a, p);
      MapsOne(prev, a, p);
      if prev.permission != permission {
        MapsConcat(rs[..k - 1], [prev.(addrR := addr)], a, p);
        MapsOne(prev.(addrR := addr), a, p);
      }
    }
  }

  lemma SortedConcat(x: seq<Range>, y: seq<Range>, m: nat)
    requires Sorted(x) && Sorted(y)
    requires (forall i :: 0 <= i < |x| ==> x[i].addrR <= m) && (forall i :: 0 <= i < |y| ==> m <= y[i].addrL)
    ensures Sorted(x + y)
  {
  }

  lemma RightSorted(suf: seq<Range>, r: nat, n: nat, permission: bv32)
    requires Sorted(suf) && Stops(suf, r, n, permission)
    ensures Sorted(RightPart(suf, n, r)) && forall i :: 0 <= i < |RightPart(suf, n, r)| ==> r <= RightPart(suf, n, r)[i].addrL
  {
    RightSortedFrom(suf, n, r);
    var t := RightPart(suf, n, r);
    if n < |suf| {
      assert t[0].addrL >= r;
      SortedFromFirst(t);
    }
  }

  lemma SortedFromFirst(rs: seq<Range>)
    requires Sorted(rs) && rs != []
    ensures forall i :: 0 <= i < |rs| ==> rs[0].addrL <= rs[i].addrL
  {
  }

  lemma SuffixSorted(rs: seq<Range>, k: nat, addr: nat)
    requires Sorted(rs) && k == AfterLeft(rs, addr)
    ensures Sorted(rs[k..]) && forall i :: 0 <= i < |rs[k..]| ==> addr < rs[k..][i].addrL
  {
  }

  lemma PiecesSorted(b: seq<Range>, c: Range, t: seq<Range>)
    requires Sorted(b) && Sorted(t) && c.addrL <= c.addrR
    requires (forall i :: 0 <= i < |b| ==> b[i].addrR <= c.addrL) && (forall i :: 0 <= i < |t| ==> c.addrR <= t[i].addrL)
    ensures Sorted(b + [c] + t)
  {
    SortedConcat(b, [c], c.addrL);
    SortedConcat(b + [c], t, c.addrR);
  }

  lemma AddedSorted(rs: seq<Range>, k: nat, addr: nat, size: nat, permission: bv32, r: nat, n: nat)
    requires Sorted(rs) && k == AfterLeft(rs, addr) && n <= |rs| - k
    requires Current(rs, k, addr, size, permission).addrR <= r && Stops(rs[k..], r, n, permission)
    ensures Sorted(Added(rs, k, addr, size, permission, r, n))
  {
    BeforeSorted(rs, k, addr, size, permission);
    CurrentShape(rs, k, addr, size, permission);
    SuffixSorted(rs, k, addr);
    AddedPieces(Before(rs, k, addr, permission), Current(rs, k, addr, size, permission), rs[k..], permission, r, n);
  }

  lemma AddedPieces(b: seq<Range>, c: Range, suf: seq<Range>, permission: bv32, r: nat, n: nat)
    requires Sorted(b) && Sorted(suf) && c.addrL <= c.addrR <= r && Stops(suf, r, n, permission)
    requires forall i :: 0 <= i < |b| ==> b[i].addrR <= c.addrL
    ensures Sorted(b + [c.(addrR := r)] + RightPart(suf, n, r))
  {
    RightSorted(suf, r, n, permission);
    PiecesSorted(b, c.(addrR := r), RightPart(suf, n, r));
  }

  /** Past everything the current range held at first, what it swallowed had its permission. */
  lemma SwallowedMaps(suf: seq<Range>, r0: nat, r: nat, n: nat, permission: bv32, a: nat, p: bv32)
    requires Sorted(suf) && Swallowed(suf, r0, r, n, permission) && r0 <= a
    ensures (a < r && p == permission) || (Maps(suf[n..], a, p) && r <= a) <==> Maps(suf, a, p)
  {
    MapsSplit(suf, n, a, p);
    if a < r {
      MapsSplit(suf, n, a, permission);
      if Maps(suf, a, p) { MapsIsFunctional(suf, a, p, permission); }
    }
  }

  /** The range before the insertion point reaches `a`: nothing after it does. */
  lemma PrevHolds(rs: seq<Range>, k: nat, addr: nat, size: nat, permission: bv32, a: nat, p: bv32)
    requires Sorted(rs) && k == AfterLeft(rs, addr) && k > 0 && rs[k - 1].Has(a) && addr + size <= a
    ensures forall q, j :: 0 <= j <= |rs| - k ==> !Maps(rs[k..][..j], a, q) && !Maps(rs[k..][j..], a, q)
    ensures Maps(rs, a, p) <==> p == rs[k - 1].permission
    ensures Dropped(rs, addr, size, permission, a) <==> rs[k - 1].permission != permission
  {
  }

  lemma PrevElsewhere(rs: seq<Range>, k: nat, addr: nat, size: nat, permission: bv32, a: nat, p: bv32)
    requires Sorted(rs) && k == AfterLeft(rs, addr) && addr + size <= a && (k > 0 ==> rs[k - 1].addrR <= a)
    ensures !Maps(rs[..k], a, p) && !Dropped(rs, addr, size, permission, a)
  {
  }

  /** Beyond the added bytes. */
  lemma AddedBeyond(rs: seq<Range>, k: nat, addr: nat, size: nat, permission: bv32, r: nat, n: nat, a: nat, p: bv32)
    requires AddState(rs, k, addr, size, permission, r, n) && addr + size <= a
    ensures (a < r && p == permission) || (Maps(rs[k..][n..], a, p) && r <= a)
            <==> Maps(rs, a, p) && !Dropped(rs, addr, size, permission, a)
  {
    var suf, c := rs[k..], Current(rs, k, addr, size, permission);
    SuffixSorted(rs, k, addr);
    if k > 0 && a < rs[k - 1].addrR {
      PrevHolds(rs, k, addr, size, permission, a, p);
      assert !Maps(suf[..n], a, permission) && !Maps(suf[n..], a, p);
    } else {
      PrevElsewhere(rs, k, addr, size, permission, a, p);
      MapsSplit(rs, k, a, p);
      SwallowedMaps(suf, c.addrR, r, n, permission, a, p);
    }
  }

  /** Before and inside the added bytes. */
  lemma AddedUpTo(rs: seq<Range>, k: nat, addr: nat, size: nat, permission: bv32, r: nat, a: nat, p: bv32)
    requires Sorted(rs) && k == AfterLeft(rs, addr) && Current(rs, k, addr, size, permission).addrR <= r && a < addr + size
    ensures Maps(Before(rs, k, addr, permission), a, p)
            || (Current(rs, k, addr, size, permission).(addrR := r).Has(a) && p == permission)
            <==> if addr <= a then p == permission else Maps(rs, a, p)
    ensures a < addr ==> !Dropped(rs, addr, size, permission, a)
  {
    BeforeMaps(rs, k, addr, size, permission, a, p);
    CurrentShape(rs, k, addr, size, permission);
    if a < addr {
      NothingAfter(rs, k, addr, a, p);
      MapsSplit(rs, k, a, p);
    }
  }

  lemma NothingAfter(rs: seq<Range>, k: nat, addr: nat, a: nat, p: bv32)
    requires Sorted(rs) && k == AfterLeft(rs, addr) && a <= addr
    ensures !Maps(rs[k..], a, p)
  {
    SuffixSorted(rs, k, addr);
  }

  lemma CurrentShape(rs: seq<Range>, k: nat, addr: nat, size: nat, permission: bv32)
    requires k == AfterLeft(rs, addr)
    ensures var c := Current(rs, k, addr, size, permission);
            c.addrL <= addr && addr + size <= c.addrR && c.permission == permission
  {
  }

  /** Add is an override that loses the tail of a differently labelled range spanning the added one. */
  lemma AddedMaps(rs: seq<Range>, k: nat, addr: nat, size: nat, permission: bv32, r: nat, n: nat, a: nat, p: bv32)
    requires AddState(rs, k, addr, size, permission, r, n)
    ensures Maps(Added(rs, k, addr, size, permission, r, n), a, p)
            <==> if addr <= a < addr + size then p == permission
                 else Maps(rs, a, p) && !Dropped(rs, addr, size, permission, a)
  {
    CurrentShape(rs, k, addr, size, permission);
    PiecesMap(Before(rs, k, addr, permission), Current(rs, k, addr, size, permission).(addrR := r),
              RightPart(rs[k..], n, r), a, p);
    SuffixSorted(rs, k, addr);
    RightMaps(rs[k..], r, n, a, p);
    if addr + size <= a {
      BeforeMaps(rs, k, addr, size, permission, a, p);
      AddedBeyond(rs, k, addr, size, permission, r, n, a, p);
    } else {
      AddedUpTo(rs, k, addr, size, permission, r, a, p);
    }
  }

  lemma PiecesMap(b: seq<Range>, c: Range, t: seq<Range>, a: nat, p: bv32)
    ensures Maps(b + [c] + t, a, p) <==> Maps(b, a, p) || (c.Has(a) && c.permission == p) || Maps(t, a, p)
  {
    MapsConcat(b + [c], t, a, p);
    MapsConcat(b, [c], a, p);
    MapsOne(c, a, p);
  }

  /** The three ways in which Add places its range, as edits of the vector. */
  lemma PlacePieces(rs: seq<Range>, k: nat, addr: nat, size: nat, permission: bv32)
    requires k <= |rs|
    ensures var b, c, one := Before(rs, k, addr, permission), Current(rs, k, addr, size, permission),
                             Range(addr, addr + size, permission);
            if !Meets(rs, k, addr) then b + [c] + rs[k..] == rs[..k] + [one] + rs[k..] && |b| == k
            else if rs[k - 1].permission == permission then
              |b| == k - 1 && b + [c] + rs[k..] == rs[k - 1 := rs[k - 1].(addrR := Max(rs[k - 1].addrR, addr + size))]
            else
              var cut := rs[k - 1 := rs[k - 1].(addrR := addr)];
              |b| == k && b + [c] + rs[k..] == cut[..k] + [one] + cut[k..]
  {
    if Meets(rs, k, addr) && rs[k - 1].permission != permission {
      var cut := rs[k - 1 := rs[k - 1].(addrR := addr)];
      assert cut[..k] == rs[..k - 1] + [rs[k - 1].(addrR := addr)] && cut[k..] == rs[k..];
    }
  }

  // ------------------------------------------------------------------ SetPermission

  function Relabelled(suf: seq<Range>, m: nat, permission: bv32): (r: seq<Range>)
    requires m <= |suf|
    ensures |r| == m && forall j :: 0 <= j < m ==> r[j] == suf[j].(permission := permission)
  {
    seq(m, j requires 0 <= j < m => suf[j].(permission := permission))
  }

  /** The part of the range at m that gets the new permission when the request ends inside it. */
  function CutPart(suf: seq<Range>, m: nat, addrR: nat, permission: bv32): seq<Range>
    requires m <= |suf|
  {
    if m < |suf| && suf[m].addrL < addrR then [Range(suf[m].addrL, addrR, permission)] else []
  }

  function SetFrom(suf: seq<Range>, m: nat, addrR: nat, permission: bv32): seq<Range>
    requires m <= |suf|
  {
    Relabelled(suf, m, permission) + CutPart(suf, m, addrR, permission) + RightPart(suf, m, addrR)
  }

  /** The first m ranges end inside the request, the one at m, if any, does not. */
  ghost predicate EndsAt(suf: seq<Range>, m: nat, addrR: nat) {
    && m <= |suf|
    && (forall j :: 0 <= j < m ==> suf[j].addrR <= addrR)
    && (m < |suf| ==> addrR <= suf[m].addrL || addrR < suf[m].addrR)
  }

  lemma SetFromSorted(suf: seq<Range>, m: nat, addrR: nat, permission: bv32, lo: nat)
    requires Sorted(suf) && EndsAt(suf, m, addrR) && forall i :: 0 <= i < |suf| ==> lo <= suf[i].addrL
    ensures var r := SetFrom(suf, m, addrR, permission);
            Sorted(r) && forall i :: 0 <= i < |r| ==> lo <= r[i].addrL
  {
    var x, y, z := Relabelled(suf, m, permission), CutPart(suf, m, addrR, permission), RightPart(suf, m, addrR);
    if m < |suf| {
      SortedConcat(x, y, suf[m].addrL);
      SortedConcat(x + y, z, if suf[m].addrL < addrR then addrR else suf[m].addrL);
    } else {
      assert x + y + z == x;
    }
  }

  lemma RelabelledMaps(suf: seq<Range>, m: nat, permission: bv32, a: nat, p: bv32)
    requires m <= |suf|
    ensures Maps(Relabelled(suf, m, permission), a, p) <==> Mapped(suf[..m], a) && p == permission
  {
    var r := Relabelled(suf, m, permission);
    if Maps(r, a, p) {
      var j :| 0 <= j < |r| && r[j].Has(a) && r[j].permission == p;
      assert suf[..m][j].Has(a);
    }
    if Mapped(suf[..m], a) && p == permission {
      var j :| 0 <= j < m && suf[..m][j].Has(a);
      assert r[j].Has(a);
    }
  }

  lemma MappedSplit(rs: seq<Range>, k: nat, a: nat)
    requires k <= |rs|
    ensures Mapped(rs, a) <==> Mapped(rs[..k], a) || Mapped(rs[k..], a)
  {
    if Mapped(rs, a) {
      var i :| 0 <= i < |rs| && rs[i].Has(a);
      assert if i < k then rs[..k][i].Has(a) else rs[k..][i - k].Has(a);
    }
    if Mapped(rs[..k], a) {
      var i :| 0 <= i < k && rs[..k][i].Has(a);
      assert rs[i].Has(a);
    }
    if Mapped(rs[k..], a) {
      var i :| 0 <= i < |rs| - k && rs[k..][i].Has(a);
      assert rs[k + i].Has(a);
    }
  }

  lemma MappedIsMaps(rs: seq<Range>, a: nat)
    ensures Mapped(rs, a) <==> exists p :: Maps(rs, a, p)
  {
    if Mapped(rs, a) {
      var i :| 0 <= i < |rs| && rs[i].Has(a);
      assert Maps(rs, a, rs[i].permission);
    }
  }

  /** Up to the end of the request every mapped address gets the permission; later ones keep theirs. */
  lemma SetFromMaps(suf: seq<Range>, m: nat, addrR: nat, permission: bv32, a: nat, p: bv32)
    requires Sorted(suf) && EndsAt(suf, m, addrR)
    ensures Maps(SetFrom(suf, m, addrR, permission), a, p)
            <==> if a < addrR then Mapped(suf, a) && p == permission else Maps(suf, a, p)
  {
    var x, y, z := Relabelled(suf, m, permission), CutPart(suf, m, addrR, permission), RightPart(suf, m, addrR);
    MapsConcat(x + y, z, a, p);
    MapsConcat(x, y, a, p);
    RelabelledMaps(suf, m, permission, a, p);
    RightMaps(suf, addrR, m, a, p);
    MapsSplit(suf, m, a, p);
    MappedSplit(suf, m, a);
    if m < |suf| { MapsOne(Range(suf[m].addrL, addrR, permission), a, p); }
    FromM(suf, m, addrR, a);
  }

  lemma FromM(suf: seq<Range>, m: nat, addrR: nat, a: nat)
    requires Sorted(suf) && EndsAt(suf, m, addrR)
    ensures a < addrR ==> (Mapped(suf[m..], a) <==> m < |suf| && suf[m].Has(a))
    ensures addrR <= a ==> !Mapped(suf[..m], a) && forall p :: !Maps(suf[..m], a, p)
    ensures m < |suf| && addrR <= suf[m].addrL && a < addrR ==> !suf[m].Has(a)
  {
    if m < |suf| && suf[m].Has(a) { assert suf[m..][0].Has(a); }
  }

  /** The vector from the first range the request touches, after that range has been split at `addr`. */
  function SplitAt(rs: seq<Range>, k: nat, addr: nat, permission: bv32): (seq<Range>, seq<Range>)
    requires k <= |rs|
  {
    if k < |rs| && addr > rs[k].addrL && permission != rs[k].permission
    then ([rs[k].(addrR := addr)], [rs[k].(addrL := addr)] + rs[k + 1..])
    else ([], rs[k..])
  }

  ghost predicate Below(b: seq<Range>, suf: seq<Range>) {
    forall i, j :: 0 <= i < |b| && 0 <= j < |suf| ==> b[i].addrR <= suf[j].addrL
  }

  lemma SplitSorted(rs: seq<Range>, k: nat, addr: nat, permission: bv32)
    requires Sorted(rs) && k == AfterRight(rs, addr)
    ensures var (l, suf) := SplitAt(rs, k, addr, permission);
            Sorted(rs[..k] + l) && Sorted(suf) && Below(rs[..k] + l, suf)
  {
    var (l, suf) := SplitAt(rs, k, addr, permission);
    if l == [] {
      assert rs[..k] + l == rs[..k];
    } else {
      CutSorted(rs, k, addr);
    }
  }

  lemma CutSorted(rs: seq<Range>, k: nat, addr: nat)
    requires Sorted(rs) && k < |rs| && rs[k].addrL < addr < rs[k].addrR
    ensures var b, suf := rs[..k] + [rs[k].(addrR := addr)], [rs[k].(addrL := addr)] + rs[k + 1..];
            Sorted(b) && Sorted(suf) && Below(b, suf)
  {
    SortedConcat(rs[..k], [rs[k].(addrR := addr)], rs[k].addrL);
    SortedConcat([rs[k].(addrL := addr)], rs[k + 1..], rs[k].addrR);
  }

  lemma SplitMaps(rs: seq<Range>, k: nat, addr: nat, permission: bv32, a: nat, p: bv32)
    requires Sorted(rs) && k == AfterRight(rs, addr)
    ensures var (l, suf) := SplitAt(rs, k, addr, permission);
            && (Maps(rs, a, p) <==> Maps(rs[..k] + l, a, p) || Maps(suf, a, p))
            && (Maps(rs[..k] + l, a, p) ==> a < addr)
            && (Mapped(suf, a) && a < addr ==> Maps(suf, a, permission) && k < |rs| && rs[k].permission == permission)
  {
    MapsSplit(rs, k, a, p);
    if k < |rs| && addr > rs[k].addrL && permission != rs[k].permission {
      CutMaps(rs, k, addr, a, p);
    } else {
      assert rs[..k] + [] == rs[..k];
      if Mapped(rs[k..], a) && a < addr { UncutMaps(rs, k, addr, permission, a); }
    }
  }

  lemma CutMaps(rs: seq<Range>, k: nat, addr: nat, a: nat, p: bv32)
    requires Sorted(rs) && k < |rs| && rs[k].addrL < addr < rs[k].addrR && forall i :: 0 <= i < k ==> rs[i].addrR <= addr
    ensures var b, suf := rs[..k] + [rs[k].(addrR := addr)], [rs[k].(addrL := addr)] + rs[k + 1..];
            && (Maps(rs, a, p) <==> Maps(b, a, p) || Maps(suf, a, p))
            && (Maps(b, a, p) ==> a < addr)
            && (Mapped(suf, a) ==> addr <= a)
  {
    MapsSplit(rs, k, a, p);
    MapsConcat(rs[..k], [rs[k].(addrR := addr)], a, p);
    MapsOne(rs[k].(addrR := addr), a, p);
    MapsOne(rs[k].(addrL := addr), a, p);
    MapsConcat([rs[k].(addrL := addr)], rs[k + 1..], a, p);
  }

  lemma UncutMaps(rs: seq<Range>, k: nat, addr: nat, permission: bv32, a: nat)
    requires Sorted(rs) && k < |rs| && Mapped(rs[k..], a) && a < addr < rs[k].addrR
    requires addr <= rs[k].addrL || rs[k].permission == permission
    ensures Maps(rs[k..], a, permission) && rs[k].permission == permission
  {
    var i :| 0 <= i < |rs| - k && rs[k..][i].Has(a);
    assert rs[k..][i] == rs[k + i];
    assert i == 0;
  }

  /** The whole of SetPermission on one address. */
  lemma SetMaps(rs: seq<Range>, k: nat, addr: nat, addrR: nat, permission: bv32, m: nat, a: nat, p: bv32)
    requires Sorted(rs) && k == AfterRight(rs, addr) && addr <= addrR
    requires EndsAt(SplitAt(rs, k, addr, permission).1, m, addrR)
    ensures var (l, suf) := SplitAt(rs, k, addr, permission);
            Maps(rs[..k] + l + SetFrom(suf, m, addrR, permission), a, p)
            <==> if addr <= a < addrR then Mapped(rs, a) && p == permission else Maps(rs, a, p)
  {
    var (l, suf) := SplitAt(rs, k, addr, permission);
    SplitSorted(rs, k, addr, permission);
    SplitMaps(rs, k, addr, permission, a, p);
    SetFromMaps(suf, m, addrR, permission, a, p);
    MapsConcat(rs[..k] + l, SetFrom(suf, m, addrR, permission), a, p);
    MappedIsMaps(rs, a);
    MappedIsMaps(suf, a);
    if a < addr && Mapped(suf, a) {
      SplitMaps(rs, k, addr, permission, a, permission);
      if Maps(suf, a, p) { MapsIsFunctional(suf, a, p, permission); }
    }
    if addr <= a < addrR {
      if Mapped(rs, a) {
        var q :| Maps(rs, a, q);
        SplitMaps(rs, k, addr, permission, a, q);
      }
      if Mapped(suf, a) {
        var q :| Maps(suf, a, q);
        SplitMaps(rs, k, addr, permission, a, q);
      }
    }
  }

  lemma SetSorted(b: seq<Range>, suf: seq<Range>, addrR: nat, permission: bv32, m: nat)
    requires Sorted(b) && Sorted(suf) && EndsAt(suf, m, addrR)
    requires Below(b, suf)
    ensures Sorted(b + SetFrom(suf, m, addrR, permission))
  {
    if suf == [] {
      assert SetFrom(suf, m, addrR, permission) == [];
      assert b + [] == b;
    } else {
      SetFromSorted(suf, m, addrR, permission, suf[0].addrL);
      SortedConcat(b, SetFrom(suf, m, addrR, permission), suf[0].addrL);
    }
  }

  /** One more range relabelled in place. */
  lemma RelabelStep(b: seq<Range>, suf: seq<Range>, m: nat, permission: bv32)
    requires m < |suf|
    ensures var v := b + Relabelled(suf, m, permission) + suf[m..];
            && |v| == |b| + |suf| && v[|b| + m] == suf[m]
            && v[|b| + m := suf[m].(permission := permission)] == b + Relabelled(suf, m + 1, permission) + suf[m + 1..]
  {
  }

  lemma InsertThenSet<T>(x: seq<T>, y: seq<T>, u: T, v: T)
    requires |y| > 0
    ensures var w := (x + y)[..|x|] + [u] + (x + y)[|x|..];
            |w| == |x| + 1 + |y| && w[|x| + 1] == y[0] && w[|x| + 1 := v] == x + [u] + ([v] + y[1..])
  {
    assert (x + y)[..|x|] == x && (x + y)[|x|..] == y;
  }

  /** The last range cut in two. */
  lemma RelabelEnd(b: seq<Range>, suf: seq<Range>, m: nat, addrR: nat, permission: bv32)
    requires m < |suf| && suf[m].addrL < addrR
    ensures var v := b + Relabelled(suf, m, permission) + suf[m..];
            var it := |b| + m;
            var w := v[..it] + [Range(suf[m].addrL, addrR, permission)] + v[it..];
            && |w| == |b| + |suf| + 1 && w[it + 1] == suf[m]
            && w[it + 1 := suf[m].(addrL := addrR)] == b + SetFrom(suf, m, addrR, permission)
  {
    var x, one := Relabelled(suf, m, permission), Range(suf[m].addrL, addrR, permission);
    InsertThenSet(b + x, suf[m..], one, suf[m].(addrL := addrR));
    var z := [suf[m].(addrL := addrR)] + suf[m + 1..];
    assert suf[m..][1..] == suf[m + 1..];
    assert b + x + [one] + z == b + (x + [one] + z);
  }

  /** `r` is `rs` with exactly the mapped addresses of [addr, addrR) relabelled. */
  ghost predicate Relabels(rs: seq<Range>, r: seq<Range>, addr: nat, addrR: nat, permission: bv32) {
    forall a: nat, p :: Maps(r, a, p) <==>
      if addr <= a < addrR then Mapped(rs, a) && p == permission else Maps(rs, a, p)
  }

  lemma SetEverywhere(rs: seq<Range>, addr: nat, addrR: nat, permission: bv32, m: nat)
    requires Sorted(rs) && addr <= addrR
    requires EndsAt(SplitAt(rs, AfterRight(rs, addr), addr, permission).1, m, addrR)
    ensures var k := AfterRight(rs, addr);
            var (l, suf) := SplitAt(rs, k, addr, permission);
            var r := rs[..k] + l + SetFrom(suf, m, addrR, permission);
            Sorted(r) && Relabels(rs, r, addr, addrR, permission)
  {
    var k := AfterRight(rs, addr);
    var (l, suf) := SplitAt(rs, k, addr, permission);
    SplitSorted(rs, k, addr, permission);
    SetSorted(rs[..k] + l, suf, addrR, permission, m);
    var r := rs[..k] + l + SetFrom(suf, m, addrR, permission);
    forall a: nat, p
      ensures Maps(r, a, p) <==> if addr <= a < addrR then Mapped(rs, a) && p == permission else Maps(rs, a, p)
    {
      SetMaps(rs, k, addr, addrR, permission, m, a, p);
    }
  }

  // ------------------------------------------------------------------ Check

  /** Computed without adding addr and size, so that it cannot wrap. */
  function OverlapSize(r: Range, addr: nat, size: nat): (n: nat)
    ensures n == |Interval(r.addrL, r.addrR) * Interval(addr, addr + size)|
  {
    assert Interval(r.addrL, r.addrR) * Interval(addr, addr + size)
        == Interval(Max(r.addrL, addr), Min(r.addrR, addr + size));
    if addr >= r.addrR || r.addrL >= r.addrR then 0
    else if addr < r.addrL then
      var prefix := r.addrL - addr;
      if size > prefix then Min(size - prefix, r.addrR - r.addrL) else 0
    else Min(size, r.addrR - addr)
  }

  /** The address lies in a range that permits the access. */
  ghost predicate Grants(rs: seq<Range>, a: nat, access: AccessType) {
    exists i :: 0 <= i < |rs| && rs[i].Has(a) && HasPermission(rs[i].permission, access)
  }

  ghost function Granted(rs: seq<Range>, addr: nat, size: nat, access: AccessType): set<nat> {
    set a | a in Interval(addr, addr + size) && Grants(rs, a, access)
  }

  /** The bytes of the request the access may not touch. */
  ghost function Lacking(rs: seq<Range>, addr: nat, size: nat, access: AccessType): set<nat> {
    set a | a in Interval(addr, addr + size) && !Grants(rs, a, access)
  }

  lemma GrantsSplit(rs: seq<Range>, i: nat, a: nat, access: AccessType)
    requires i < |rs|
    ensures Grants(rs[..i + 1], a, access) <==>
            Grants(rs[..i], a, access) || (rs[i].Has(a) && HasPermission(rs[i].permission, access))
  {
    if Grants(rs[..i], a, access) {
      var j :| 0 <= j < i && rs[..i][j].Has(a) && HasPermission(rs[..i][j].permission, access);
      assert rs[..i + 1][j] == rs[j];
    }
    if Grants(rs[..i + 1], a, access) {
      var j :| 0 <= j < i + 1 && rs[..i + 1][j].Has(a) && HasPermission(rs[..i + 1][j].permission, access);
      assert j < i ==> rs[..i][j] == rs[j];
    }
    if rs[i].Has(a) && HasPermission(rs[i].permission, access) { assert rs[..i + 1][i] == rs[i]; }
  }

  lemma GrantedDisjoint(rs: seq<Range>, i: nat, addr: nat, size: nat, access: AccessType)
    requires Sorted(rs) && i < |rs|
    ensures Granted(rs[..i], addr, size, access) !! Interval(rs[i].addrL, rs[i].addrR)
  {
    forall a | a in Granted(rs[..i], addr, size, access) ensures a < rs[i].addrL {
      var j :| 0 <= j < i && rs[..i][j].Has(a) && HasPermission(rs[..i][j].permission, access);
      assert rs[j].addrR <= rs[i].addrL;
    }
  }

  lemma GrantedGrows(rs: seq<Range>, i: nat, addr: nat, size: nat, access: AccessType)
    requires i < |rs|
    ensures var g := Granted(rs[..i], addr, size, access);
            Granted(rs[..i + 1], addr, size, access)
            == if HasPermission(rs[i].permission, access)
               then g + Interval(rs[i].addrL, rs[i].addrR) * Interval(addr, addr + size) else g
  {
    forall a | a in Interval(addr, addr + size)
      ensures Grants(rs[..i + 1], a, access) <==>
              Grants(rs[..i], a, access) || (a in Interval(rs[i].addrL, rs[i].addrR) && HasPermission(rs[i].permission, access))
    {
      GrantsSplit(rs, i, a, access);
    }
  }

  lemma DisjointSum(g: set<nat>, o: set<nat>)
    requires g !! o
    ensures |g + o| == |g| + |o|
  {
  }

  /** One more range: its overlap is added, because it is disjoint from the earlier ones. */
  lemma GrantedStep(rs: seq<Range>, i: nat, addr: nat, size: nat, access: AccessType)
    requires Sorted(rs) && i < |rs|
    ensures |Granted(rs[..i + 1], addr, size, access)| == |Granted(rs[..i], addr, size, access)|
            + (if HasPermission(rs[i].permission, access) then OverlapSize(rs[i], addr, size) else 0)
  {
    GrantedGrows(rs, i, addr, size, access);
    GrantedDisjoint(rs, i, addr, size, access);
    if HasPermission(rs[i].permission, access) {
      DisjointSum(Granted(rs[..i], addr, size, access), Interval(rs[i].addrL, rs[i].addrR) * Interval(addr, addr + size));
    }
  }

  /** The ranges the loop skips at either end do not meet the request. */
  lemma GrantedEnds(rs: seq<Range>, k: nat, n: nat, addr: nat, size: nat, access: AccessType)
    requires Sorted(rs) && k <= n <= |rs| && (forall j :: 0 <= j < k ==> rs[j].addrR <= addr)
    requires n < |rs| ==> addr + size <= rs[n].addrL
    ensures Granted(rs[..k], addr, size, access) == {}
    ensures Granted(rs[..n], addr, size, access) == Granted(rs, addr, size, access)
  {
    GrantedBefore(rs, k, addr, size, access);
    forall a | a in Interval(addr, addr + size) ensures Grants(rs[..n], a, access) <==> Grants(rs, a, access) {
      GrantsBelow(rs, n, a, access);
    }
  }

  lemma GrantsBelow(rs: seq<Range>, n: nat, a: nat, access: AccessType)
    requires Sorted(rs) && n <= |rs| && (n < |rs| ==> a < rs[n].addrL)
    ensures Grants(rs[..n], a, access) <==> Grants(rs, a, access)
  {
    if Grants(rs, a, access) {
      var j :| 0 <= j < |rs| && rs[j].Has(a) && HasPermission(rs[j].permission, access);
      assert j < n;
      assert rs[..n][j] == rs[j];
    }
    if Grants(rs[..n], a, access) {
      var j :| 0 <= j < n && rs[..n][j].Has(a) && HasPermission(rs[..n][j].permission, access);
      assert rs[j].Has(a);
    }
  }

  lemma LackingIsRest(rs: seq<Range>, addr: nat, size: nat, access: AccessType)
    ensures |Granted(rs, addr, size, access)| + |Lacking(rs, addr, size, access)| == size
  {
    assert Granted(rs, addr, size, access) + Lacking(rs, addr, size, access) == Interval(addr, addr + size);
    assert Granted(rs, addr, size, access) !! Lacking(rs, addr, size, access);
  }

  ghost predicate Deducted(rs: seq<Range>, i: nat, addr: nat, size: nat, access: AccessType, badBytes: nat) {
    i <= |rs| && badBytes + |Granted(rs[..i], addr, size, access)| == size
  }

  /** What one range takes off the running count, which never goes below zero. */
  method Deduct(rs: seq<Range>, i: nat, addr: nat, size: nat, access: AccessType, badBytes: nat) returns (left: nat)
    requires Sorted(rs) && i < |rs| && Deducted(rs, i, addr, size, access, badBytes)
    ensures Deducted(rs, i + 1, addr, size, access, left)
  {
    GrantedStep(rs, i, addr, size, access);
    LackingIsRest(rs[..i + 1], addr, size, access);
    left := badBytes;
    if HasPermission(rs[i].permission, access) { left := left - OverlapSize(rs[i], addr, size); }
  }

  lemma DeductedAll(rs: seq<Range>, k: nat, n: nat, addr: nat, size: nat, access: AccessType, badBytes: nat)
    requires Sorted(rs) && k <= n <= |rs| && (forall j :: 0 <= j < k ==> rs[j].addrR <= addr)
    requires n < |rs| ==> addr + size <= rs[n].addrL
    requires Deducted(rs, n, addr, size, access, badBytes)
    ensures badBytes == |Lacking(rs, addr, size, access)|
  {
    GrantedEnds(rs, k, n, addr, size, access);
    LackingIsRest(rs, addr, size, access);
  }

  /** The loop of Check. */
  method CountLacking(rs: seq<Range>, addr: nat, size: nat, access: AccessType) returns (badBytes: nat)
    requires Sorted(rs)
    ensures badBytes == |Lacking(rs, addr, size, access)|
  {
    var k := AfterRight(rs, addr);
    var i := k;
    badBytes := size;
    GrantedBefore(rs, k, addr, size, access);
    while i < |rs|
      invariant k <= i <= |rs|
      invariant Deducted(rs, i, addr, size, access, badBytes)
    {
      if rs[i].addrL >= addr && rs[i].addrL - addr >= size { break; }
      badBytes := Deduct(rs, i, addr, size, access, badBytes);
      i := i + 1;
    }
    DeductedAll(rs, k, i, addr, size, access, badBytes);
  }

  // ------------------------------------------------------------------ the class

  /** The vector behind a range that swallows no more: it keeps its right neighbours, or the first one loses its start. */
  lemma KeepTail(b: seq<Range>, x: Range, suf: seq<Range>, n: nat, r: nat)
    requires n <= |suf| && (n < |suf| ==> r < suf[n].addrL)
    ensures var v, k := b + [x] + suf, |b| + 1; v[..k] + v[k + n..] == b + [x] + RightPart(suf, n, r)
  {
    var v, k := b + [x] + suf, |b| + 1;
    assert v[..k] == b + [x] && v[k + n..] == suf[n..] == RightPart(suf, n, r);
  }

  lemma CutTail(b: seq<Range>, x: Range, suf: seq<Range>, n: nat, r: nat)
    requires n < |suf| && suf[n].addrL <= r < suf[n].addrR
    ensures var v, k := (b + [x] + suf)[|b| + 1 + n := suf[n].(addrL := r)], |b| + 1;
            v[..k] + v[k + n..] == b + [x] + RightPart(suf, n, r)
  {
    var v, k := (b + [x] + suf)[|b| + 1 + n := suf[n].(addrL := r)], |b| + 1;
    assert v[..k] == b + [x];
    assert v[k + n..] == [suf[n].(addrL := r)] + suf[n + 1..];
    assert RightPart(suf, n, r) == v[k + n..];
  }

  method SwallowRight(ranges: seq<Range>, it: nat, permission: bv32, ghost b: seq<Range>, ghost c: Range, ghost suf: seq<Range>)
    returns (v: seq<Range>, ghost r: nat, ghost n: nat)
    requires ranges == b + [c] + suf && |b| == it
    ensures Swallowed(suf, c.addrR, r, n, permission) && Stops(suf, r, n, permission)
    ensures v == b + [c.(addrR := r)] + RightPart(suf, n, r)
  {
    v := ranges;
    var next := it + 1;
    r, n := c.addrR, 0;
    while next < |v|
      invariant n <= |suf| && next == it + 1 + n
      invariant v == b + [c.(addrR := r)] + suf
      invariant Swallowed(suf, c.addrR, r, n, permission)
    {
      assert v[next] == suf[n] && v[it].addrR == r;
      if v[next].addrL > v[it].addrR { break; }
      if v[next].addrR > v[it].addrR && v[next].permission != permission {
        CutTail(b, c.(addrR := r), suf, n, r);
        v := v[next := v[next].(addrL := v[it].addrR)];
        v := v[..it + 1] + v[next..];
        return;
      }
      SwallowNext(suf, c.addrR, r, n, permission);
      r, n := Max(r, suf[n].addrR), n + 1;
      v := v[it := v[it].(addrR := Max(v[it].addrR, v[next].addrR))];
      next := next + 1;
    }
    KeepTail(b, c.(addrR := r), suf, n, r);
    v := v[..it + 1] + v[next..];
  }

  class DiscreteBounds {
    var ranges: seq<Range>

    ghost predicate Valid()
      reads this
    {
      Sorted(ranges)
    }

    constructor ()
      ensures ranges == []
    {
      ranges := [];
    }

    /** The second half of Add: the range at `it` swallows its right neighbours, or cuts into the first it cannot. */
    method Swallow(it: nat, permission: bv32, ghost b: seq<Range>, ghost c: Range, ghost suf: seq<Range>)
      returns (ghost r: nat, ghost n: nat)
      requires ranges == b + [c] + suf && |b| == it
      modifies this
      ensures Swallowed(suf, c.addrR, r, n, permission) && Stops(suf, r, n, permission)
      ensures ranges == b + [c.(addrR := r)] + RightPart(suf, n, r)
    {
      var v;
      v, r, n := SwallowRight(ranges, it, permission, b, c, suf);
      ranges := v;
    }

    /** The first half of Add: extend the range before, or cut it and insert a new one. */
    method Place(addr: nat, size: nat, permission: bv32) returns (it: nat)
      requires Valid()
      modifies this
      ensures var k := AfterLeft(old(ranges), addr);
              && ranges == Before(old(ranges), k, addr, permission) + [Current(old(ranges), k, addr, size, permission)]
                           + old(ranges)[k..]
              && it == |Before(old(ranges), k, addr, permission)|
    {
      var k := AfterLeft(ranges, addr);
      var one := Range(addr, addr + size, permission);
      PlacePieces(ranges, k, addr, size, permission);
      if k > 0 && ranges[k - 1].addrR >= addr {
        if ranges[k - 1].permission == permission {
          it := k - 1;
          ranges := ranges[it := ranges[it].(addrR := Max(ranges[it].addrR, addr + size))];
        } else {
          ranges := ranges[k - 1 := ranges[k - 1].(addrR := addr)];
          ranges := ranges[..k] + [one] + ranges[k..];
          it := k;
        }
      } else {
        ranges := ranges[..k] + [one] + ranges[k..];
        it := k;
      }
    }

    /**
     * The added bytes get the permission, everything else keeps its own -- except that a range of another
     * permission that spans the added one loses its part beyond it.
     */
    method Add(addr: nat, size: nat, permission: bv32) returns (badBytes: nat)
      requires Valid()
      modifies this
      ensures Valid() && badBytes == Overflow(addr, size)
      ensures badBytes > 0 ==> ranges == old(ranges)
      ensures badBytes == 0 ==>
                forall a: nat, p :: Maps(ranges, a, p) <==>
                  if addr <= a < addr + size then p == permission
                  else Maps(old(ranges), a, p) && !Dropped(old(ranges), addr, size, permission, a)
    {
      badBytes := Overflow(addr, size);
      if badBytes > 0 { return; }
      ghost var was := ranges;
      ghost var k := AfterLeft(was, addr);
      ghost var b, c := Before(was, k, addr, permission), Current(was, k, addr, size, permission);
      var it := Place(addr, size, permission);
      ghost var r, n := Swallow(it, permission, b, c, was[k..]);
      AddedSorted(was, k, addr, size, permission, r, n);
      forall a: nat, p
        ensures Maps(ranges, a, p) <==>
                if addr <= a < addr + size then p == permission
                else Maps(was, a, p) && !Dropped(was, addr, size, permission, a)
      {
        AddedMaps(was, k, addr, size, permission, r, n, a, p);
      }
    }

    /** Exactly the mapped bytes of [addr, addr + size) are relabelled. */
    method SetPermission(addr: nat, size: nat, permission: bv32) returns (badBytes: nat)
      requires Valid()
      modifies this
      ensures Valid() && badBytes == Overflow(addr, size)
      ensures badBytes > 0 ==> ranges == old(ranges)
      ensures badBytes == 0 ==> Relabels(old(ranges), ranges, addr, addr + size, permission)
    {
      badBytes := Overflow(addr, size);
      if badBytes > 0 { return; }
      ghost var was := ranges;
      ghost var k := AfterRight(was, addr);
      ghost var cut := SplitAt(was, k, addr, permission);
      var it := SplitRange(addr, permission);
      ghost var m := RelabelFrom(it, addr + size, permission, was[..k] + cut.0, cut.1);
      SetEverywhere(was, addr, addr + size, permission, m);
    }

    /** Splits a range of another permission that straddles `addr`; returns where the request starts. */
    method SplitRange(addr: nat, permission: bv32) returns (it: nat)
      modifies this
      ensures var k := AfterRight(old(ranges), addr);
              var (l, suf) := SplitAt(old(ranges), k, addr, permission);
              ranges == old(ranges)[..k] + l + suf && it == |old(ranges)[..k] + l|
    {
      var k := AfterRight(ranges, addr);
      it := k;
      if k < |ranges| && addr > ranges[k].addrL && permission != ranges[k].permission {
        ranges := ranges[..k] + [ranges[k].(addrR := addr)] + ranges[k..];
        it := k + 1;
        ranges := ranges[it := ranges[it].(addrL := addr)];
      }
    }

    /** The loop of SetPermission. */
    method RelabelFrom(start: nat, addrR: nat, permission: bv32, ghost b: seq<Range>, ghost suf: seq<Range>)
      returns (ghost m: nat)
      requires ranges == b + suf && |b| == start
      modifies this
      ensures EndsAt(suf, m, addrR) && ranges == b + SetFrom(suf, m, addrR, permission)
    {
      var it := start;
      m := 0;
      while it < |ranges|
        invariant m <= |suf| && it == start + m
        invariant ranges == b + Relabelled(suf, m, permission) + suf[m..]
        invariant forall j :: 0 <= j < m ==> suf[j].addrR <= addrR
      {
        RelabelStep(b, suf, m, permission);
        if ranges[it].addrL >= addrR {
          assert SetFrom(suf, m, addrR, permission) == Relabelled(suf, m, permission) + suf[m..];
          return;
        }
        if ranges[it].addrR > addrR {
          RelabelEnd(b, suf, m, addrR, permission);
          ranges := ranges[..it] + [Range(ranges[it].addrL, addrR, permission)] + ranges[it..];
          it := it + 1;
          ranges := ranges[it := ranges[it].(addrL := addrR)];
          return;
        }
        ranges := ranges[it := ranges[it].(permission := permission)];
        it := it + 1;
        m := m + 1;
      }
      assert SetFrom(suf, m, addrR, permission) == Relabelled(suf, m, permission) + suf[m..];
    }

    /** Exactly the bytes [addr, addr + size) leave the map. */
    method Remove(addr: nat, size: nat) returns (badBytes: nat)
      requires Valid()
      modifies this
      ensures Valid() && badBytes == Overflow(addr, size)
      ensures badBytes > 0 ==> ranges == old(ranges)
      ensures badBytes == 0 ==> Removes(old(ranges), ranges, addr, addr + size)
    {
      badBytes := Overflow(addr, size);
      if badBytes > 0 { return; }
      ghost var was := ranges;
      ghost var k := AfterRight(was, addr);
      var it := KeepLeft(addr);
      ghost var n := EraseFrom(it, addr + size, was[..k] + LeftPart(was, k, addr), was, k);
      ErasedAll(was, addr, addr + size, k, n);
      RemovesSorted(was, addr, addr + size, k, n, ranges);
    }

    /** Saves the part before `addr` of a range that straddles it; returns where the request starts. */
    method KeepLeft(addr: nat) returns (it: nat)
      modifies this
      ensures var k := AfterRight(old(ranges), addr);
              var l := LeftPart(old(ranges), k, addr);
              ranges == old(ranges)[..k] + l + old(ranges)[k..] && it == |old(ranges)[..k] + l|
    {
      var k := AfterRight(ranges, addr);
      it := k;
      if k < |ranges| && addr > ranges[k].addrL {
        ranges := ranges[..k] + [ranges[k].(addrR := addr)] + ranges[k..];
        it := k + 1;
      }
    }

    /** The loop of Remove: ranges that end inside the request go, the first that does not is cut. */
    method EraseFrom(it: nat, addrR: nat, ghost b: seq<Range>, ghost was: seq<Range>, ghost k: nat) returns (ghost n: nat)
      requires k <= |was| && ranges == b + was[k..] && |b| == it
      modifies this
      ensures EndsFrom(was, k, n, addrR) && ranges == b + RightPart(was, n, addrR)
    {
      var next := it;
      n := k;
      while next < |ranges|
        invariant k <= n <= |was| && next == it + (n - k) && ranges == b + was[k..]
        invariant forall j :: k <= j < n ==> was[j].addrR <= addrR
      {
        assert ranges[next] == was[n];
        if ranges[next].addrL >= addrR { break; }
        if ranges[next].addrR > addrR {
          ranges := ranges[next := ranges[next].(addrL := addrR)];
          assert ranges[next..] == [was[n].(addrL := addrR)] + was[n + 1..];
          break;
        }
        next, n := next + 1, n + 1;
      }
      assert ranges[next..] == RightPart(was, n, addrR);
      ranges := ranges[..it] + ranges[next..];
    }

    /**
     * The number of bytes of the request that lack the permission, for any request, even one that runs
     * past the end of the address space; a request of size zero only asks whether its address is mapped.
     */
    method Check(addr: nat, size: nat, access: AccessType) returns (badBytes: nat)
      requires Valid()
      ensures size > 0 ==> badBytes == |Lacking(ranges, addr, size, access)|
      ensures size == 0 ==> badBytes == if Mapped(ranges, addr) then 0 else 1
    {
      if size == 0 {
        badBytes := CheckAddrOnly(addr);
        return;
      }
      badBytes := CountLacking(ranges, addr, size, access);
    }

    method CheckAddrOnly(addr: nat) returns (badBytes: nat)
      requires Valid()
      ensures badBytes == if Mapped(ranges, addr) then 0 else 1
    {
      var k := AfterRight(ranges, addr);
      if k == |ranges| || addr < ranges[k].addrL || addr >= ranges[k].addrR {
        badBytes := 1;
      } else {
        assert ranges[k].Has(addr);
        badBytes := 0;
      }
    }

    /**
     * Whether the request meets some range.  An empty range strictly inside the request counts too, so the
     * answer is the one about mapped addresses exactly when there is no such range or some address of the
     * request is mapped anyway.
     */
    method HasOverlap(addr: nat, size: nat) returns (r: bool)
      requires Valid()
      ensures r <==> MeetsSome(ranges, addr, size)
      ensures size > 0 && addr + size <= UINT64_MAX ==>
                ((r <==> SomeMapped(ranges, addr, size)) <==> SomeMapped(ranges, addr, size) || NoEmptyInside(ranges, addr, size))
    {
      if size == 0 || addr > UINT64_MAX - size { return false; }
      var i := 0;
      while i < |ranges|
        invariant 0 <= i <= |ranges|
        invariant forall j :: 0 <= j < i ==> ranges[j].addrR <= addr
      {
        if ranges[i].addrL >= addr + size { break; }
        if ranges[i].addrR > addr {
          if ranges[i].addrL < ranges[i].addrR {
            assert ranges[i].Has(Max(addr, ranges[i].addrL));
            assert Mapped(ranges, Max(addr, ranges[i].addrL));
          }
          return true;
        }
        i := i + 1;
      }
      r := false;
    }
  }

  /** Some range meets the request, which does not wrap. */
  ghost predicate MeetsSome(rs: seq<Range>, addr: nat, size: nat) {
    && size > 0 && addr + size <= UINT64_MAX
    && exists i :: 0 <= i < |rs| && rs[i].addrL < addr + size && addr < rs[i].addrR
  }

  ghost predicate SomeMapped(rs: seq<Range>, addr: nat, size: nat) {
    exists a :: addr <= a < addr + size && Mapped(rs, a)
  }

  ghost predicate NoEmptyInside(rs: seq<Range>, addr: nat, size: nat) {
    forall i :: 0 <= i < |rs| && rs[i].addrL == rs[i].addrR ==> !(addr < rs[i].addrL < addr + size)
  }

  lemma GrantedBefore(rs: seq<Range>, k: nat, addr: nat, size: nat, access: AccessType)
    requires k <= |rs| && forall j :: 0 <= j < k ==> rs[j].addrR <= addr
    ensures Granted(rs[..k], addr, size, access) == {}
  {
  }

  /** Adding a range in the middle of one of another permission unmaps what lies beyond it. */
  lemma TailDropped()
    ensures var one, two := [Range(0, 64, 1)], [Range(0, 16, 1), Range(16, 32, 3)];
            && AddState(one, 1, 16, 16, 3, 32, 0) && Added(one, 1, 16, 16, 3, 32, 0) == two
            && Mapped(one, 48) && Dropped(one, 16, 16, 3, 48) && !Mapped(two, 48)
  {
    var one := [Range(0, 64, 1)];
    assert one[0].Has(48);
    assert AfterLeft(one[1..], 16) == 0 && AfterLeft(one, 16) == 1;
  }

  /**
   * Empty ranges do occur: adding a range again under another permission leaves one behind, and after the
   * range is removed HasOverlap's test still succeeds although nothing is mapped.
   */
  lemma OverlapWithNothing()
    ensures var one, two := [Range(16, 32, 1)], [Range(16, 16, 1), Range(16, 32, 3)];
            var left := two[..1] + LeftPart(two, 1, 16) + RightPart(two, 2, 32);
            && AddState(one, 1, 16, 16, 3, 32, 0) && Added(one, 1, 16, 16, 3, 32, 0) == two
            && Erased(two, 16, 32, 1, 2) && left == [Range(16, 16, 1)]
            && (forall a :: !Mapped(left, a))
            && (exists i :: 0 <= i < |left| && left[i].addrL < 0 + 256 && 0 < left[i].addrR)
  {
    var one, two := [Range(16, 32, 1)], [Range(16, 16, 1), Range(16, 32, 3)];
    assert AfterLeft(one, 16) == 1;
    var left := two[..1] + LeftPart(two, 1, 16) + RightPart(two, 2, 32);
    assert left == [Range(16, 16, 1)];
    assert left[0].addrL < 0 + 256 && 0 < left[0].addrR;
  }
}
