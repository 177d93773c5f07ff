/**
 * The divergence check for __syncthreads.  Every thread counts its hits per program counter in a table of its
 * own, in the order in which it first met them; the last thread to finish aligns all tables to one order, in
 * place, and reports each thread that hit a barrier less often than some other thread did.
 */
module SyncThreads {

  const MAX_PC_NUM: nat := 64
  const WORD: nat := 0x1_0000_0000

  /** syncThreadPC and syncThreadNum. */
  datatype Head = Head(pcs: seq<nat>, nums: seq<nat>)

  function Zeros(): (z: seq<nat>)
    ensures |z| == MAX_PC_NUM && forall i :: 0 <= i < MAX_PC_NUM ==> z[i] == 0
  {
    seq(MAX_PC_NUM, _ => 0)
  }

  const BLANK: Head := Head(Zeros(), Zeros())

  function Hits(hits: seq<nat>, pc: nat): nat { multiset(hits)[pc] }

  ghost predicate Distinct<T>(s: seq<T>) { forall i, j :: 0 <= i < j < |s| ==> s[i] != s[j] }

  /** The first n entries are in use. */
  ghost predicate Used(pcs: seq<nat>, n: nat) {
    && n <= |pcs| == MAX_PC_NUM
    && (forall i :: 0 <= i < n ==> pcs[i] != 0)
    && (forall i :: n <= i < MAX_PC_NUM ==> pcs[i] == 0)
    && Distinct(pcs[..n])
  }

  /** The numbers are the hits of the pcs beside them; every other pc was not hit. */
  ghost predicate Aligned(pcs: seq<nat>, nums: seq<nat>, hits: seq<nat>) {
    && |pcs| <= |nums| == MAX_PC_NUM
    && (forall i :: 0 <= i < |pcs| ==> nums[i] == Hits(hits, pcs[i]))
    && (forall i :: |pcs| <= i < MAX_PC_NUM ==> nums[i] == 0)
    && (forall p :: p in hits ==> p in pcs)
  }

  /** The pcs in the order in which they were first hit. */
  ghost function Met(hits: seq<nat>): seq<nat> {
    if hits == [] then []
    else
      var n := |hits| - 1;
      if hits[n] in hits[..n] then Met(hits[..n]) else Met(hits[..n]) + [hits[n]]
  }

  lemma MetNext(hits: seq<nat>, pc: nat)
    ensures Met(hits + [pc]) == if pc in hits then Met(hits) else Met(hits) + [pc]
  {
    assert (hits + [pc])[..|hits|] == hits;
  }

  lemma {:induction false} MetExactly(hits: seq<nat>)
    ensures Distinct(Met(hits)) && forall p :: p in Met(hits) <==> p in hits
  {
    if hits != [] {
      var n := |hits| - 1;
      MetExactly(hits[..n]);
      assert hits == hits[..n] + [hits[n]];
    }
  }

  ghost predicate Entered(h: Head, n: nat, hits: seq<nat>) {
    && Used(h.pcs, n) && Aligned(h.pcs[..n], h.nums, hits)
    && forall i :: 0 <= i < n ==> h.pcs[i] in hits
  }

  /** A thread's table, with n entries in use, counts the hits recorded so far, in the order of the first ones. */
  ghost predicate Counts(h: Head, n: nat, hits: seq<nat>) { Entered(h, n, hits) && h.pcs[..n] == Met(hits) }

  // ------------------------------------------------------------------ counting a hit

  /**
   * UpdateSyncThreadPcNum; false when the table is full and the hit is lost.  A hit at pc zero is taken for the
   * first unused entry, whose number it spoils.
   */
  method Update(h: Head, pc: nat, ghost n: nat, ghost hits: seq<nat>) returns (ok: bool, h': Head, ghost n': nat)
    requires Counts(h, n, hits)
    ensures ok <==> pc in hits || n < MAX_PC_NUM
    ensures ok && pc != 0 ==> Counts(h', n', hits + [pc])
    ensures ok && pc == 0 ==> h' == Spoiled(h, n) && n' == n
    ensures !ok ==> h' == h && n' == n
  {
    var i: nat := 0;
    while i < MAX_PC_NUM
      invariant i <= n
      invariant pc !in h.pcs[..i]
    {
      if h.pcs[i] == 0 {
        if pc != 0 { CountedNew(h, pc, n, hits); }
        return true, Head(h.pcs[i := pc], h.nums[i := h.nums[i] + 1]), if pc == 0 then n else n + 1;
      } else if h.pcs[i] == pc {
        CountedAgain(h, pc, n, hits, i);
        return true, h.(nums := h.nums[i := h.nums[i] + 1]), n;
      }
      assert h.pcs[..i + 1] == h.pcs[..i] + [h.pcs[i]];
      i := i + 1;
    }
    return false, h, n;
  }

  function Spoiled(h: Head, n: nat): Head {
    if n < |h.nums| then h.(nums := h.nums[n := h.nums[n] + 1]) else h
  }

  /** After a hit at pc zero the table counts no sequence of hits at all. */
  lemma ZeroHitSpoils(h: Head, n: nat, hits: seq<nat>, m: nat, others: seq<nat>)
    requires Counts(h, n, hits) && n < MAX_PC_NUM
    ensures !Counts(Spoiled(h, n), m, others)
  {
    var z := Spoiled(h, n);
    assert z.pcs == h.pcs && h.pcs[n] == 0;
    assert |h.pcs[..n]| == n && h.nums[n] == 0 && z.nums[n] == 1;
    if m == n { assert |z.pcs[..m]| == n; } else if m < n { assert z.pcs[m] != 0; }
  }

  lemma CountNew(h: Head, pc: nat, n: nat, hits: seq<nat>)
    requires Entered(h, n, hits) && pc != 0 && n < MAX_PC_NUM && pc !in h.pcs[..n]
    ensures Entered(Head(h.pcs[n := pc], h.nums[n := h.nums[n] + 1]), n + 1, hits + [pc])
    ensures pc !in hits
  {
    var pcs', hits' := h.pcs[n := pc], hits + [pc];
    assert pcs'[..n + 1] == h.pcs[..n] + [pc];
    assert pc in pcs'[..n + 1];
    forall p ensures Hits(hits', p) == Hits(hits, p) + if p == pc then 1 else 0 { }
    forall p | p in hits' ensures p in pcs'[..n + 1] { }
  }

  lemma NewMet(h: Head, pc: nat, n: nat, hits: seq<nat>)
    requires Counts(h, n, hits) && n < MAX_PC_NUM && pc !in hits
    ensures h.pcs[n := pc][..n + 1] == Met(hits + [pc])
  {
    MetNext(hits, pc);
  }

  lemma CountAgain(h: Head, pc: nat, n: nat, hits: seq<nat>, i: nat)
    requires Entered(h, n, hits) && i < n && h.pcs[i] == pc
    ensures Entered(h.(nums := h.nums[i := h.nums[i] + 1]), n, hits + [pc])
    ensures pc in hits
  {
    var hits' := hits + [pc];
    assert h.pcs[..n][i] == pc;
    forall p ensures Hits(hits', p) == Hits(hits, p) + if p == pc then 1 else 0 { }
    forall k | 0 <= k < n && k != i ensures h.pcs[k] != pc {
      assert h.pcs[..n][k] == h.pcs[k];
    }
  }

  lemma CountedNew(h: Head, pc: nat, n: nat, hits: seq<nat>)
    requires Counts(h, n, hits) && pc != 0 && n < MAX_PC_NUM && pc !in h.pcs[..n]
    ensures Counts(Head(h.pcs[n := pc], h.nums[n := h.nums[n] + 1]), n + 1, hits + [pc]) && pc !in hits
  {
    CountNew(h, pc, n, hits);
    NewMet(h, pc, n, hits);
  }

  lemma CountedAgain(h: Head, pc: nat, n: nat, hits: seq<nat>, i: nat)
    requires Counts(h, n, hits) && i < n && h.pcs[i] == pc
    ensures Counts(h.(nums := h.nums[i := h.nums[i] + 1]), n, hits + [pc]) && pc in hits
  {
    CountAgain(h, pc, n, hits, i);
    MetNext(hits, pc);
  }

  // ------------------------------------------------------------------ aligning one thread

  ghost function Elements(s: seq<nat>): set<nat> { set x | x in s }

  lemma {:induction false} DistinctSize(s: seq<nat>)
    requires Distinct(s)
    ensures |Elements(s)| == |s|
  {
    if s != [] {
      var init, last := s[..|s| - 1], s[|s| - 1];
      DistinctSize(init);
      assert s == init + [last];
      assert Elements(s) == Elements(init) + {last};
    }
  }

  lemma SizeMonotone(a: set<nat>, b: set<nat>)
    requires a <= b
    ensures |a| <= |b|
  {
    assert b == a + (b - a);
  }

  lemma DistinctInside(s: seq<nat>, t: seq<nat>)
    requires Distinct(s) && Distinct(t) && forall x :: x in s ==> x in t
    ensures |s| <= |t|
  {
    DistinctSize(s);
    DistinctSize(t);
    SizeMonotone(Elements(s), Elements(t));
  }

  /** The temporary counts hold the hits of those valid pcs that are among the first k of the thread. */
  ghost predicate Gathered(valid: seq<nat>, tmp: seq<nat>, seen: seq<nat>, hits: seq<nat>) {
    && |valid| <= |tmp| == MAX_PC_NUM
    && (forall j :: 0 <= j < |valid| ==> tmp[j] == if valid[j] in seen then Hits(hits, valid[j]) else 0)
    && (forall j :: |valid| <= j < MAX_PC_NUM ==> tmp[j] == 0)
    && (forall p :: p in seen ==> p in valid)
  }

  lemma GatherKnown(valid: seq<nat>, tmp: seq<nat>, seen: seq<nat>, hits: seq<nat>, j: nat)
    requires Gathered(valid, tmp, seen, hits) && Distinct(valid) && j < |valid|
    ensures Gathered(valid, tmp[j := Hits(hits, valid[j])], seen + [valid[j]], hits)
  {
  }

  lemma GatherNew(valid: seq<nat>, tmp: seq<nat>, seen: seq<nat>, hits: seq<nat>, pc: nat)
    requires Gathered(valid, tmp, seen, hits) && Distinct(valid) && |valid| < MAX_PC_NUM && pc !in valid
    ensures Gathered(valid + [pc], tmp[|valid| := Hits(hits, pc)], seen + [pc], hits)
    ensures Distinct(valid + [pc])
  {
  }

  /** The list with the new ones among these pcs behind it, as long as there is room. */
  ghost function AddAll(valid: seq<nat>, order: seq<nat>): seq<nat> {
    if order == [] then valid
    else
      var v, pc := AddAll(valid, order[..|order| - 1]), order[|order| - 1];
      if pc in v || |v| >= MAX_PC_NUM then v else v + [pc]
  }

  lemma AddNext(valid: seq<nat>, order: seq<nat>, pc: nat)
    ensures var v := AddAll(valid, order); AddAll(valid, order + [pc]) == if pc in v || |v| >= MAX_PC_NUM then v else v + [pc]
  {
    assert (order + [pc])[..|order|] == order;
  }

  lemma {:induction false} FullStays(valid: seq<nat>, order: seq<nat>, more: seq<nat>)
    requires |AddAll(valid, order)| >= MAX_PC_NUM
    ensures AddAll(valid, order + more) == AddAll(valid, order)
  {
    if more == [] {
      assert order + more == order;
    } else {
      var n := |more| - 1;
      FullStays(valid, order, more[..n]);
      assert (order + more)[..|order + more| - 1] == order + more[..n];
    }
  }

  /** The first k pcs of a thread are listed, and the next one, if there is one, found the list full. */
  ghost predicate Cut(valid: seq<nat>, order: seq<nat>, k: nat) {
    && k <= |order| && (forall i :: 0 <= i < k ==> order[i] in valid)
    && (k < |order| ==> order[k] !in valid && |valid| == MAX_PC_NUM)
  }

  /** What a pass over one thread does to the list of valid pcs. */
  ghost predicate Extends(valid: seq<nat>, valid': seq<nat>, hits: seq<nat>) {
    && Distinct(valid') && |valid'| <= MAX_PC_NUM && valid <= valid'
    && (forall p :: p in valid' ==> p in valid || p in hits)
  }

  /** Every pc survives being cut to 32 bits. */
  ghost predicate Narrow(hits: seq<nat>) { forall p <- hits :: p < WORD }

  /** The pass has got through the first i pcs of a thread. */
  ghost predicate Through(valid: seq<nat>, valid': seq<nat>, tmp: seq<nat>, order: seq<nat>, i: nat, hits: seq<nat>) {
    && i <= |order| && Extends(valid, valid', hits) && valid' == AddAll(valid, order[..i])
    && Gathered(valid', tmp, order[..i], hits)
  }

  lemma ThroughKnown(valid: seq<nat>, valid': seq<nat>, tmp: seq<nat>, order: seq<nat>, i: nat, hits: seq<nat>, j: nat)
    requires Through(valid, valid', tmp, order, i, hits) && i < |order| && j < |valid'| && valid'[j] == order[i]
    ensures Through(valid, valid', tmp[j := Hits(hits, order[i])], order, i + 1, hits)
  {
    assert order[..i + 1] == order[..i] + [order[i]];
    AddNext(valid, order[..i], order[i]);
    GatherKnown(valid', tmp, order[..i], hits, j);
  }

  lemma ThroughNew(valid: seq<nat>, valid': seq<nat>, tmp: seq<nat>, order: seq<nat>, i: nat, hits: seq<nat>)
    requires Through(valid, valid', tmp, order, i, hits) && i < |order| && order[i] !in valid' && |valid'| < MAX_PC_NUM
    requires order[i] in hits
    ensures Through(valid, valid' + [order[i]], tmp[|valid'| := Hits(hits, order[i])], order, i + 1, hits)
  {
    assert order[..i + 1] == order[..i] + [order[i]];
    AddNext(valid, order[..i], order[i]);
    GatherNew(valid', tmp, order[..i], hits, order[i]);
  }

  lemma ThroughStop(valid: seq<nat>, valid': seq<nat>, tmp: seq<nat>, order: seq<nat>, i: nat, hits: seq<nat>)
    requires Through(valid, valid', tmp, order, i, hits)
    requires i == |order| || (order[i] !in valid' && |valid'| == MAX_PC_NUM)
    ensures valid' == AddAll(valid, order) && Cut(valid', order, i)
  {
    if i < |order| { StoppedAt(valid, order, i); } else { assert order[..i] == order; }
    forall x | 0 <= x < i ensures order[x] in valid' { assert order[..i][x] == order[x]; }
  }

  /** A table that holds these pcs, in this order, with their hits. */
  ghost predicate Holds(pcs: seq<nat>, nums: seq<nat>, order: seq<nat>, hits: seq<nat>) {
    && |order| <= |pcs| == |nums| == MAX_PC_NUM
    && (forall i :: 0 <= i < |order| ==> pcs[i] == order[i] && Entry(order[i], nums[i], hits))
    && forall i :: |order| <= i < MAX_PC_NUM ==> pcs[i] == 0
  }

  ghost predicate Entry(pc: nat, num: nat, hits: seq<nat>) { 0 < pc < WORD && pc in hits && num == Hits(hits, pc) }

  lemma CountsHolds(h: Head, n: nat, hits: seq<nat>)
    requires Counts(h, n, hits) && Narrow(hits)
    ensures n == |Met(hits)| && Holds(h.pcs, h.nums, Met(hits), hits)
  {
    forall i | 0 <= i < n ensures h.pcs[i] == Met(hits)[i] && Entry(h.pcs[i], h.nums[i], hits) {
      assert h.pcs[..n][i] == h.pcs[i];
    }
  }

  /** The middle loop of SortSyncThreadPcNumInPlace; k is the number of entries it gets through. */
  method GatherThread(pcs: seq<nat>, nums: seq<nat>, valid: seq<nat>, tmpCounts: seq<nat>, ghost order: seq<nat>, ghost hits: seq<nat>)
    returns (valid': seq<nat>, tmp: seq<nat>, ok: bool, ghost k: nat)
    requires Holds(pcs, nums, order, hits) && Distinct(valid) && |valid| <= MAX_PC_NUM && tmpCounts == Zeros()
    ensures Extends(valid, valid', hits) && valid' == AddAll(valid, order)
    ensures Cut(valid', order, k) && (ok <==> k == |order|)
    ensures Gathered(valid', tmp, order[..k], hits)
  {
    valid', tmp, ok := valid, tmpCounts, true;
    var i: nat := 0;
    while i < MAX_PC_NUM
      invariant i <= |order| && Through(valid, valid', tmp, order, i, hits)
    {
      var pc := pcs[i] % WORD;
      if pc == 0 { break; }
      assert Entry(order[i], nums[i], hits);
      var j := IndexOf(valid', pc);
      if j < |valid'| {
        ThroughKnown(valid, valid', tmp, order, i, hits, j);
        tmp := tmp[j := nums[i]];
      } else if |valid'| < MAX_PC_NUM {
        ThroughNew(valid, valid', tmp, order, i, hits);
        tmp := tmp[|valid'| := nums[i]];
        valid' := valid' + [pc];
      } else {
        ok, k := false, i;
        ThroughStop(valid, valid', tmp, order, i, hits);
        return;
      }
      i := i + 1;
    }
    k := |order|;
    assert i == k;
    ThroughStop(valid, valid', tmp, order, i, hits);
  }

  lemma StoppedAt(valid: seq<nat>, order: seq<nat>, i: nat)
    requires i <= |order| && |AddAll(valid, order[..i])| >= MAX_PC_NUM
    ensures AddAll(valid, order) == AddAll(valid, order[..i])
  {
    FullStays(valid, order[..i], order[i..]);
    assert order == order[..i] + order[i..];
  }

  /** The innermost search loop. */
  method IndexOf(valid: seq<nat>, pc: nat) returns (j: nat)
    ensures j <= |valid| && (j < |valid| ==> valid[j] == pc) && (j == |valid| ==> pc !in valid)
  {
    j := 0;
    while j < |valid|
      invariant j <= |valid| && pc !in valid[..j]
    {
      if valid[j] == pc { return; }
      assert valid[..j + 1] == valid[..j] + [valid[j]];
      j := j + 1;
    }
    assert valid[..j] == valid;
  }

  /** Nothing is stored from entry m on. */
  ghost predicate Within(h: Head, m: nat) {
    && |h.pcs| == |h.nums| == MAX_PC_NUM
    && forall i :: m <= i < MAX_PC_NUM ==> h.pcs[i] == 0 && h.nums[i] == 0
  }

  /** One round of the outer loop: the thread's numbers are rewritten in the common order. */
  method AlignThread(h: Head, valid: seq<nat>, tmpCounts: seq<nat>, ghost n: nat, ghost hits: seq<nat>)
    returns (h': Head, valid': seq<nat>, tmp: seq<nat>, ok: bool, ghost k: nat)
    requires Counts(h, n, hits) && Narrow(hits) && Distinct(valid) && |valid| <= MAX_PC_NUM && tmpCounts == Zeros()
    ensures Extends(valid, valid', hits) && valid' == AddAll(valid, Met(hits)) && Within(h', |valid'|)
    ensures Cut(valid', Met(hits), k) && (ok <==> k == |Met(hits)|)
    ensures Gathered(valid', h'.nums, Met(hits)[..k], hits)
    ensures tmp == Zeros()
  {
    CountsHolds(h, n, hits);
    valid', tmp, ok, k := GatherThread(h.pcs, h.nums, valid, tmpCounts, Met(hits), hits);
    UsedWithin(h, n, hits, valid', k);
    var nums;
    nums, tmp := CopyBack(h.nums, tmp, |valid'|);
    h' := h.(nums := nums);
  }

  /** The table has no more entries than the list. */
  lemma UsedWithin(h: Head, n: nat, hits: seq<nat>, valid: seq<nat>, k: nat)
    requires Counts(h, n, hits) && Cut(valid, Met(hits), k) && Distinct(valid) && |valid| <= MAX_PC_NUM
    ensures Within(h, |valid|)
  {
    if k == |Met(hits)| {
      MetExactly(hits);
      DistinctInside(Met(hits), valid);
    }
  }

  method CopyBack(nums: seq<nat>, tmpCounts: seq<nat>, m: nat) returns (nums': seq<nat>, tmp: seq<nat>)
    requires |nums| == |tmpCounts| == MAX_PC_NUM && m <= MAX_PC_NUM
    requires forall i :: m <= i < MAX_PC_NUM ==> nums[i] == 0 && tmpCounts[i] == 0
    ensures nums' == tmpCounts && tmp == Zeros()
  {
    nums', tmp := nums, tmpCounts;
    for each := 0 to m
      invariant |nums'| == |tmp| == MAX_PC_NUM
      invariant forall i :: 0 <= i < each ==> nums'[i] == tmpCounts[i] && tmp[i] == 0
      invariant forall i :: each <= i < MAX_PC_NUM ==> nums'[i] == nums[i] && tmp[i] == tmpCounts[i]
    {
      nums' := nums'[each := tmp[each]];
      tmp := tmp[each := 0];
    }
  }

  // ------------------------------------------------------------------ aligning all threads

  /** The numbers of a thread: the hits of the listed pcs up to where its pass stopped, and zero otherwise. */
  ghost predicate Tallied(valid: seq<nat>, nums: seq<nat>, hits: seq<nat>) {
    exists k: nat :: Cut(valid, Met(hits), k) && Gathered(valid, nums, Met(hits)[..k], hits)
  }

  /** They stay right when the list grows. */
  lemma TalliedFurther(valid: seq<nat>, valid': seq<nat>, nums: seq<nat>, hits: seq<nat>)
    requires Tallied(valid, nums, hits) && valid <= valid' && Distinct(valid') && |valid'| <= MAX_PC_NUM
    ensures Tallied(valid', nums, hits)
  {
    var k: nat :| Cut(valid, Met(hits), k) && Gathered(valid, nums, Met(hits)[..k], hits);
    if |valid'| > |valid| { GatheredFurther(valid, valid', nums, Met(hits)[..k], hits); } else { assert valid' == valid; }
    assert Cut(valid', Met(hits), k);
  }

  lemma GatheredFurther(valid: seq<nat>, valid': seq<nat>, nums: seq<nat>, seen: seq<nat>, hits: seq<nat>)
    requires Gathered(valid, nums, seen, hits) && valid <= valid' && Distinct(valid') && |valid'| <= MAX_PC_NUM
    ensures Gathered(valid', nums, seen, hits)
  {
    forall i | |valid| <= i < |valid'| ensures valid'[i] !in valid { }
  }

  ghost predicate Recorded(heads: seq<Head>, ns: seq<nat>, hits: seq<seq<nat>>) {
    |heads| == |ns| == |hits| && forall t :: 0 <= t < |heads| ==> Counts(heads[t], ns[t], hits[t])
  }

  ghost predicate HitBySome(hits: seq<seq<nat>>, p: nat) { exists t :: 0 <= t < |hits| && p in hits[t] }

  /** The common list after the first t threads. */
  ghost function ListUpTo(hits: seq<seq<nat>>, t: nat): seq<nat>
    requires t <= |hits|
  {
    if t == 0 then [] else AddAll(ListUpTo(hits, t - 1), Met(hits[t - 1]))
  }

  ghost predicate Covers(valid: seq<nat>, hits: seq<nat>) { forall p <- hits :: p in valid }

  ghost predicate AllListed(hits: seq<seq<nat>>, valid: seq<nat>, t: nat)
    requires t <= |hits|
  {
    forall u :: 0 <= u < t ==> Covers(valid, hits[u])
  }

  /** The list is full, and some pc is not on it. */
  ghost predicate Overfull(hits: seq<seq<nat>>, valid: seq<nat>) {
    |valid| == MAX_PC_NUM && exists p :: HitBySome(hits, p) && p !in valid
  }

  ghost predicate AllHit(hits: seq<seq<nat>>, valid: seq<nat>) { forall p <- valid :: HitBySome(hits, p) }

  ghost predicate AllTallied(heads: seq<Head>, hits: seq<seq<nat>>, valid: seq<nat>, t: nat)
    requires t <= |heads| == |hits|
  {
    forall u :: 0 <= u < t ==> Within(heads[u], |valid|) && Tallied(valid, heads[u].nums, hits[u])
  }

  /** The first t threads have been aligned; done says that none of their pcs was dropped. */
  ghost predicate AlignedUpTo(heads: seq<Head>, hits: seq<seq<nat>>, valid: seq<nat>, t: nat, done: bool) {
    && t <= |heads| == |hits|
    && Distinct(valid) && |valid| <= MAX_PC_NUM && valid == ListUpTo(hits, t) && AllHit(hits, valid)
    && AllTallied(heads, hits, valid, t)
    && if done then AllListed(hits, valid, t) else Overfull(hits, valid)
  }

  lemma TallyOne(heads: seq<Head>, hits: seq<seq<nat>>, valid: seq<nat>, t: nat, h': Head, valid': seq<nat>)
    requires t < |heads| == |hits| && AllTallied(heads, hits, valid, t)
    requires valid <= valid' && Distinct(valid') && |valid'| <= MAX_PC_NUM
    requires Within(h', |valid'|) && Tallied(valid', h'.nums, hits[t])
    ensures AllTallied(heads[t := h'], hits, valid', t + 1)
  {
    forall u | 0 <= u < t ensures Tallied(valid', heads[u].nums, hits[u]) {
      TalliedFurther(valid, valid', heads[u].nums, hits[u]);
    }
  }

  lemma HitByOne(hits: seq<seq<nat>>, valid: seq<nat>, valid': seq<nat>, t: nat)
    requires t < |hits| && AllHit(hits, valid) && Extends(valid, valid', hits[t])
    ensures AllHit(hits, valid')
  {
    forall p | p in valid' ensures HitBySome(hits, p) {
      if p !in valid { assert p in hits[t]; }
    }
  }

  lemma AlignOne(heads: seq<Head>, hits: seq<seq<nat>>, valid: seq<nat>, t: nat, done: bool,
                 h': Head, valid': seq<nat>, ok: bool, k: nat)
    requires AlignedUpTo(heads, hits, valid, t, done) && t < |heads|
    requires Extends(valid, valid', hits[t]) && valid' == AddAll(valid, Met(hits[t])) && Within(h', |valid'|)
    requires Cut(valid', Met(hits[t]), k) && (ok <==> k == |Met(hits[t])|)
    requires Gathered(valid', h'.nums, Met(hits[t])[..k], hits[t])
    ensures AlignedUpTo(heads[t := h'], hits, valid', t + 1, done && ok)
  {
    TallyOne(heads, hits, valid, t, h', valid');
    HitByOne(hits, valid, valid', t);
    ListedNext(hits, valid, valid', t, done, ok, k);
  }

  lemma ListedNext(hits: seq<seq<nat>>, valid: seq<nat>, valid': seq<nat>, t: nat, done: bool, ok: bool, k: nat)
    requires t < |hits| && valid <= valid' && |valid'| <= MAX_PC_NUM
    requires Cut(valid', Met(hits[t]), k) && (ok <==> k == |Met(hits[t])|)
    requires if done then AllListed(hits, valid, t) else Overfull(hits, valid)
    ensures if done && ok then AllListed(hits, valid', t + 1) else Overfull(hits, valid')
  {
    MetExactly(hits[t]);
    if !done {
      assert valid' == valid;
    } else if !ok {
      var p := Met(hits[t])[k];
      assert p in hits[t] && HitBySome(hits, p) && p !in valid';
    } else {
      forall p | p in hits[t] ensures p in valid' { assert p in Met(hits[t]); }
      forall u | 0 <= u < t ensures Covers(valid', hits[u]) { assert Covers(valid, hits[u]); }
    }
  }

  lemma FirstAligned(heads: seq<Head>, hits: seq<seq<nat>>, valid: seq<nat>)
    requires |heads| == |hits| > 0 && Aligned(valid, heads[0].nums, hits[0]) && Within(heads[0], |valid|)
    requires valid == Met(hits[0])
    ensures AlignedUpTo(heads, hits, valid, 1, true)
  {
    MetExactly(hits[0]);
    AddDistinct(valid);
    assert ListUpTo(hits, 1) == AddAll(ListUpTo(hits, 0), Met(hits[0]));
    FirstTallied(valid, heads[0].nums, hits[0]);
    assert forall p :: p in hits[0] ==> HitBySome(hits, p);
  }

  lemma FirstTallied(valid: seq<nat>, nums: seq<nat>, hits: seq<nat>)
    requires valid == Met(hits) && Aligned(valid, nums, hits)
    ensures Tallied(valid, nums, hits)
  {
    assert Cut(valid, valid, |valid|) && valid[..|valid|] == valid;
  }

  lemma {:induction false} AddDistinct(order: seq<nat>)
    requires Distinct(order) && |order| <= MAX_PC_NUM
    ensures AddAll([], order) == order
  {
    if order != [] {
      var n := |order| - 1;
      AddDistinct(order[..n]);
      assert order == order[..n] + [order[n]];
    }
  }

  /** SortSyncThreadPcNumInPlace. */
  method SortInPlace(heads: seq<Head>, tmpCounts: seq<nat>, ghost ns: seq<nat>, ghost hits: seq<seq<nat>>)
    returns (heads': seq<Head>, valid: seq<nat>, tmp: seq<nat>, ok: bool)
    requires Recorded(heads, ns, hits) && heads != [] && tmpCounts == Zeros()
    requires forall t :: 1 <= t < |hits| ==> Narrow(hits[t])
    ensures |heads'| == |heads| && AlignedUpTo(heads', hits, valid, |heads|, ok) && tmp == Zeros()
  {
    heads', tmp, ok := heads, tmpCounts, true;
    valid := FirstThread(heads[0], ns[0], hits[0]);
    FirstAligned(heads, hits, valid);
    for t := 1 to |heads|
      invariant tmp == Zeros() && Rest(heads, heads', t) && AlignedUpTo(heads', hits, valid, t, ok)
    {
      heads', valid, tmp, ok := AlignNext(heads, heads', valid, tmp, ok, t, ns, hits);
    }
  }

  /** The threads from t on are as they were. */
  ghost predicate Rest(heads: seq<Head>, heads': seq<Head>, t: nat) {
    |heads'| == |heads| && forall u :: t <= u < |heads| ==> heads'[u] == heads[u]
  }

  method AlignNext(ghost heads: seq<Head>, before: seq<Head>, valid: seq<nat>, tmpCounts: seq<nat>, ok: bool, t: nat,
                   ghost ns: seq<nat>, ghost hits: seq<seq<nat>>)
    returns (heads': seq<Head>, valid': seq<nat>, tmp: seq<nat>, ok': bool)
    requires 0 < t < |heads| && Recorded(heads, ns, hits) && Narrow(hits[t]) && tmpCounts == Zeros()
    requires Rest(heads, before, t) && AlignedUpTo(before, hits, valid, t, ok)
    ensures tmp == Zeros() && Rest(heads, heads', t + 1) && AlignedUpTo(heads', hits, valid', t + 1, ok')
  {
    var h := before[t];
    assert h == heads[t] && Counts(h, ns[t], hits[t]);
    var h', aligned;
    ghost var k;
    h', valid', tmp, aligned, k := AlignThread(h, valid, tmpCounts, ns[t], hits[t]);
    AlignOne(before, hits, valid, t, ok, h', valid', aligned, k);
    heads', ok' := before[t := h'], ok && aligned;
  }

  /** Thread 0 fixes the initial order. */
  method FirstThread(h: Head, ghost n: nat, ghost hits: seq<nat>) returns (valid: seq<nat>)
    requires Counts(h, n, hits)
    ensures valid == Met(hits) && Aligned(valid, h.nums, hits) && Within(h, |valid|)
  {
    valid := [];
    var k: nat := 0;
    while k < MAX_PC_NUM && h.pcs[k] != 0
      invariant k <= n && valid == h.pcs[..k]
    {
      valid := valid + [h.pcs[k]];
      k := k + 1;
    }
  }

  /** The sort reports no loss exactly when all pcs together fit into one table. */
  ghost function AllPcs(hits: seq<seq<nat>>): set<nat> {
    set t, i | 0 <= t < |hits| && 0 <= i < |hits[t]| :: hits[t][i]
  }

  lemma LossExactly(heads: seq<Head>, hits: seq<seq<nat>>, valid: seq<nat>, ok: bool)
    requires AlignedUpTo(heads, hits, valid, |heads|, ok)
    ensures ok <==> |AllPcs(hits)| <= MAX_PC_NUM
    ensures ok ==> forall p :: p in valid <==> HitBySome(hits, p)
  {
    DistinctSize(valid);
    if ok {
      assert AllPcs(hits) <= Elements(valid);
      SizeMonotone(AllPcs(hits), Elements(valid));
    } else {
      var p :| HitBySome(hits, p) && p !in valid;
      SizeMonotone(Elements(valid) + {p}, AllPcs(hits));
    }
  }

  // ------------------------------------------------------------------ maxima and reports

  /** The largest number any thread has at entry i. */
  ghost predicate IsMax(heads: seq<Head>, i: nat, m: nat)
    requires forall t :: 0 <= t < |heads| ==> |heads[t].nums| == MAX_PC_NUM
    requires i < MAX_PC_NUM
  {
    && (forall t :: 0 <= t < |heads| ==> heads[t].nums[i] <= m)
    && exists t :: 0 <= t < |heads| && heads[t].nums[i] == m
  }

  /** GetMaxSyncThreadPcNum. */
  method GetMax(heads: seq<Head>, validPcNum: nat, tmpCounts: seq<nat>) returns (tmp: seq<nat>)
    requires heads != [] && validPcNum <= MAX_PC_NUM == |tmpCounts|
    requires forall t :: 0 <= t < |heads| ==> |heads[t].nums| == MAX_PC_NUM
    ensures |tmp| == MAX_PC_NUM && forall i :: 0 <= i < validPcNum ==> IsMax(heads, i, tmp[i])
  {
    tmp := tmpCounts;
    for i := 0 to validPcNum
      invariant |tmp| == MAX_PC_NUM && forall j :: 0 <= j < i ==> IsMax(heads, j, tmp[j])
    {
      var maxNum: nat := 0;
      for t := 0 to |heads|
        invariant forall u :: 0 <= u < t ==> heads[u].nums[i] <= maxNum
        invariant if t == 0 then maxNum == 0 else exists u :: 0 <= u < t && heads[u].nums[i] == maxNum
      {
        if heads[t].nums[i] > maxNum { maxNum := heads[t].nums[i]; }
        assert t == 0 ==> heads[0].nums[i] == maxNum;
      }
      assert IsMax(heads, i, maxNum);
      tmp := tmp[i := maxNum];
    }
  }

  datatype Report = Report(thread: nat, pc: nat)

  /** The reports for entry i among the first t threads, and for all entries before i. */
  ghost function Row(heads: seq<Head>, valid: seq<nat>, tmp: seq<nat>, i: nat, t: nat): seq<Report>
    requires i < |valid| <= MAX_PC_NUM == |tmp| && t <= |heads|
    requires forall u :: 0 <= u < |heads| ==> |heads[u].nums| == MAX_PC_NUM
  {
    if t == 0 then []
    else Row(heads, valid, tmp, i, t - 1)
         + if heads[t - 1].nums[i] < tmp[i] then [Report(t - 1, valid[i])] else []
  }

  ghost function Rows(heads: seq<Head>, valid: seq<nat>, tmp: seq<nat>, i: nat): seq<Report>
    requires i <= |valid| <= MAX_PC_NUM == |tmp|
    requires forall u :: 0 <= u < |heads| ==> |heads[u].nums| == MAX_PC_NUM
  {
    if i == 0 then [] else Rows(heads, valid, tmp, i - 1) + Row(heads, valid, tmp, i - 1, |heads|)
  }

  /** A row names, once each, the threads that fall short at its entry. */
  lemma {:induction false} RowExact(heads: seq<Head>, valid: seq<nat>, tmp: seq<nat>, i: nat, t: nat)
    requires i < |valid| <= MAX_PC_NUM == |tmp| && t <= |heads|
    requires forall u :: 0 <= u < |heads| ==> |heads[u].nums| == MAX_PC_NUM
    ensures forall r :: r in Row(heads, valid, tmp, i, t) <==>
              r.pc == valid[i] && r.thread < t && heads[r.thread].nums[i] < tmp[i]
    ensures Distinct(Row(heads, valid, tmp, i, t))
  {
    if t > 0 { RowExact(heads, valid, tmp, i, t - 1); }
  }

  ghost predicate Short(heads: seq<Head>, valid: seq<nat>, tmp: seq<nat>, i: nat, r: Report)
    requires i < |valid| <= MAX_PC_NUM == |tmp|
    requires forall u :: 0 <= u < |heads| ==> |heads[u].nums| == MAX_PC_NUM
  {
    r.pc == valid[i] && r.thread < |heads| && heads[r.thread].nums[i] < tmp[i]
  }

  lemma DistinctConcat(a: seq<Report>, b: seq<Report>)
    requires Distinct(a) && Distinct(b) && forall r :: r in a ==> r !in b
    ensures Distinct(a + b)
  {
    var s := a + b;
    forall i, j | 0 <= i < j < |s| ensures s[i] != s[j] {
      if i < |a| <= j { assert s[i] in a && s[j] in b; }
    }
  }

  lemma {:induction false} RowsExact(heads: seq<Head>, valid: seq<nat>, tmp: seq<nat>, n: nat)
    requires n <= |valid| <= MAX_PC_NUM == |tmp| && Distinct(valid)
    requires forall u :: 0 <= u < |heads| ==> |heads[u].nums| == MAX_PC_NUM
    ensures forall r :: r in Rows(heads, valid, tmp, n) <==> exists i :: 0 <= i < n && Short(heads, valid, tmp, i, r)
    ensures Distinct(Rows(heads, valid, tmp, n))
  {
    if n > 0 {
      RowsExact(heads, valid, tmp, n - 1);
      RowExact(heads, valid, tmp, n - 1, |heads|);
      var before, row := Rows(heads, valid, tmp, n - 1), Row(heads, valid, tmp, n - 1, |heads|);
      forall r | r in before ensures r !in row {
        var i :| 0 <= i < n - 1 && Short(heads, valid, tmp, i, r);
      }
      DistinctConcat(before, row);
      forall r | r in row ensures Short(heads, valid, tmp, n - 1, r) { }
    }
  }

  /** The first k entries have been reset. */
  ghost predicate ClearedTo(h: Head, h': Head, k: nat) {
    && |h.pcs| == |h.nums| == |h'.pcs| == |h'.nums| == MAX_PC_NUM
    && (forall i :: 0 <= i < MAX_PC_NUM ==> h'.pcs[i] == if i < k then 0 else h.pcs[i])
    && (forall i :: 0 <= i < MAX_PC_NUM ==> h'.nums[i] == if i < k then 0 else h.nums[i])
  }

  /** The reporting loop at the end of the kernel, which resets each counter it has looked at. */
  method ReportShort(heads: seq<Head>, valid: seq<nat>, tmp: seq<nat>) returns (reports: seq<Report>, heads': seq<Head>)
    requires |valid| <= MAX_PC_NUM == |tmp|
    requires forall t :: 0 <= t < |heads| ==> |heads[t].nums| == MAX_PC_NUM
    requires forall t :: 0 <= t < |heads| ==> Within(heads[t], |valid|)
    ensures reports == Rows(heads, valid, tmp, |valid|)
    ensures |heads'| == |heads| && forall t :: 0 <= t < |heads| ==> heads'[t] == BLANK
  {
    reports, heads' := [], heads;
    for i := 0 to |valid|
      invariant reports == Rows(heads, valid, tmp, i) && AllClearedTo(heads, heads', i)
    {
      var row;
      row, heads' := ReportRow(heads, heads', valid, tmp, i);
      reports := reports + row;
    }
    forall t | 0 <= t < |heads| ensures heads'[t] == BLANK {
      assert heads'[t].pcs == Zeros() && heads'[t].nums == Zeros();
    }
  }

  ghost predicate AllClearedTo(heads: seq<Head>, heads': seq<Head>, k: nat) {
    |heads'| == |heads| && forall t :: 0 <= t < |heads| ==> ClearedTo(heads[t], heads'[t], k)
  }

  /** The inner loop: one pc over all threads. */
  method ReportRow(ghost heads: seq<Head>, before: seq<Head>, valid: seq<nat>, tmp: seq<nat>, i: nat)
    returns (row: seq<Report>, heads': seq<Head>)
    requires i < |valid| <= MAX_PC_NUM == |tmp| && AllClearedTo(heads, before, i)
    requires forall t :: 0 <= t < |heads| ==> |heads[t].nums| == MAX_PC_NUM
    ensures row == Row(heads, valid, tmp, i, |heads|) && AllClearedTo(heads, heads', i + 1)
  {
    row, heads' := [], before;
    for t := 0 to |before|
      invariant row == Row(heads, valid, tmp, i, t) && |heads'| == |heads|
      invariant forall u :: 0 <= u < |heads| ==> ClearedTo(heads[u], heads'[u], if u < t then i + 1 else i)
    {
      if heads'[t].nums[i] < tmp[i] { row := row + [Report(t, valid[i])]; }
      heads' := heads'[t := Head(heads'[t].pcs[i := 0], heads'[t].nums[i := 0])];
    }
  }

  // ------------------------------------------------------------------ a thread block

  /** Thread t met the barrier at p less often than some other thread. */
  ghost predicate Diverged(hits: seq<seq<nat>>, r: Report) {
    r.thread < |hits| && exists u :: 0 <= u < |hits| && Hits(hits[r.thread], r.pc) < Hits(hits[u], r.pc)
  }

  /** The pcs that are compared: the first 64 in the order of the threads and of their first hits. */
  ghost function Listed(hits: seq<seq<nat>>): seq<nat> { ListUpTo(hits, |hits|) }

  /** A thread's hits at a pc count as long as everything it met up to then is listed. */
  ghost predicate Reaches(hits: seq<seq<nat>>, t: nat, pc: nat)
    requires t < |hits|
  {
    var order := Met(hits[t]);
    exists k :: 0 <= k < |order| && order[k] == pc && forall i :: 0 <= i <= k ==> order[i] in Listed(hits)
  }

  ghost function Tally(hits: seq<seq<nat>>, t: nat, pc: nat): nat
    requires t < |hits|
  {
    if Reaches(hits, t, pc) then Hits(hits[t], pc) else 0
  }

  /** The thread is behind some other one at a listed pc, as far as their hits count. */
  ghost predicate Behind(hits: seq<seq<nat>>, r: Report) {
    && r.thread < |hits| && r.pc in Listed(hits)
    && exists u :: 0 <= u < |hits| && Tally(hits, r.thread, r.pc) < Tally(hits, u, r.pc)
  }

  lemma TallyIsNumber(hits: seq<seq<nat>>, valid: seq<nat>, nums: seq<nat>, t: nat, i: nat)
    requires t < |hits| && valid == Listed(hits) && Tallied(valid, nums, hits[t]) && i < |valid|
    ensures |nums| == MAX_PC_NUM && |valid| <= MAX_PC_NUM && nums[i] == Tally(hits, t, valid[i])
  {
    var order := Met(hits[t]);
    var k: nat :| Cut(valid, order, k) && Gathered(valid, nums, order[..k], hits[t]);
    if valid[i] in order[..k] {
      var j :| 0 <= j < k && order[..k][j] == valid[i];
      assert order[j] == valid[i];
    }
    if Reaches(hits, t, valid[i]) {
      var j :| 0 <= j < |order| && order[j] == valid[i] && forall x :: 0 <= x <= j ==> order[x] in valid;
      assert j < k && order[..k][j] == valid[i];
    }
  }

  /** Aligned counters and their maxima tell exactly who is behind. */
  lemma ShortIsBehind(heads: seq<Head>, hits: seq<seq<nat>>, valid: seq<nat>, tmp: seq<nat>, ok: bool, r: Report)
    requires AlignedUpTo(heads, hits, valid, |heads|, ok) && |tmp| == MAX_PC_NUM
    requires forall i :: 0 <= i < |valid| ==> IsMax(heads, i, tmp[i])
    ensures (exists i :: 0 <= i < |valid| && Short(heads, valid, tmp, i, r)) <==> Behind(hits, r)
  {
    forall t, i | 0 <= t < |heads| && 0 <= i < |valid| ensures heads[t].nums[i] == Tally(hits, t, valid[i]) {
      TallyIsNumber(hits, valid, heads[t].nums, t, i);
    }
    if i :| 0 <= i < |valid| && Short(heads, valid, tmp, i, r) { ShortThenBehind(heads, hits, valid, tmp, i, r); }
    if Behind(hits, r) {
      var i :| 0 <= i < |valid| && valid[i] == r.pc;
      assert IsMax(heads, i, tmp[i]);
      assert Short(heads, valid, tmp, i, r);
    }
  }

  lemma ShortThenBehind(heads: seq<Head>, hits: seq<seq<nat>>, valid: seq<nat>, tmp: seq<nat>, i: nat, r: Report)
    requires |heads| == |hits| && i < |valid| <= MAX_PC_NUM == |tmp| && valid == Listed(hits)
    requires forall t :: 0 <= t < |heads| ==> |heads[t].nums| == MAX_PC_NUM
    requires forall t :: 0 <= t < |heads| ==> heads[t].nums[i] == Tally(hits, t, valid[i])
    requires IsMax(heads, i, tmp[i]) && Short(heads, valid, tmp, i, r)
    ensures Behind(hits, r)
  {
    var u :| 0 <= u < |heads| && heads[u].nums[i] == tmp[i];
    assert Tally(hits, r.thread, r.pc) < Tally(hits, u, r.pc);
  }

  /** Without loss all hits count, and to be behind is to have diverged. */
  lemma BehindIsDiverged(hits: seq<seq<nat>>, r: Report)
    requires AllListed(hits, Listed(hits), |hits|)
    ensures Behind(hits, r) <==> Diverged(hits, r)
  {
    forall t | 0 <= t < |hits| ensures Tally(hits, t, r.pc) == Hits(hits[t], r.pc) {
      MetExactly(hits[t]);
      if r.pc in hits[t] {
        var k :| 0 <= k < |Met(hits[t])| && Met(hits[t])[k] == r.pc;
        assert forall i :: 0 <= i <= k ==> Met(hits[t])[i] in hits[t];
        assert Reaches(hits, t, r.pc);
      }
    }
  }

  /**
   * With too many pcs a thread can be accused wrongly: when the first pc it met is not listed, none of its hits
   * count, and it is reported wherever another thread's do, however often it hit the barrier itself.
   */
  lemma LossAccuses(hits: seq<seq<nat>>, t: nat, u: nat, pc: nat)
    requires t < |hits| && u < |hits| && Met(hits[t]) != [] && Met(hits[t])[0] !in Listed(hits)
    requires pc in Listed(hits) && Tally(hits, u, pc) > 0
    ensures Behind(hits, Report(t, pc))
  {
    assert Tally(hits, t, pc) == 0;
  }

  /** The list is cut from the pcs of all threads in the order of their first hits, thread after thread. */
  ghost function Chained(hits: seq<seq<nat>>, t: nat): seq<nat>
    requires t <= |hits|
  {
    if t == 0 then [] else Chained(hits, t - 1) + hits[t - 1]
  }

  ghost function FirstOf(order: seq<nat>): seq<nat> { if |order| <= MAX_PC_NUM then order else order[..MAX_PC_NUM] }

  lemma {:induction false} AddHas(valid: seq<nat>, order: seq<nat>, pc: nat)
    requires pc in order
    ensures pc in AddAll(valid, order) || |AddAll(valid, order)| >= MAX_PC_NUM
  {
    var init, last := order[..|order| - 1], order[|order| - 1];
    assert order == init + [last];
    AddNext(valid, init, last);
    if pc != last { AddHas(valid, init, pc); }
  }

  lemma {:induction false} AddMet(valid: seq<nat>, hits: seq<nat>)
    ensures AddAll(valid, Met(hits)) == AddAll(valid, hits)
  {
    if hits != [] {
      var init, pc := hits[..|hits| - 1], hits[|hits| - 1];
      assert hits == init + [pc];
      AddMet(valid, init);
      MetNext(init, pc);
      AddNext(valid, init, pc);
      if pc in init { AddHas(valid, init, pc); } else { AddNext(valid, Met(init), pc); }
    }
  }

  lemma {:induction false} AddFirst(a: seq<nat>, b: seq<nat>)
    ensures AddAll(FirstOf(Met(a)), b) == FirstOf(Met(a + b))
  {
    if b == [] {
      assert a + b == a;
    } else {
      var init, pc := b[..|b| - 1], b[|b| - 1];
      assert b == init + [pc] && a + b == (a + init) + [pc];
      AddFirst(a, init);
      MetNext(a + init, pc);
      MetExactly(a + init);
      AddNext(FirstOf(Met(a)), init, pc);
    }
  }

  lemma AddChain(a: seq<nat>, b: seq<nat>, v: seq<nat>)
    requires v == FirstOf(Met(a))
    ensures AddAll(v, Met(b)) == FirstOf(Met(a + b))
  {
    AddMet(v, b);
    AddFirst(a, b);
  }

  ghost predicate IsList(hits: seq<seq<nat>>, t: nat)
    requires t <= |hits|
  {
    ListUpTo(hits, t) == FirstOf(Met(Chained(hits, t)))
  }

  lemma ListStep(hits: seq<seq<nat>>, t: nat)
    requires t < |hits| && IsList(hits, t)
    ensures IsList(hits, t + 1)
  {
    var a, b, v := Chained(hits, t), hits[t], ListUpTo(hits, t);
    AddChain(a, b, v);
    assert ListUpTo(hits, t + 1) == AddAll(v, Met(b)) && Chained(hits, t + 1) == a + b;
  }

  lemma NothingListed(hits: seq<seq<nat>>)
    ensures IsList(hits, 0)
  {
    assert Chained(hits, 0) == [] && Met([]) == [];
  }

  lemma {:induction false} ListedExactly(hits: seq<seq<nat>>, t: nat)
    requires t <= |hits|
    ensures IsList(hits, t)
  {
    if t == 0 {
      NothingListed(hits);
    } else {
      ListedExactly(hits, t - 1);
      ListStep(hits, t - 1);
    }
  }

  /** The end of the kernel: align, find the maxima, report and reset. */
  method Judge(heads: seq<Head>, ghost ns: seq<nat>, ghost hits: seq<seq<nat>>)
    returns (lost: bool, reports: seq<Report>, cleared: seq<Head>)
    requires Recorded(heads, ns, hits) && heads != [] && forall t :: 1 <= t < |hits| ==> Narrow(hits[t])
    ensures lost <==> |AllPcs(hits)| > MAX_PC_NUM
    ensures Distinct(reports) && (forall r :: r in reports <==> Behind(hits, r))
    ensures !lost ==> forall r :: r in reports <==> Diverged(hits, r)
    ensures |cleared| == |heads| && forall t :: 0 <= t < |heads| ==> cleared[t] == BLANK
  {
    var aligned, valid, tmp, ok;
    aligned, valid, tmp, ok := SortInPlace(heads, Zeros(), ns, hits);
    LossExactly(aligned, hits, valid, ok);
    lost := !ok;
    tmp := GetMax(aligned, |valid|, tmp);
    reports, cleared := ReportShort(aligned, valid, tmp);
    RowsExact(aligned, valid, tmp, |valid|);
    forall r ensures r in reports <==> Behind(hits, r) {
      ShortIsBehind(aligned, hits, valid, tmp, ok, r);
    }
    if ok {
      forall r ensures r in reports <==> Diverged(hits, r) { BehindIsDiverged(hits, r); }
    }
  }

  class ThreadBlock {
    var heads: seq<Head>
    /** The barrier hits each thread has recorded, in order, and how many table entries it uses. */
    ghost var hits: seq<seq<nat>>
    ghost var ns: seq<nat>

    ghost predicate Valid()
      reads this
    {
      heads != [] && Recorded(heads, ns, hits)
    }

    ghost predicate Reset()
      reads this
    {
      && |hits| == |heads|
      && forall t :: 0 <= t < |heads| ==> heads[t] == BLANK && hits[t] == []
    }

    constructor (threads: nat)
      requires threads > 0
      ensures Valid() && Reset() && |heads| == threads
    {
      heads := seq(threads, _ => BLANK);
      hits := seq(threads, _ => []);
      ns := seq(threads, _ => 0);
    }

    /**
     * A thread reaches __syncthreads at pc; false is the report of a lost record.  Zero is no pc: it spoils the
     * thread's table.
     */
    method Hit(t: nat, pc: nat) returns (ok: bool)
      requires Valid() && t < |heads|
      modifies this
      ensures pc != 0 || !ok ==> Valid()
      ensures ok && pc != 0 ==> hits == old(hits)[t := old(hits)[t] + [pc]]
      ensures ok && pc == 0 ==> heads == old(heads)[t := Spoiled(old(heads)[t], old(ns)[t])]
      ensures ok <==> pc in old(hits)[t] || |Met(old(hits)[t])| < MAX_PC_NUM
      ensures !ok ==> hits == old(hits) && heads == old(heads) && |AllPcs(old(hits)[t := old(hits)[t] + [pc]])| > MAX_PC_NUM
    {
      var h;
      ghost var n;
      assert Counts(heads[t], ns[t], hits[t]) && |Met(hits[t])| == ns[t];
      ok, h, n := Update(heads[t], pc, ns[t], hits[t]);
      if ok {
        RecordedNext(heads, ns, hits, t, h, n, pc);
        heads := heads[t := h];
        if pc != 0 { ns, hits := ns[t := n], hits[t := hits[t] + [pc]]; }
      } else {
        FullTable(heads[t], ns[t], hits, t, pc);
      }
    }

    /**
     * The last thread leaves: divergence is reported exactly, as far as hits count when there were too many pcs to
     * compare, and every counter ends reset.  Only the pcs of the first thread may take more than 32 bits.
     */
    method End() returns (lost: bool, reports: seq<Report>)
      requires Valid() && forall t :: 1 <= t < |hits| ==> Narrow(hits[t])
      modifies this
      ensures Valid() && Reset() && |heads| == old(|heads|)
      ensures lost <==> |AllPcs(old(hits))| > MAX_PC_NUM
      ensures Distinct(reports) && forall r :: r in reports <==> Behind(old(hits), r)
      ensures !lost ==> forall r :: r in reports <==> Diverged(old(hits), r)
    {
      var cleared;
      lost, reports, cleared := Judge(heads, ns, hits);
      heads := cleared;
      hits, ns := seq(|heads|, _ => []), seq(|heads|, _ => 0);
    }
  }

  lemma RecordedNext(heads: seq<Head>, ns: seq<nat>, hits: seq<seq<nat>>, t: nat, h: Head, n: nat, pc: nat)
    requires Recorded(heads, ns, hits) && t < |heads| && (pc != 0 ==> Counts(h, n, hits[t] + [pc]))
    ensures pc != 0 ==> Recorded(heads[t := h], ns[t := n], hits[t := hits[t] + [pc]])
  {
  }

  lemma FullTable(h: Head, n: nat, hits: seq<seq<nat>>, t: nat, pc: nat)
    requires t < |hits| && Counts(h, n, hits[t]) && n == MAX_PC_NUM && pc !in hits[t]
    ensures |AllPcs(hits[t := hits[t] + [pc]])| > MAX_PC_NUM
  {
    var hits' := hits[t := hits[t] + [pc]];
    var own := h.pcs[..n] + [pc];
    forall i | 0 <= i < |own| ensures own[i] in hits'[t] { }
    DistinctSize(own);
    forall x | x in Elements(own) ensures x in AllPcs(hits') {
      var i :| 0 <= i < |hits'[t]| && hits'[t][i] == x;
    }
    SizeMonotone(Elements(own), AllPcs(hits'));
  }
}
