/**
 * The device-side bounds check: a table of allocations that the kernel sorts and merges in place before it
 * sums up how much of an access lies inside it, and the search for a peer device that covers the access.
 */
module DeviceTable {
  import opened Intervals
  import Bounds = DiscreteBounds

  /** Sorting and merging move address and size only; the permission stays with the table row. */
  datatype Entry = Entry(addr: nat, size: nat, permission: bv32) {
    predicate Has(a: nat) { addr <= a < addr + size }
    function Moved(from: Entry): Entry { Entry(from.addr, from.size, permission) }
  }

  ghost predicate Covered(t: seq<Entry>, a: nat) { exists i :: 0 <= i < |t| && t[i].Has(a) }

  /** Unused rows are all zero and no range wraps. */
  ghost predicate WellFormed(t: seq<Entry>) {
    forall i :: 0 <= i < |t| ==> (t[i].addr == 0 ==> t[i].size == 0) && t[i].addr + t[i].size <= UINT64_MAX
  }

  /** Used rows ascending, unused rows last. */
  ghost predicate Ordered(t: seq<Entry>) {
    forall i, j :: 0 <= i < j < |t| ==> t[j].addr == 0 || (t[i].addr != 0 && t[i].addr <= t[j].addr)
  }

  /** Address and size of each row. */
  ghost function Spans(t: seq<Entry>): (s: seq<(nat, nat)>)
    ensures |s| == |t| && forall i :: 0 <= i < |t| ==> s[i] == (t[i].addr, t[i].size)
  {
    seq(|t|, i requires 0 <= i < |t| => (t[i].addr, t[i].size))
  }

  // ------------------------------------------------------------------ sorting

  /** Moving the element at i down to p is a permutation. */
  lemma MovePermutes<T>(s: seq<T>, t: seq<T>, p: nat, i: nat)
    requires p <= i < |s| == |t|
    requires (forall k :: 0 <= k < p ==> t[k] == s[k]) && t[p] == s[i]
    requires (forall k :: p < k <= i ==> t[k] == s[k - 1]) && (forall k :: i < k < |s| ==> t[k] == s[k])
    ensures multiset(t) == multiset(s)
  {
    MovedPieces(s, t, p, i);
    CountAlike(s[..p], s[p..i], [s[i]], s[i + 1..]);
  }

  lemma MovedPieces<T>(s: seq<T>, t: seq<T>, p: nat, i: nat)
    requires p <= i < |s| == |t|
    requires (forall k :: 0 <= k < p ==> t[k] == s[k]) && t[p] == s[i]
    requires (forall k :: p < k <= i ==> t[k] == s[k - 1]) && (forall k :: i < k < |s| ==> t[k] == s[k])
    ensures s == s[..p] + s[p..i] + [s[i]] + s[i + 1..]
    ensures t == s[..p] + [s[i]] + s[p..i] + s[i + 1..]
  {
  }

  lemma CountAlike<T>(x: seq<T>, y: seq<T>, e: seq<T>, z: seq<T>)
    ensures multiset(x + y + e + z) == multiset(x + e + y + z)
  {
  }

  /** `now` is `was` with the span at i moved down to p. */
  ghost predicate Shifted(was: seq<Entry>, now: seq<Entry>, p: nat, i: nat) {
    && p <= i < |was| == |now|
    && (forall k :: 0 <= k < p ==> now[k] == was[k])
    && now[p] == was[p].Moved(was[i])
    && (forall k :: p < k <= i ==> now[k] == was[k].Moved(was[k - 1]))
    && (forall k :: i < k < |was| ==> now[k] == was[k])
  }

  /** The inner loop: larger and unused rows move up one place each. */
  method ShiftUp(a: array<Entry>, i: nat) returns (ghost p: nat)
    requires 0 < i < a.Length && a[i].addr != 0
    modifies a
    ensures Shifted(old(a[..]), a[..], p, i)
    ensures p > 0 ==> old(a[p - 1].addr) != 0 && old(a[p - 1].addr) <= old(a[i].addr)
    ensures forall k :: p <= k < i ==> old(a[k].addr) > old(a[i].addr) || old(a[k].addr) == 0
  {
    ghost var was := a[..];
    var key := a[i];
    var j: int := i - 1;
    while j >= 0 && (a[j].addr > key.addr || a[j].addr == 0)
      invariant -1 <= j < i
      invariant forall k :: 0 <= k < a.Length && (k <= j || k > i) ==> a[k] == was[k]
      invariant a[j + 1].permission == was[j + 1].permission
      invariant forall k :: j + 1 < k <= i ==> a[k] == was[k].Moved(was[k - 1])
      invariant forall k :: j < k < i ==> was[k].addr > key.addr || was[k].addr == 0
    {
      a[j + 1] := a[j + 1].Moved(a[j]);
      j := j - 1;
    }
    a[j + 1] := a[j + 1].Moved(key);
    p := j + 1;
  }

  lemma ShiftedSpans(was: seq<Entry>, now: seq<Entry>, p: nat, i: nat)
    requires Shifted(was, now, p, i)
    ensures multiset(Spans(now)) == multiset(Spans(was))
  {
    MovePermutes(Spans(was), Spans(now), p, i);
  }

  lemma ShiftedResult(was: seq<Entry>, now: seq<Entry>, p: nat, i: nat)
    requires Shifted(was, now, p, i) && was[i].addr != 0 && Ordered(was[..i])
    requires p > 0 ==> was[p - 1].addr != 0 && was[p - 1].addr <= was[i].addr
    requires forall k :: p <= k < i ==> was[k].addr > was[i].addr || was[k].addr == 0
    ensures Ordered(now[..i + 1]) && multiset(Spans(now)) == multiset(Spans(was))
    ensures forall k :: 0 <= k < |was| ==> now[k].permission == was[k].permission
  {
    ShiftedSpans(was, now, p, i);
    InsertedOrdered(was, now, p, i);
  }

  /** One insertion: the element at i, not zero, goes before the larger and the unused rows of the prefix. */
  method Insert(a: array<Entry>, i: nat)
    requires 0 < i < a.Length && a[i].addr != 0 && Ordered(a[..i])
    modifies a
    ensures Ordered(a[..i + 1])
    ensures multiset(Spans(a[..])) == multiset(Spans(old(a[..])))
    ensures forall k :: 0 <= k < a.Length ==> a[k].permission == old(a[k].permission)
  {
    ghost var was := a[..];
    ghost var p := ShiftUp(a, i);
    ShiftedResult(was, a[..], p, i);
    assert forall k :: 0 <= k < a.Length ==> a[..][k].permission == was[k].permission;
  }

  lemma InsertedOrdered(was: seq<Entry>, now: seq<Entry>, p: nat, i: nat)
    requires p <= i < |was| == |now| && was[i].addr != 0 && Ordered(was[..i])
    requires forall k :: 0 <= k < p ==> now[k].addr == was[k].addr
    requires now[p].addr == was[i].addr && forall k :: p < k <= i ==> now[k].addr == was[k - 1].addr
    requires p > 0 ==> was[p - 1].addr != 0 && was[p - 1].addr <= was[i].addr
    requires forall k :: p <= k < i ==> was[k].addr > was[i].addr || was[k].addr == 0
    ensures Ordered(now[..i + 1])
  {
    var w := was[..i];
    forall x, y | 0 <= x < y <= i ensures now[y].addr == 0 || (now[x].addr != 0 && now[x].addr <= now[y].addr) {
      var x', y' := if x < p then x else x - 1, if y < p then y else y - 1;
      if x != p && y != p { assert w[x'].addr == now[x].addr && w[y'].addr == now[y].addr; }
      if y == p && x < p - 1 { assert w[x].addr != 0 && w[x].addr <= w[p - 1].addr; }
    }
  }

  /** InsertionSortMemory: the first `sortedLen` rows are used and already ascending. */
  method InsertionSort(a: array<Entry>, sortedLen: nat)
    requires sortedLen <= a.Length && Ordered(a[..sortedLen])
    modifies a
    ensures Ordered(a[..])
    ensures multiset(Spans(a[..])) == multiset(Spans(old(a[..])))
    ensures forall k :: 0 <= k < a.Length ==> a[k].permission == old(a[k].permission)
  {
    var i := sortedLen;
    while i < a.Length
      invariant sortedLen <= i <= a.Length && Ordered(a[..i])
      invariant multiset(Spans(a[..])) == multiset(Spans(old(a[..])))
      invariant forall k :: 0 <= k < a.Length ==> a[k].permission == old(a[k].permission)
    {
      if a[i].addr == 0 || i == 0 {
        assert a[..i + 1] == a[..i] + [a[i]];
      } else {
        Insert(a, i);
      }
      i := i + 1;
    }
    assert a[..i] == a[..];
  }

  /** Rows may be permuted without changing what they cover. */
  lemma PermutedCovers(x: seq<Entry>, y: seq<Entry>)
    requires multiset(Spans(x)) == multiset(Spans(y))
    ensures forall a :: Covered(x, a) <==> Covered(y, a)
    ensures WellFormed(x) <==> WellFormed(y)
  {
    SameSpans(x, y);
    SameSpans(y, x);
  }

  predicate SameSpan(e: Entry, f: Entry) { e.addr == f.addr && e.size == f.size }

  lemma FindSpan(x: seq<Entry>, y: seq<Entry>, i: nat) returns (j: nat)
    requires multiset(Spans(x)) == multiset(Spans(y)) && i < |x|
    ensures j < |y| && SameSpan(x[i], y[j])
  {
    assert Spans(x)[i] in multiset(Spans(y));
    j :| 0 <= j < |Spans(y)| && Spans(y)[j] == Spans(x)[i];
  }

  lemma SameSpans(x: seq<Entry>, y: seq<Entry>)
    requires multiset(Spans(x)) == multiset(Spans(y))
    ensures forall a :: Covered(x, a) ==> Covered(y, a)
    ensures WellFormed(y) ==> WellFormed(x)
  {
    forall a | Covered(x, a) ensures Covered(y, a) {
      var i :| 0 <= i < |x| && x[i].Has(a);
      var j := FindSpan(x, y, i);
      assert y[j].Has(a);
    }
    if WellFormed(y) {
      forall i | 0 <= i < |x| ensures (x[i].addr == 0 ==> x[i].size == 0) && x[i].addr + x[i].size <= UINT64_MAX {
        var j := FindSpan(x, y, i);
      }
    }
  }

  // ------------------------------------------------------------------ merging

  /** Ascending with a gap after each row. */
  ghost predicate Spaced(m: seq<Entry>) {
    forall i, j :: 0 <= i < j < |m| ==> m[i].addr + m[i].size < m[j].addr
  }

  lemma CoveredConcat(x: seq<Entry>, y: seq<Entry>, a: nat)
    ensures Covered(x + y, a) <==> Covered(x, a) || Covered(y, a)
  {
    if Covered(x, a) {
      var i :| 0 <= i < |x| && x[i].Has(a);
      assert (x + y)[i] == x[i];
    }
    if Covered(y, a) {
      var i :| 0 <= i < |y| && y[i].Has(a);
      assert (x + y)[|x| + i] == y[i];
    }
  }

  lemma CoveredOne(e: Entry, a: nat)
    ensures Covered([e], a) <==> e.Has(a)
  {
    if e.Has(a) { assert [e][0].Has(a); }
  }

  /** What the merged rows have to do with the rows read so far. */
  ghost predicate Merged(m: seq<Entry>, read: seq<Entry>, todo: seq<Entry>) {
    && m != [] && Spaced(m) && WellFormed(m)
    && (forall a :: Covered(m, a) <==> Covered(read, a))
    && (forall k :: 0 <= k < |todo| ==> todo[k].addr == 0 || (m[|m| - 1].addr != 0 && m[|m| - 1].addr <= todo[k].addr))
  }

  function Stretched(last: Entry, e: Entry): Entry {
    last.(size := Max(last.addr + last.size, e.addr + e.size) - last.addr)
  }

  /** The row overlaps or touches the last merged one. */
  lemma MergeOverlapping(m: seq<Entry>, read: seq<Entry>, todo: seq<Entry>)
    requires Merged(m, read, todo) && WellFormed(todo) && todo != [] && Ordered(todo)
    requires todo[0].addr <= m[|m| - 1].addr + m[|m| - 1].size
    ensures Merged(m[|m| - 1 := Stretched(m[|m| - 1], todo[0])], read + [todo[0]], todo[1..])
  {
    var last, e := m[|m| - 1], todo[0];
    var front := m[..|m| - 1];
    var m' := m[|m| - 1 := Stretched(last, e)];
    assert m == front + [last] && m' == front + [Stretched(last, e)];
    forall a ensures Covered(m', a) <==> Covered(read + [e], a) {
      CoveredConcat(front, [last], a);
      CoveredConcat(front, [Stretched(last, e)], a);
      CoveredOne(last, a);
      CoveredOne(Stretched(last, e), a);
      CoveredConcat(read, [e], a);
      CoveredOne(e, a);
    }
  }

  /** The row starts past the last merged one. */
  lemma MergeDisjoint(m: seq<Entry>, read: seq<Entry>, todo: seq<Entry>, e: Entry)
    requires Merged(m, read, todo) && WellFormed(todo) && todo != [] && Ordered(todo)
    requires todo[0].addr > m[|m| - 1].addr + m[|m| - 1].size && SameSpan(e, todo[0])
    ensures Merged(m + [e], read + [todo[0]], todo[1..])
  {
    var last := m[|m| - 1];
    forall a ensures Covered(m + [e], a) <==> Covered(read + [todo[0]], a) {
      CoveredConcat(m, [e], a);
      CoveredOne(e, a);
      CoveredConcat(read, [todo[0]], a);
      CoveredOne(todo[0], a);
    }
    forall i | 0 <= i < |m| ensures m[i].addr + m[i].size < e.addr {
      assert i == |m| - 1 || m[i].addr + m[i].size < last.addr;
    }
  }

  /** The first turn of MergeMemory's outer state: one row read, nothing to merge. */
  lemma MergeStart(t: seq<Entry>)
    requires WellFormed(t) && Ordered(t) && t != []
    ensures Merged(t[..1], t[..1], t[1..])
  {
  }

  /** One turn of the merging loop: row i is merged into row `index` or moved behind it. */
  method MergeRow(a: array<Entry>, index: nat, i: nat, ghost was: seq<Entry>) returns (index': nat)
    requires index < i < a.Length == |was| && WellFormed(was) && Ordered(was)
    requires a[i..] == was[i..] && Merged(a[..index + 1], was[..i], was[i..])
    modifies a
    ensures index <= index' <= i && a[i + 1..] == was[i + 1..]
    ensures Merged(a[..index' + 1], was[..i + 1], was[i + 1..])
    ensures forall k :: 0 <= k < a.Length ==> a[k].permission == old(a[k].permission)
  {
    ghost var before := a[..];
    assert a[i] == a[i..][0] && before[..index + 1] == a[..index + 1] && before[i..] == a[i..];
    var curr, last := a[i], a[index];
    if curr.addr <= last.addr + last.size {
      a[index] := Stretched(last, curr);
      index' := index;
      RowStretched(before, was, index, i);
      assert a[..] == before[index := Stretched(last, curr)];
    } else {
      index' := index + 1;
      a[index'] := a[index'].Moved(curr);
      RowAppended(before, was, index, i);
      assert a[..] == before[index' := a[index']];
    }
    assert a[i + 1..] == a[..][i + 1..] && a[..index' + 1] == a[..][..index' + 1];
  }

  lemma RowStretched(t: seq<Entry>, was: seq<Entry>, index: nat, i: nat)
    requires index < i < |t| == |was| && WellFormed(was) && Ordered(was) && t[i..] == was[i..]
    requires Merged(t[..index + 1], was[..i], was[i..]) && t[i].addr <= t[index].addr + t[index].size
    ensures var t' := t[index := Stretched(t[index], t[i])];
            t'[i + 1..] == was[i + 1..] && Merged(t'[..index + 1], was[..i + 1], was[i + 1..])
  {
    NextRow(was, i);
    NextRow(t, i);
    MergeOverlapping(t[..index + 1], was[..i], was[i..]);
    EditedRow(t, index, i, Stretched(t[index], t[i]));
  }

  lemma RowAppended(t: seq<Entry>, was: seq<Entry>, index: nat, i: nat)
    requires index < i < |t| == |was| && WellFormed(was) && Ordered(was) && t[i..] == was[i..]
    requires Merged(t[..index + 1], was[..i], was[i..]) && t[i].addr > t[index].addr + t[index].size
    ensures var t' := t[index + 1 := t[index + 1].Moved(t[i])];
            t'[i + 1..] == was[i + 1..] && Merged(t'[..index + 2], was[..i + 1], was[i + 1..])
  {
    NextRow(was, i);
    NextRow(t, i);
    MergeDisjoint(t[..index + 1], was[..i], was[i..], t[index + 1].Moved(t[i]));
    AppendedRow(t, index, i, t[index + 1].Moved(t[i]));
  }

  lemma NextRow(was: seq<Entry>, i: nat)
    requires i < |was|
    ensures was[..i + 1] == was[..i] + [was[i]] && was[i..][1..] == was[i + 1..] && was[i..][0] == was[i]
  {
  }

  lemma EditedRow(t: seq<Entry>, index: nat, i: nat, e: Entry)
    requires index < i < |t|
    ensures t[index := e][..index + 1] == t[..index + 1][index := e] && t[index := e][i + 1..] == t[i + 1..]
  {
  }

  lemma AppendedRow(t: seq<Entry>, index: nat, i: nat, e: Entry)
    requires index < i < |t|
    ensures t[index + 1 := e][..index + 2] == t[..index + 1] + [e] && t[index + 1 := e][i + 1..] == t[i + 1..]
  {
  }

  /** The merging loop: afterwards the first m rows stand for the whole table. */
  method MergeRows(a: array<Entry>) returns (m: nat)
    requires a.Length > 0 && WellFormed(a[..]) && Ordered(a[..])
    modifies a
    ensures 0 < m <= a.Length && Merged(a[..m], old(a[..]), [])
    ensures forall k :: 0 <= k < a.Length ==> a[k].permission == old(a[k].permission)
  {
    var index := 0;
    var i := 1;
    ghost var was := a[..];
    MergeStart(was);
    while i < a.Length
      invariant index < i <= a.Length && a[i..] == was[i..]
      invariant Merged(a[..index + 1], was[..i], was[i..])
      invariant forall k :: 0 <= k < a.Length ==> a[k].permission == was[k].permission
    {
      index := MergeRow(a, index, i, was);
      i := i + 1;
    }
    assert was[..i] == was && was[i..] == [];
    m := index + 1;
  }

  /** The first m rows ascend with gaps, the rest are unused. */
  ghost predicate Packed(t: seq<Entry>, m: nat) {
    m <= |t| && Spaced(t[..m]) && forall k :: m <= k < |t| ==> t[k].addr == 0 && t[k].size == 0
  }

  /** MergeMemory: the table keeps its union, ascending with gaps, and unused rows are zero. */
  method Merge(a: array<Entry>) returns (ghost m: nat)
    requires WellFormed(a[..]) && Ordered(a[..])
    modifies a
    ensures Packed(a[..], m) && WellFormed(a[..])
    ensures forall x :: Covered(a[..], x) <==> Covered(old(a[..]), x)
    ensures forall k :: 0 <= k < a.Length ==> a[k].permission == old(a[k].permission)
  {
    if a.Length <= 1 {
      m := a.Length;
      return;
    }
    var rows := MergeRows(a);
    m := rows;
    ClearTail(a, rows);
    assert a[..][..m] == a[..m];
    TailCoversNothing(a[..], m);
  }

  method ClearTail(a: array<Entry>, from: nat)
    requires from <= a.Length
    modifies a
    ensures a[..from] == old(a[..from]) && forall k :: from <= k < a.Length ==> a[k].addr == 0 && a[k].size == 0
    ensures forall k :: 0 <= k < a.Length ==> a[k].permission == old(a[k].permission)
  {
    var i := from;
    while i < a.Length
      invariant from <= i <= a.Length && a[..from] == old(a[..from])
      invariant forall k :: from <= k < i ==> a[k].addr == 0 && a[k].size == 0
      invariant forall k :: 0 <= k < a.Length ==> a[k].permission == old(a[k].permission)
    {
      a[i] := Entry(0, 0, a[i].permission);
      i := i + 1;
    }
  }

  lemma TailCoversNothing(t: seq<Entry>, m: nat)
    requires m <= |t| && forall k :: m <= k < |t| ==> t[k].addr == 0 && t[k].size == 0
    ensures forall x :: Covered(t, x) <==> Covered(t[..m], x)
    ensures WellFormed(t[..m]) ==> WellFormed(t)
  {
    assert t == t[..m] + t[m..];
    forall x ensures Covered(t, x) <==> Covered(t[..m], x) {
      CoveredConcat(t[..m], t[m..], x);
    }
    if WellFormed(t[..m]) {
      forall i | 0 <= i < |t| ensures (t[i].addr == 0 ==> t[i].size == 0) && t[i].addr + t[i].size <= UINT64_MAX {
        if i < m { assert t[..m][i] == t[i]; }
      }
    }
  }

  // ------------------------------------------------------------------ checking an access

  /** The bytes of an access that lie in a row. */
  ghost function Meet(addr: nat, size: nat, e: Entry): set<nat> {
    Interval(addr, addr + size) * Interval(e.addr, e.addr + e.size)
  }

  /** Computed without end addresses, so that it cannot wrap. */
  method IntersectionSize(addr: nat, size: nat, e: Entry) returns (n: nat)
    ensures n == |Meet(addr, size, e)|
  {
    assert Meet(addr, size, e) == Interval(Max(addr, e.addr), Min(addr + size, e.addr + e.size));
    if addr < e.addr {
      var prefix := e.addr - addr;
      if size <= prefix { return 0; }
      return Min(size - prefix, e.size);
    }
    var offset := addr - e.addr;
    if offset >= e.size { return 0; }
    return Min(size, e.size - offset);
  }

  predicate Permits(e: Entry, access: Bounds.AccessType) { Bounds.HasPermission(e.permission, access) }

  ghost predicate Grants(t: seq<Entry>, x: nat, access: Bounds.AccessType) {
    exists i :: 0 <= i < |t| && t[i].Has(x) && Permits(t[i], access)
  }

  /** The bytes of the access inside the permitted rows, and outside them. */
  ghost function Inside(t: seq<Entry>, addr: nat, size: nat, access: Bounds.AccessType): set<nat> {
    set x | x in Interval(addr, addr + size) && Grants(t, x, access)
  }

  ghost function Outside(t: seq<Entry>, addr: nat, size: nat, access: Bounds.AccessType): set<nat> {
    set x | x in Interval(addr, addr + size) && !Grants(t, x, access)
  }

  ghost predicate RowsDisjoint(t: seq<Entry>) {
    forall i, j, x: nat :: 0 <= i < j < |t| && t[i].Has(x) ==> !t[j].Has(x)
  }

  lemma PackedIsDisjoint(t: seq<Entry>, m: nat)
    requires Packed(t, m)
    ensures RowsDisjoint(t)
  {
    forall i, j, x: nat | 0 <= i < j < |t| && t[i].Has(x) ensures !t[j].Has(x) {
      if j < m { assert t[..m][i] == t[i] && t[..m][j] == t[j]; }
    }
  }

  lemma GrantsStep(t: seq<Entry>, i: nat, x: nat, access: Bounds.AccessType)
    requires i < |t|
    ensures Grants(t[..i + 1], x, access) <==> Grants(t[..i], x, access) || (t[i].Has(x) && Permits(t[i], access))
  {
    if Grants(t[..i], x, access) {
      var j :| 0 <= j < i && t[..i][j].Has(x) && Permits(t[..i][j], access);
      assert t[..i + 1][j] == t[j];
    }
    if Grants(t[..i + 1], x, access) {
      var j :| 0 <= j < i + 1 && t[..i + 1][j].Has(x) && Permits(t[..i + 1][j], access);
      assert j < i ==> t[..i][j] == t[j];
    }
    if t[i].Has(x) && Permits(t[i], access) { assert t[..i + 1][i] == t[i]; }
  }

  lemma InsideGrows(t: seq<Entry>, i: nat, addr: nat, size: nat, access: Bounds.AccessType)
    requires i < |t|
    ensures Inside(t[..i + 1], addr, size, access)
            == Inside(t[..i], addr, size, access)
               + if Permits(t[i], access) then Meet(addr, size, t[i]) else {}
  {
    var before, after := Inside(t[..i], addr, size, access), Inside(t[..i + 1], addr, size, access);
    var more := if Permits(t[i], access) then Meet(addr, size, t[i]) else {};
    forall x: nat ensures x in after <==> x in before || x in more {
      GrantsStep(t, i, x, access);
    }
    assert after == before + more;
  }

  lemma InsideApart(t: seq<Entry>, i: nat, addr: nat, size: nat, access: Bounds.AccessType)
    requires RowsDisjoint(t) && i < |t|
    ensures Inside(t[..i], addr, size, access) !! Interval(t[i].addr, t[i].addr + t[i].size)
  {
    forall x | x in Inside(t[..i], addr, size, access) ensures !t[i].Has(x) {
      var j :| 0 <= j < i && t[..i][j].Has(x) && Permits(t[..i][j], access);
      assert t[j].Has(x);
    }
  }

  lemma InsideAndOutside(t: seq<Entry>, addr: nat, size: nat, access: Bounds.AccessType)
    ensures |Inside(t, addr, size, access)| + |Outside(t, addr, size, access)| == size
  {
    assert Inside(t, addr, size, access) + Outside(t, addr, size, access) == Interval(addr, addr + size);
    assert Inside(t, addr, size, access) !! Outside(t, addr, size, access);
  }

  lemma InsideStep(t: seq<Entry>, i: nat, addr: nat, size: nat, access: Bounds.AccessType)
    requires RowsDisjoint(t) && i < |t|
    ensures |Inside(t[..i + 1], addr, size, access)| == |Inside(t[..i], addr, size, access)|
            + if Permits(t[i], access) then |Meet(addr, size, t[i])| else 0
  {
    InsideGrows(t, i, addr, size, access);
    InsideApart(t, i, addr, size, access);
    if Permits(t[i], access) {
      Bounds.DisjointSum(Inside(t[..i], addr, size, access), Meet(addr, size, t[i]));
    }
  }

  /** What the loop of the check adds up over the first i rows. */
  ghost function SumOfMeets(t: seq<Entry>, i: nat, addr: nat, size: nat, access: Bounds.AccessType): nat
    requires i <= |t|
  {
    if i == 0 then 0
    else SumOfMeets(t, i - 1, addr, size, access) + if Permits(t[i - 1], access) then |Meet(addr, size, t[i - 1])| else 0
  }

  lemma {:induction false} SumIsInside(t: seq<Entry>, i: nat, addr: nat, size: nat, access: Bounds.AccessType)
    requires RowsDisjoint(t) && i <= |t|
    ensures SumOfMeets(t, i, addr, size, access) == |Inside(t[..i], addr, size, access)| <= size
  {
    InsideAndOutside(t[..i], addr, size, access);
    if i == 0 {
      assert Inside(t[..0], addr, size, access) == {};
    } else {
      SumIsInside(t, i - 1, addr, size, access);
      InsideStep(t, i - 1, addr, size, access);
    }
  }

  predicate MeetsRow(addr: nat, size: nat, e: Entry) {
    size > 0 && e.size > 0 && addr < e.addr + e.size && e.addr < addr + size
  }

  lemma MeetIsNonempty(addr: nat, size: nat, e: Entry)
    ensures |Meet(addr, size, e)| > 0 <==> MeetsRow(addr, size, e)
  {
    assert Meet(addr, size, e) == Interval(Max(addr, e.addr), Min(addr + size, e.addr + e.size));
  }

  /** GmReadWriteCheck up to the peer lookup: the illegal bytes are those outside every permitted row. */
  method CheckAccess(t: seq<Entry>, addr: nat, size: nat, access: Bounds.AccessType)
    returns (illegal: nat, overlapsLocal: bool)
    requires RowsDisjoint(t)
    ensures illegal == |Outside(t, addr, size, access)|
    ensures overlapsLocal <==> exists j :: 0 <= j < |t| && MeetsRow(addr, size, t[j])
  {
    var sum: nat;
    sum, overlapsLocal := SumRows(t, addr, size, access);
    SumIsInside(t, |t|, addr, size, access);
    assert t[..|t|] == t;
    InsideAndOutside(t, addr, size, access);
    illegal := size - sum;
  }

  method SumRows(t: seq<Entry>, addr: nat, size: nat, access: Bounds.AccessType) returns (sum: nat, overlapsLocal: bool)
    ensures sum == SumOfMeets(t, |t|, addr, size, access)
    ensures overlapsLocal <==> exists j :: 0 <= j < |t| && MeetsRow(addr, size, t[j])
  {
    overlapsLocal := false;
    sum := 0;
    var i := 0;
    while i < |t|
      invariant 0 <= i <= |t| && sum == SumOfMeets(t, i, addr, size, access)
      invariant overlapsLocal <==> exists j :: 0 <= j < i && MeetsRow(addr, size, t[j])
    {
      var met;
      sum, met := AddRow(t, i, addr, size, access, sum);
      overlapsLocal := overlapsLocal || met;
      i := i + 1;
    }
  }

  method AddRow(t: seq<Entry>, i: nat, addr: nat, size: nat, access: Bounds.AccessType, sum: nat) returns (sum': nat, met: bool)
    requires i < |t| && sum == SumOfMeets(t, i, addr, size, access)
    ensures sum' == SumOfMeets(t, i + 1, addr, size, access)
    ensures met <==> MeetsRow(addr, size, t[i])
  {
    var overlap := IntersectionSize(addr, size, t[i]);
    MeetIsNonempty(addr, size, t[i]);
    met, sum' := overlap > 0, sum;
    if Permits(t[i], access) { sum' := sum' + overlap; }
  }

  // ------------------------------------------------------------------ device and host agree

  /** The host's bounds built from the same rows. */
  method HostBounds(t: seq<Entry>, p: bv32) returns (b: Bounds.DiscreteBounds)
    requires forall i :: 0 <= i < |t| ==> t[i].addr + t[i].size <= GLOBAL_MASK
    ensures fresh(b) && b.Valid()
    ensures forall x: nat, q :: Bounds.Maps(b.ranges, x, q) <==> q == p && Covered(t, x)
  {
    b := new Bounds.DiscreteBounds();
    var i := 0;
    while i < |t|
      invariant 0 <= i <= |t| && fresh(b) && b.Valid()
      invariant forall x: nat, q :: Bounds.Maps(b.ranges, x, q) <==> q == p && Covered(t[..i], x)
    {
      ghost var was := b.ranges;
      var _ := b.Add(t[i].addr, t[i].size, p);
      assert t[..i + 1] == t[..i] + [t[i]];
      forall x: nat, q ensures Bounds.Maps(b.ranges, x, q) <==> q == p && Covered(t[..i + 1], x) {
        CoveredConcat(t[..i], [t[i]], x);
        CoveredOne(t[i], x);
        Bounds.UniformNotDropped(was, t[i].addr, t[i].size, p, x);
      }
      i := i + 1;
    }
    assert t[..i] == t;
  }

  lemma SameAnswer(rs: seq<Bounds.Range>, was: seq<Entry>, t: seq<Entry>, p: bv32, addr: nat, size: nat, access: Bounds.AccessType)
    requires Bounds.HasPermission(p, access) && forall i :: 0 <= i < |t| ==> t[i].permission == p
    requires forall x: nat, q :: Bounds.Maps(rs, x, q) <==> q == p && Covered(was, x)
    requires forall x :: Covered(t, x) <==> Covered(was, x)
    ensures Bounds.Lacking(rs, addr, size, access) == Outside(t, addr, size, access)
  {
    forall x: nat ensures Bounds.Grants(rs, x, access) <==> Grants(t, x, access) {
      if Bounds.Grants(rs, x, access) {
        var i :| 0 <= i < |rs| && rs[i].Has(x) && Bounds.HasPermission(rs[i].permission, access);
        assert Bounds.Maps(rs, x, rs[i].permission);
        var j :| 0 <= j < |t| && t[j].Has(x);
        assert Permits(t[j], access);
      }
      if Grants(t, x, access) {
        var j :| 0 <= j < |t| && t[j].Has(x) && Permits(t[j], access);
        assert Covered(t, x);
        assert Bounds.Maps(rs, x, p);
        var i :| 0 <= i < |rs| && rs[i].Has(x) && rs[i].permission == p;
        assert Bounds.HasPermission(rs[i].permission, access);
      }
    }
  }

  /**
   * Sorting, merging and summing up on the device gives the answer of the host's bounds check built from
   * the same rows, for every access and every table whose rows all grant it.
   */
  method DeviceAgreesWithHost(a: array<Entry>, sortedLen: nat, p: bv32, addr: nat, size: nat, access: Bounds.AccessType)
    returns (device: nat, host: nat)
    requires sortedLen <= a.Length && Ordered(a[..sortedLen]) && WellFormed(a[..]) && size > 0
    requires Bounds.HasPermission(p, access)
    requires forall i :: 0 <= i < a.Length ==> a[i].permission == p && a[i].addr + a[i].size <= GLOBAL_MASK
    modifies a
    ensures device == host
    ensures device == |set x | x in Interval(addr, addr + size) && !Covered(old(a[..]), x)|
  {
    ghost var was := a[..];
    var b := HostBounds(a[..], p);
    InsertionSort(a, sortedLen);
    PermutedCovers(was, a[..]);
    ghost var m := Merge(a);
    var t := a[..];
    PackedIsDisjoint(t, m);
    var local: bool;
    device, local := CheckAccess(t, addr, size, access);
    host := b.Check(addr, size, access);
    SameAnswer(b.ranges, was, t, p, addr, size, access);
    forall x: nat ensures Covered(was, x) <==> Grants(t, x, access) {
      if Covered(t, x) {
        var j :| 0 <= j < |t| && t[j].Has(x);
        assert Permits(t[j], access);
      }
      if Grants(t, x, access) { assert Covered(t, x); }
    }
    assert Outside(t, addr, size, access) == set x | x in Interval(addr, addr + size) && !Covered(was, x);
  }
}
