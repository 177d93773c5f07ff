/**
 * Whether a peer device's memory covers an access: for each device that occurs in the table, the covered
 * prefix of the access is pushed forward, round by round, by the range that reaches furthest.
 */
module PeerCover {
  import opened Intervals
  import Bounds = DiscreteBounds
  import Device = DeviceTable

  datatype Peer = Peer(addr: nat, size: nat, permission: bv32, device: int)

  /** The range belongs to the device, permits the access and does not wrap. */
  predicate Usable(p: Peer, device: int, access: Bounds.AccessType) {
    p.device == device && p.addr + p.size <= UINT64_MAX && Bounds.HasPermission(p.permission, access)
  }

  predicate Covers(p: Peer, device: int, access: Bounds.AccessType, x: nat) {
    Usable(p, device, access) && p.addr <= x < p.addr + p.size
  }

  ghost predicate ByteCovered(t: seq<Peer>, device: int, access: Bounds.AccessType, x: nat) {
    exists i :: 0 <= i < |t| && Covers(t[i], device, access, x)
  }

  ghost predicate AllCovered(t: seq<Peer>, device: int, access: Bounds.AccessType, lo: nat, hi: nat) {
    forall x :: lo <= x < hi ==> ByteCovered(t, device, access, x)
  }

  /** One round: the furthest end among the usable ranges that contain `covered`, or `covered` itself. */
  method Furthest(t: seq<Peer>, device: int, access: Bounds.AccessType, covered: nat) returns (furthest: nat)
    ensures covered <= furthest
    ensures furthest == covered <==> !ByteCovered(t, device, access, covered)
    ensures AllCovered(t, device, access, covered, furthest)
  {
    furthest := covered;
    var i := 0;
    while i < |t|
      invariant 0 <= i <= |t| && covered <= furthest
      invariant furthest == covered <==> forall j :: 0 <= j < i ==> !Covers(t[j], device, access, covered)
      invariant furthest > covered ==>
                  exists j :: 0 <= j < i && Covers(t[j], device, access, covered) && furthest == t[j].addr + t[j].size
    {
      var m := t[i];
      if m.device == device && m.size <= UINT64_MAX - m.addr && Bounds.HasPermission(m.permission, access)
         && m.addr <= covered < m.addr + m.size && m.addr + m.size > furthest {
        furthest := m.addr + m.size;
        assert Covers(t[i], device, access, covered);
      }
      i := i + 1;
    }
    if furthest > covered {
      ghost var j :| 0 <= j < i && Covers(t[j], device, access, covered) && furthest == t[j].addr + t[j].size;
      forall x | covered <= x < furthest ensures ByteCovered(t, device, access, x) {
        assert Covers(t[j], device, access, x);
      }
    }
  }

  /** The rounds for one device end because each extends the prefix or is the last. */
  method DeviceCovers(t: seq<Peer>, device: int, access: Bounds.AccessType, addr: nat, end: nat) returns (r: bool)
    requires addr <= end
    ensures r <==> AllCovered(t, device, access, addr, end)
  {
    var covered := addr;
    while covered < end
      invariant addr <= covered
      invariant AllCovered(t, device, access, addr, covered)
      decreases end - covered
    {
      var furthest := Furthest(t, device, access, covered);
      if furthest == covered {
        assert !ByteCovered(t, device, access, covered);
        return false;
      }
      covered := furthest;
    }
    r := true;
  }

  /** The device's ranges together cover every byte of the access. */
  ghost predicate CoversAccess(t: seq<Peer>, device: int, access: Bounds.AccessType, addr: nat, size: nat) {
    AllCovered(t, device, access, addr, addr + size)
  }

  /** A device that covers a non-empty access occurs in the table. */
  lemma CoveringDeviceOccurs(t: seq<Peer>, access: Bounds.AccessType, addr: nat, size: nat)
    requires size > 0
    ensures (exists d :: CoversAccess(t, d, access, addr, size)) ==>
            exists i :: 0 <= i < |t| && CoversAccess(t, t[i].device, access, addr, size)
  {
    if exists d :: CoversAccess(t, d, access, addr, size) {
      var d :| CoversAccess(t, d, access, addr, size);
      assert ByteCovered(t, d, access, addr);
      var i :| 0 <= i < |t| && Covers(t[i], d, access, addr);
      assert CoversAccess(t, t[i].device, access, addr, size);
    }
  }

  /**
   * PeerCovers: some single device covers the access, for any order and overlap of the entries; an empty
   * or wrapping access is never covered.
   */
  method PeerCovers(t: seq<Peer>, addr: nat, size: nat, access: Bounds.AccessType) returns (r: bool)
    requires addr <= UINT64_MAX
    ensures r <==> size > 0 && addr + size <= UINT64_MAX && exists d :: CoversAccess(t, d, access, addr, size)
  {
    if size == 0 || size > UINT64_MAX - addr { return false; }
    var candidate := 0;
    while candidate < |t|
      invariant 0 <= candidate <= |t|
      invariant forall i :: 0 <= i < candidate ==> !CoversAccess(t, t[i].device, access, addr, size)
    {
      r := DeviceCovers(t, t[candidate].device, access, addr, addr + size);
      if r {
        assert CoversAccess(t, t[candidate].device, access, addr, size);
        return;
      }
      candidate := candidate + 1;
    }
    r := false;
    CoveringDeviceOccurs(t, access, addr, size);
  }

  /**
   * GmReadWriteCheck as a whole: the bytes outside every permitted row are reported, unless no row meets the
   * access at all and some single device covers it.
   */
  method GmReadWriteCheck(t: seq<Device.Entry>, peers: seq<Peer>, addr: nat, size: nat, access: Bounds.AccessType)
    returns (illegal: nat, report: bool)
    requires Device.RowsDisjoint(t) && addr <= UINT64_MAX
    ensures illegal == if Excused(t, peers, addr, size, access) then 0 else |Device.Outside(t, addr, size, access)|
    ensures report <==> illegal > 0
  {
    var overlapsLocal;
    illegal, overlapsLocal := Device.CheckAccess(t, addr, size, access);
    if illegal > 0 && !overlapsLocal {
      var covered := PeerCovers(peers, addr, size, access);
      if covered { illegal := 0; }
    }
    report := illegal > 0;
  }

  /** The access touches no local row and lies in one device's permitted memory. */
  ghost predicate Excused(t: seq<Device.Entry>, peers: seq<Peer>, addr: nat, size: nat, access: Bounds.AccessType) {
    && (forall j :: 0 <= j < |t| ==> !Device.MeetsRow(addr, size, t[j]))
    && size > 0 && addr + size <= UINT64_MAX && exists d :: CoversAccess(peers, d, access, addr, size)
  }
}
