// The IAS zone table (zcl_ss.c): a linked list of zones, and an allocator that searches 8-bit zone ids cyclically.
module ZoneTables {
  const ZCL_SS_MAX_ZONES := 256
  const ZCL_SS_MAX_ZONE_ID := 254

  const SUCCESS := 0
  const NOT_SUPPORTED := 1
  const TOO_MANY_ZONES := 3

  predicate Supported(zoneType: nat) {
    zoneType in [0x0000, 0x000D, 0x0015, 0x0028, 0x002A, 0x002B, 0x002C, 0x002D, 0x010F, 0x0115, 0x021D, 0x0225,
      0x0226, 0x0229]
  }

  // The standard control interface, sensors, remote controls, key fobs, keypads, warning devices and repeaters.
  lemma SupportedTypes(zoneType: nat)
    ensures Supported(zoneType) <==>
      zoneType == 0 || zoneType == 13 || zoneType == 21 || 40 == zoneType || 42 <= zoneType <= 45 || zoneType == 271 ||
      zoneType == 277 || zoneType == 541 || zoneType == 549 || zoneType == 550 || zoneType == 553
  {}

  class ZoneItem {
    var next: ZoneItem?
    const endpoint: nat
    const zoneId: nat
    const zoneType: nat

    constructor (endpoint: nat, zoneId: nat, zoneType: nat)
      ensures next == null && this.endpoint == endpoint && this.zoneId == zoneId && this.zoneType == zoneType
    {
      next := null;
      this.endpoint, this.zoneId, this.zoneType := endpoint, zoneId, zoneType;
    }
  }

  // The id that comes k places after z in the order of the search, which includes the unusable id 254.
  function After(z: nat, k: nat): nat
    requires z <= ZCL_SS_MAX_ZONE_ID && k <= ZCL_SS_MAX_ZONE_ID + 1
  { if z + k <= ZCL_SS_MAX_ZONE_ID then z + k else z + k - (ZCL_SS_MAX_ZONE_ID + 1) }

  // The id tried after z, rolling over to 0.
  function Following(z: nat): (y: nat)
    requires z <= ZCL_SS_MAX_ZONE_ID
    ensures y == After(z, 1)
  { if z + 1 > ZCL_SS_MAX_ZONE_ID then 0 else z + 1 }

  predicate Free(ids: seq<nat>, z: nat) { z < ZCL_SS_MAX_ZONE_ID && z !in ids }

  predicate Distinct(ids: seq<nat>) {
    (forall i :: 0 <= i < |ids| ==> ids[i] < ZCL_SS_MAX_ZONE_ID) &&
    forall i, j :: 0 <= i < j < |ids| ==> ids[i] != ids[j]
  }

  lemma DistinctMore(ids: seq<nat>, z: nat)
    requires Distinct(ids)
    ensures Distinct(ids + [z]) <==> Free(ids, z)
  {
    var more := ids + [z];
    if Distinct(more) {
      assert more[|ids|] == z;
      forall i | 0 <= i < |ids| ensures ids[i] != z { assert more[i] != more[|ids|]; }
    }
  }

  // A table of distinct ids has room for another exactly when it holds fewer than 254.
  lemma RoomForAnother(ids: seq<nat>)
    requires Distinct(ids)
    ensures |ids| <= ZCL_SS_MAX_ZONE_ID
    ensures (exists z :: Free(ids, z)) <==> |ids| < ZCL_SS_MAX_ZONE_ID
  {
    var all := UpTo(ZCL_SS_MAX_ZONE_ID);
    var used := set i | 0 <= i < |ids| :: ids[i];
    UsedSize(ids, used);
    SubsetSize(used, all);
    if |ids| < ZCL_SS_MAX_ZONE_ID {
      var z :| z in all && z !in used;
      assert Free(ids, z);
    } else {
      forall z: nat ensures !Free(ids, z) {
        if Free(ids, z) { Crowded(used, all, z); }
      }
    }
  }

  lemma Crowded(used: set<nat>, all: set<nat>, z: nat)
    requires used <= all && z in all && z !in used
    ensures |used| < |all|
  {
    assert used <= all - {z};
    SubsetSize(used, all - {z});
  }

  // The numbers below n.
  ghost function UpTo(n: nat): (all: set<nat>)
    ensures |all| == n && forall z: nat :: z in all <==> z < n
  { if n == 0 then {} else UpTo(n - 1) + {n - 1} }

  lemma {:induction false} UsedSize(ids: seq<nat>, used: set<nat>)
    requires used == set i | 0 <= i < |ids| :: ids[i]
    requires forall i, j :: 0 <= i < j < |ids| ==> ids[i] != ids[j]
    ensures |used| == |ids|
  {
    if ids != [] {
      var n := |ids| - 1;
      var fewer := set i | 0 <= i < n :: ids[i];
      assert fewer == set i | 0 <= i < n :: ids[..n][i];
      UsedSize(ids[..n], fewer);
      assert used == fewer + {ids[n]};
    }
  }

  lemma {:induction false} SubsetSize(a: set<nat>, b: set<nat>)
    requires a <= b
    ensures |a| <= |b| && (|a| < |b| ==> exists z :: z in b && z !in a)
  {
    if a != {} {
      var x :| x in a;
      SubsetSize(a - {x}, b - {x});
    }
  }

  // The search order comes back to its start after 255 places, having passed every id once.
  lemma EveryIdPassed(z: nat, y: nat)
    requires z <= ZCL_SS_MAX_ZONE_ID && y <= ZCL_SS_MAX_ZONE_ID
    ensures exists k :: 0 <= k <= ZCL_SS_MAX_ZONE_ID && After(z, k) == y
    ensures After(z, ZCL_SS_MAX_ZONE_ID + 1) == z
  {
    var k := if y >= z then y - z else y + ZCL_SS_MAX_ZONE_ID + 1 - z;
    assert After(z, k) == y;
  }

  // The places before the first free one in the order of the search, counting up and over from 254 to 0.
  lemma NearestFree(ids: seq<nat>, last: nat, r: nat, steps: nat)
    requires last <= ZCL_SS_MAX_ZONE_ID && steps <= ZCL_SS_MAX_ZONE_ID + 1 && r == After(last, steps) && Free(ids, r)
    requires forall k :: 0 <= k < steps ==> !Free(ids, After(last, k))
    ensures r < 254 && r !in ids
    ensures forall z: nat :: (if last <= r then last <= z < r else z < r || z >= last) ==> z >= 254 || z in ids
  {
    forall z: nat | z < 254 && if last <= r then last <= z < r else z < r || z >= last ensures z in ids {
      var k := if z >= last then z - last else z + ZCL_SS_MAX_ZONE_ID + 1 - last;
      assert After(last, k) == z;
    }
  }

  class ZoneTable {
    var first: ZoneItem?
    var nextAvailZoneId: nat
    ghost var items: seq<ZoneItem>

    ghost predicate Linked()
      reads this, items
    {
      (first == null <==> items == []) && (items != [] ==> first == items[0] && items[|items| - 1].next == null) &&
      forall i :: 0 <= i < |items| - 1 ==> items[i].next == items[i + 1]
    }

    ghost function Ids(): (ids: seq<nat>)
      reads this
      ensures |ids| == |items| && forall i :: 0 <= i < |ids| ==> ids[i] == items[i].zoneId
    { seq(|items|, i requires 0 <= i < |items| reads this => items[i].zoneId) }

    ghost predicate Valid()
      reads this, items
    { Linked() && Distinct(Ids()) && nextAvailZoneId < ZCL_SS_MAX_ZONE_ID }

    constructor ()
      ensures Valid() && items == [] && nextAvailZoneId == 0
    {
      first, nextAvailZoneId, items := null, 0, [];
    }

    // zclSS_CountAllZones: the 8-bit count never wraps
    method CountAllZones() returns (cnt: nat)
      requires Valid()
      ensures cnt == |items| <= ZCL_SS_MAX_ZONE_ID
    {
      RoomForAnother(Ids());
      var loop := first;
      cnt := 0;
      while loop != null
        invariant cnt <= |items| && loop == if cnt < |items| then items[cnt] else null
        decreases |items| - cnt
      {
        loop := loop.next;
        cnt := (cnt + 1) % 256;
      }
    }

    // zclSS_ZoneIDAvailable
    method ZoneIdAvailable(zoneId: nat) returns (available: bool)
      requires Valid()
      ensures available <==> Free(Ids(), zoneId)
    {
      if zoneId < ZCL_SS_MAX_ZONE_ID {
        var loop := first;
        ghost var i := 0;
        while loop != null
          invariant 0 <= i <= |items| && loop == if i < |items| then items[i] else null
          invariant forall j :: 0 <= j < i ==> items[j].zoneId != zoneId
          decreases |items| - i
        {
          if loop.zoneId == zoneId {
            assert Ids()[i] == zoneId;
            return false;
          }
          loop := loop.next;
          i := i + 1;
        }
        return true;
      }
      return false;
    }

    // zclSS_GetNextFreeZoneID: the first free id from the last one handed out on, or 255 when none is free.
    // Steps counts the ids tried after the first.
    method GetNextFreeZoneId() returns (r: nat, ghost steps: nat)
      requires Valid()
      modifies this`nextAvailZoneId
      ensures Valid() && Ids() == old(Ids()) && steps <= ZCL_SS_MAX_ZONE_ID + 1
      ensures r <= ZCL_SS_MAX_ZONE_ID <==> exists z :: Free(Ids(), z)
      ensures r <= ZCL_SS_MAX_ZONE_ID ==> Free(Ids(), r) && nextAvailZoneId == r == After(old(nextAvailZoneId), steps)
      ensures r <= ZCL_SS_MAX_ZONE_ID ==> forall k :: 0 <= k < steps ==> !Free(Ids(), After(old(nextAvailZoneId), k))
      ensures r > ZCL_SS_MAX_ZONE_ID ==> r == 255 && nextAvailZoneId == old(nextAvailZoneId)
      ensures var last := old(nextAvailZoneId);
        r <= ZCL_SS_MAX_ZONE_ID ==>
          r < 254 && r !in Ids() &&
          forall z: nat :: (if last <= r then last <= z < r else z < r || z >= last) ==> z >= 254 || z in Ids()
    {
      steps := 0;
      ghost var last := nextAvailZoneId;
      var available := ZoneIdAvailable(nextAvailZoneId);
      if !available {
        var zoneId;
        zoneId, steps := NextAvailable();
        if zoneId == nextAvailZoneId {
          NoneFree();
          return ZCL_SS_MAX_ZONE_ID + 1, steps;
        }
        nextAvailZoneId := zoneId;
      }
      assert Free(Ids(), nextAvailZoneId);
      NearestFree(Ids(), last, nextAvailZoneId, steps);
      return nextAvailZoneId, steps;
    }

    // The search after the last id handed out, which is taken: it comes back to that id if no other is free.
    method NextAvailable() returns (zoneId: nat, ghost steps: nat)
      requires Valid() && !Free(Ids(), nextAvailZoneId)
      ensures 1 <= steps <= ZCL_SS_MAX_ZONE_ID + 1 && zoneId == After(nextAvailZoneId, steps)
      ensures forall k :: 0 <= k < steps ==> !Free(Ids(), After(nextAvailZoneId, k))
      ensures if zoneId == nextAvailZoneId then steps == ZCL_SS_MAX_ZONE_ID + 1 else Free(Ids(), zoneId)
    {
      zoneId := Following(nextAvailZoneId);
      steps := 1;
      var available := ZoneIdAvailable(zoneId);
      while zoneId != nextAvailZoneId && !available
        invariant 1 <= steps <= ZCL_SS_MAX_ZONE_ID + 1 && zoneId == After(nextAvailZoneId, steps)
        invariant available <==> Free(Ids(), zoneId)
        invariant forall k :: 0 <= k < steps ==> !Free(Ids(), After(nextAvailZoneId, k))
        decreases ZCL_SS_MAX_ZONE_ID + 1 - steps
      {
        zoneId := Following(zoneId);
        steps := steps + 1;
        available := ZoneIdAvailable(zoneId);
      }
    }

    lemma NoneFree()
      requires Valid() && forall k :: 0 <= k <= ZCL_SS_MAX_ZONE_ID ==> !Free(Ids(), After(nextAvailZoneId, k))
      ensures forall z :: !Free(Ids(), z)
    {
      forall z: nat ensures !Free(Ids(), z) {
        if z <= ZCL_SS_MAX_ZONE_ID { EveryIdPassed(nextAvailZoneId, z); }
      }
    }

    // zclSS_AddZone: appends to the list
    method AddZone(endpoint: nat, zoneId: nat, zoneType: nat)
      requires Linked()
      modifies this, items
      ensures Linked() && nextAvailZoneId == old(nextAvailZoneId) && Ids() == old(Ids()) + [zoneId]
      ensures old(Valid()) ==> (Valid() <==> Free(old(Ids()), zoneId))
      ensures |items| == |old(items)| + 1 && items[..|old(items)|] == old(items) && fresh(items[|old(items)|])
      ensures var z := items[|old(items)|]; z.endpoint == endpoint && z.zoneId == zoneId && z.zoneType == zoneType
    {
      var item := new ZoneItem(endpoint, zoneId, zoneType);
      if first == null {
        first := item;
      } else {
        var loop := first;
        ghost var i := 0;
        while loop.next != null
          invariant 0 <= i < |items| && loop == items[i]
          decreases |items| - i
        {
          loop := loop.next;
          i := i + 1;
        }
        EndIsLast(i);
        LastOnce();
        loop.next := item;
      }
      ghost var ids := Ids();
      items := items + [item];
      assert Ids() == ids + [zoneId];
      if Distinct(ids) { DistinctMore(ids, zoneId); }
      hide Distinct, Free;
    }

    // Only the last zone has no successor.
    lemma EndIsLast(i: nat)
      requires Linked() && i < |items|
      ensures items[i].next == null <==> i == |items| - 1
    {
      if i < |items| - 1 { assert items[i].next == items[i + 1]; }
    }

    // The end of the list occurs in it once.
    lemma LastOnce()
      requires Linked()
      ensures forall i :: 0 <= i < |items| - 1 ==> items[i] != items[|items| - 1]
    {
      forall i | 0 <= i < |items| - 1 ensures items[i] != items[|items| - 1] {
        assert items[i].next == items[i + 1];
      }
    }

    // An enrol request: it succeeds exactly when the type is supported and fewer than 254 zones are held.
    method EnrollRequest(endpoint: nat, zoneType: nat) returns (responseCode: nat)
      requires Valid()
      modifies this, items
      ensures Valid()
      ensures responseCode ==
        if !Supported(zoneType) then 0x01 else if |old(items)| < 254 then 0x00 else 0x03
      ensures responseCode == SUCCESS ==> |items| == |old(items)| + 1 && items[..|old(items)|] == old(items)
      ensures responseCode == SUCCESS ==>
        var z := items[|old(items)|]; z.endpoint == endpoint && z.zoneType == zoneType && z.zoneId == nextAvailZoneId
      ensures responseCode != SUCCESS ==> items == old(items) && nextAvailZoneId == old(nextAvailZoneId)
    {
      RoomForAnother(Ids());
      if Supported(zoneType) {
        var count := CountAllZones();
        var zoneId: nat := ZCL_SS_MAX_ZONE_ID + 1;
        ghost var steps: nat := 0;
        if count < ZCL_SS_MAX_ZONES - 1 { zoneId, steps := GetNextFreeZoneId(); }
        if count < ZCL_SS_MAX_ZONES - 1 && zoneId <= ZCL_SS_MAX_ZONE_ID {
          AddZone(endpoint, zoneId, zoneType);
          responseCode := SUCCESS;
        } else {
          responseCode := TOO_MANY_ZONES;
        }
      } else {
        responseCode := NOT_SUPPORTED;
      }
    }
  }
}
