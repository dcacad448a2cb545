/** The drone fetcher and the violation store of the backend: the batch of
    currently violating drones, the module-level dictionary
    `recentViolations`, its update on each tick and its reduction to one
    closest violation per drone. */
module GetViolatingDrones {
  import opened Records
  import opened Distance
  import opened History

  /** A drone of the snapshot, its position already reduced to the distance
      to the nest in hundredths of a metre. */
  datatype Drone = Drone(serialNumber: string, dist: nat)

  /** The outcome of fetching and parsing the drone snapshot: a capture with
      its snapshot time in milliseconds, or any failure of the fetch, of the
      status check or of the parse. */
  datatype DroneReport = Unavailable | Capture(timestamp: int, drones: seq<Drone>)

  /** The outcome of one pilot request: the pilot, a response whose status is
      not OK (the lookup gives `null`), or a rejected request (a network or
      JSON error, which rejects the whole `Promise.all`). */
  datatype PilotResponse = Found(pilot: Pilot) | NotOk | Rejected

  /** `filter(drone => drone.distToNest < 100)`, in snapshot order. */
  function Violating(drones: seq<Drone>): seq<Drone>
  {
    if drones == [] then []
    else Violating(drones[..|drones| - 1])
         + (if drones[|drones| - 1].dist < NoFlyRadius then [drones[|drones| - 1]] else [])
  }

  /** The filter keeps exactly the drones strictly inside the radius (one at
      exactly 100 m is not violating), each as often as it occurs. */
  lemma {:induction false} ViolatingCounts(drones: seq<Drone>, d: Drone)
    ensures multiset(Violating(drones))[d] == if d.dist < NoFlyRadius then multiset(drones)[d] else 0
  {
    if drones != [] {
      var prefix, last := drones[..|drones| - 1], drones[|drones| - 1];
      ViolatingCounts(prefix, d);
      assert drones == prefix + [last];
      assert multiset(drones) == multiset(prefix) + multiset{last};
      var tail := if last.dist < NoFlyRadius then [last] else [];
      assert Violating(drones) == Violating(prefix) + tail;
      assert multiset(Violating(drones)) == multiset(Violating(prefix)) + multiset(tail);
    }
  }

  /** The filter keeps snapshot order: it distributes over concatenation. */
  lemma {:induction false} ViolatingConcat(a: seq<Drone>, b: seq<Drone>)
    ensures Violating(a + b) == Violating(a) + Violating(b)
  {
    if b != [] {
      assert (a + b)[..|a + b| - 1] == a + b[..|b| - 1];
      ViolatingConcat(a, b[..|b| - 1]);
    } else {
      assert a + b == a;
    }
  }

  lemma ViolatingInside(drones: seq<Drone>)
    ensures forall d :: d in Violating(drones) ==> d in drones && d.dist < NoFlyRadius
  {
    forall d | d in Violating(drones)
      ensures d in drones && d.dist < NoFlyRadius
    {
      ViolatingCounts(drones, d);
      assert multiset(Violating(drones))[d] > 0;
    }
  }

  /** The pilot stored in a record: the fetched pilot, or `null`. */
  function PilotOrNull(response: PilotResponse): Option<Pilot>
  {
    if response.Found? then Some(response.pilot) else None
  }

  /** `getCurrentlyViolatingDrones`: the violating drones, each paired by
      index with the response to its pilot request; any failure of the drone
      fetch, or any rejected pilot request, gives the empty batch. */
  function CurrentlyViolating(report: DroneReport, pilotOf: string -> PilotResponse): seq<Violation>
  {
    match report
    case Unavailable => []
    case Capture(timestamp, drones) =>
      var violating := Violating(drones);
      var pilots := seq(|violating|, i requires 0 <= i < |violating| => pilotOf(violating[i].serialNumber));
      if exists i :: 0 <= i < |pilots| && pilots[i].Rejected? then []
      else
        seq(|violating|, i requires 0 <= i < |violating| =>
          Violation(violating[i].serialNumber, timestamp, violating[i].dist, PilotOrNull(pilots[i])))
  }

  /** The batch is empty when the snapshot is unavailable or a pilot request is
      rejected. Otherwise it has one record per violating drone, in snapshot
      order, stamped with the snapshot time, with the drone's serial and
      distance and its pilot, `null` exactly when the lookup was not OK. */
  lemma CurrentlyViolatingSpec(report: DroneReport, pilotOf: string -> PilotResponse)
    ensures report.Unavailable? ==> CurrentlyViolating(report, pilotOf) == []
    ensures forall v :: v in CurrentlyViolating(report, pilotOf) ==>
              v.dist < NoFlyRadius && report.Capture? && v.timestamp == report.timestamp
    ensures report.Capture? ==>
              var violating := Violating(report.drones);
              var batch := CurrentlyViolating(report, pilotOf);
              if exists d :: d in violating && pilotOf(d.serialNumber).Rejected? then batch == []
              else
                && |batch| == |violating|
                && forall i :: 0 <= i < |batch| ==>
                     && batch[i].serialNumber == violating[i].serialNumber
                     && batch[i].timestamp == report.timestamp
                     && batch[i].dist == violating[i].dist
                     && batch[i].pilot == PilotOrNull(pilotOf(violating[i].serialNumber))
                     && (batch[i].pilot == None <==> !pilotOf(violating[i].serialNumber).Found?)
  {
    if report.Capture? {
      var violating := Violating(report.drones);
      ViolatingInside(report.drones);
      if exists d :: d in violating && pilotOf(d.serialNumber).Rejected? {
        var d :| d in violating && pilotOf(d.serialNumber).Rejected?;
        var i :| 0 <= i < |violating| && violating[i] == d;
      }
    }
  }

  /** Of a drone at 50 m and one at 150 m only the first is violating; with
      its pilot lookup failing with a non-OK status it is still reported,
      with a `null` pilot. */
  lemma NearDroneOnly(timestamp: int, pilotOf: string -> PilotResponse)
    requires pilotOf("SN-A").NotOk?
    ensures CurrentlyViolating(Capture(timestamp, [Drone("SN-A", 5000), Drone("SN-B", 15000)]), pilotOf)
            == [Violation("SN-A", timestamp, 5000, None)]
  {
    var drones := [Drone("SN-A", 5000), Drone("SN-B", 15000)];
    assert drones[..1] == [Drone("SN-A", 5000)];
    assert drones[..1][..0] == [];
    assert Violating(drones) == [Drone("SN-A", 5000)];
  }

  /** The module-level dictionary `recentViolations`: serial number to the
      drone's violation records of the last ten minutes. */
  class RecentViolations {
    var order: seq<string>
    var lists: map<string, seq<Violation>>

    ghost predicate Valid()
      reads this
    {
      WellFormed(Table(order, lists))
    }

    function Contents(): Table
      reads this
    {
      Table(order, lists)
    }

    /** `let recentViolations = {}` */
    constructor()
      ensures Valid() && Contents() == Empty
    {
      order := [];
      lists := map[];
    }

    /** The first loop of the update: push each record onto its serial's list,
        creating the key when there is none. */
    method MergeBatch(batch: seq<Violation>)
      requires Valid()
      modifies this
      ensures Valid() && Contents() == Merge(old(Contents()), batch)
    {
      for i := 0 to |batch|
        invariant Valid()
        invariant Contents() == Merge(old(Contents()), batch[..i])
      {
        var drone := batch[i];
        AppendWellFormed(Contents(), drone);
        if drone.serialNumber in lists {
          lists := lists[drone.serialNumber := lists[drone.serialNumber] + [drone]];
        } else {
          order := order + [drone.serialNumber];
          lists := lists[drone.serialNumber := [drone]];
        }
        assert batch[..i + 1][..i] == batch[..i];
      }
      assert batch[..|batch|] == batch;
    }

    /** The second loop: over the keys present when it starts, keep each list's
        records strictly after `cutoff` and delete the keys left with none. */
    method EvictOlderThan(cutoff: int)
      requires Valid()
      modifies this
      ensures Valid() && Contents() == Evict(old(Contents()), cutoff)
    {
      var serials := order;
      ghost var start := Contents();
      for i := 0 to |serials|
        invariant Contents() == EvictKeys(start, serials[..i], cutoff)
      {
        var serial := serials[i];
        EvictKeysStep(start, i, cutoff);
        var oldRemoved := Recent(lists[serial], cutoff);
        if oldRemoved == [] {
          lists := lists - {serial};
          order := Without(order, serial);
        } else {
          lists := lists[serial := oldRemoved];
        }
      }
      EvictKeysWellFormed(start, serials, cutoff);
      assert serials[..|serials|] == serials;
    }

    /** `updateRecentlyViolatingDrones`: merge the current batch, then evict
        everything not strictly after `now` minus ten minutes. When the drone
        fetch fails the batch is empty and the update only evicts. */
    method UpdateRecentlyViolatingDrones(report: DroneReport, pilotOf: string -> PilotResponse, now: int)
      requires Valid()
      modifies this
      ensures Valid()
      ensures Contents() == Evict(Merge(old(Contents()), CurrentlyViolating(report, pilotOf)), now - WindowMillis)
    {
      var nowViolatingDrones := CurrentlyViolating(report, pilotOf);
      MergeBatch(nowViolatingDrones);
      var removeTimestamp := now - WindowMillis;
      EvictOlderThan(removeTimestamp);
    }

    /** `getClosestViolations`: one record per key, in key order, each the
        first closest record of that key's list under `o`. It only reads the
        dictionary. */
    function GetClosestViolations(o: DistOrder): (r: seq<Option<Violation>>)
      reads this
      requires Valid()
      ensures |r| == |order|
      ensures forall i :: 0 <= i < |r| ==> IsClosestOfKey(Contents(), o, order[i], r[i])
    {
      ClosestAllSpec(Contents(), o);
      ClosestAll(Contents(), o)
    }
  }
}
