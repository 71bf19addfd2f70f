/** `find_gps_record`: the record just before the first one whose timestamp
    is past the target, clamped to the first record; nothing when no
    timestamp is past the target. */
module Lookup {
  import opened Wrappers
  import opened Fields
  import opened GpsTrace

  /** The index of the first record whose timestamp exceeds `target`, or
      `|trip|` when there is none. */
  function FirstAfter(trip: seq<GpsData>, target: int): (i: nat)
    ensures i <= |trip|
    ensures forall j :: 0 <= j < i ==> trip[j].timestamp <= target
    ensures i < |trip| ==> trip[i].timestamp > target
  {
    if trip == [] then 0
    else if trip[0].timestamp > target then 0
    else 1 + FirstAfter(trip[1..], target)
  }

  /** The index of the record `find_gps_record` returns a reference to. */
  function Lookup(trip: seq<GpsData>, target: int): (r: Option<nat>)
    ensures r.None? <==> forall j :: 0 <= j < |trip| ==> trip[j].timestamp <= target
    ensures r.Some? ==> r.value < |trip|
    ensures r.Some? ==>
      || (&& r.value + 1 < |trip|
          && (forall j :: 0 <= j <= r.value ==> trip[j].timestamp <= target)
          && target < trip[r.value + 1].timestamp)
      || (r.value == 0 && target < trip[0].timestamp)
  {
    var i := FirstAfter(trip, target);
    if i == |trip| then None
    else Some(if i > 0 then i - 1 else 0)
  }

  /** The loop of `find_gps_record`. */
  method FindGpsRecord(trip: seq<GpsData>, target: int) returns (r: Option<nat>)
    ensures r == Lookup(trip, target)
  {
    var i := 0;
    if trip != [] {
      while true
        invariant 0 <= i < |trip|
        invariant forall j :: 0 <= j < i ==> trip[j].timestamp <= target
        decreases |trip| - i
      {
        if trip[i].timestamp > target {
          var found := if i > 0 then i - 1 else 0;
          return Some(found);
        }
        i := i + 1;
        if i == |trip| {
          break;
        }
      }
    }
    return None;
  }

  /** Timestamps never decrease along the trip. */
  ghost predicate Sorted(trip: seq<GpsData>)
  {
    forall j, k :: 0 <= j <= k < |trip| ==> trip[j].timestamp <= trip[k].timestamp
  }

  /** The last record is returned only as the clamped first record of a
      one-record trip: otherwise the answer always has a successor. */
  lemma LookupNeverLast(trip: seq<GpsData>, target: int)
    requires Lookup(trip, target).Some?
    ensures Lookup(trip, target).value < |trip| - 1 || (|trip| == 1 && target < trip[0].timestamp)
  {
  }

  /** On a sorted trip, a target at or after the first timestamp finds a
      record no later than the target and strictly earlier than the last
      record. So `gps_data.last().timestamp == gps_record.timestamp`
      never holds for such targets. */
  lemma SortedLookupBeforeLast(trip: seq<GpsData>, target: int)
    requires Sorted(trip)
    requires trip != [] && target >= trip[0].timestamp
    requires Lookup(trip, target).Some?
    ensures trip[Lookup(trip, target).value].timestamp <= target
    ensures trip[Lookup(trip, target).value].timestamp < trip[|trip| - 1].timestamp
  {
    var k := Lookup(trip, target).value;
    assert trip[k + 1].timestamp <= trip[|trip| - 1].timestamp;
  }

  /** The record found moves forward as the target does, on any trip: the
      first later record does, whether or not the timestamps are sorted. */
  lemma LookupMonotone(trip: seq<GpsData>, t1: int, t2: int)
    requires t1 <= t2
    requires Lookup(trip, t1).Some? && Lookup(trip, t2).Some?
    ensures Lookup(trip, t1).value <= Lookup(trip, t2).value
  {
    FirstAfterMonotone(trip, t1, t2);
  }

  lemma FirstAfterMonotone(trip: seq<GpsData>, t1: int, t2: int)
    requires t1 <= t2
    ensures FirstAfter(trip, t1) <= FirstAfter(trip, t2)
  {
  }

  /** A three-record trip at 10, 20 and 35 seconds: target 34 finds the
      record at 20, target 5 is clamped to the first record, and target 35,
      the last timestamp itself, finds nothing. */
  lemma LookupExamples()
    ensures var trip := [Sample(10), Sample(20), Sample(35)];
      && Lookup(trip, 34) == Some(1)
      && Lookup(trip, 5) == Some(0)
      && Lookup(trip, 35) == None
  {
    var trip := [Sample(10), Sample(20), Sample(35)];
    assert FirstAfter(trip, 34) == 2 by {
      assert trip[1..][1..] == [Sample(35)];
    }
  }

  function Sample(t: U32): GpsData
  {
    GpsData(t, ZeroDefault, ZeroDefault, "A", [0, 0, 0, 0, 0, 0, 0, 0, 0])
  }
}
