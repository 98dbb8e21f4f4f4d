/** Schedule policies and the direction in which outstanding replicas have to move. */
module Policies {
  import opened Sums

  datatype SchedulePolicy = SchedulePolicy(name: string, role: string, weight: int, min: int, max: int)

  /** The truncated floating-point share of `replicas` for one weight:
      (replicas, totalWeight, weight) to a replica count. */
  type Share = (int, int, int) -> int

  /** The bound an entry moves towards: Max while replicas are missing, Min while there are too many. */
  function Bound(p: SchedulePolicy, up: bool): int {
    if up then p.max else p.min
  }

  /** Distance of a replica count to that bound. */
  function Room(p: SchedulePolicy, replicas: int, up: bool): int {
    if up then p.max - replicas else replicas - p.min
  }

  /** `replicas` moved by `n` in the direction of the debt. */
  function Move(replicas: int, n: int, up: bool): int {
    if up then replicas + n else replicas - n
  }

  /** How far `now` has moved from `base` in the direction of the debt. */
  function Given(base: int, now: int, up: bool): int {
    if up then now - base else base - now
  }

  function Bounds(policies: seq<SchedulePolicy>, up: bool): (r: seq<int>)
    ensures |r| == |policies|
    ensures forall i :: 0 <= i < |r| ==> r[i] == Bound(policies[i], up)
  {
    seq(|policies|, i requires 0 <= i < |policies| => Bound(policies[i], up))
  }

  function Clamp(x: int, low: int, high: int): int {
    if x < low then low else if x > high then high else x
  }

  predicate RangesOk(policies: seq<SchedulePolicy>) {
    forall i :: 0 <= i < |policies| ==> policies[i].min <= policies[i].max
  }

  predicate WithinRanges(policies: seq<SchedulePolicy>, replicas: seq<int>)
    requires |replicas| == |policies|
  {
    forall i :: 0 <= i < |policies| ==> policies[i].min <= replicas[i] <= policies[i].max
  }

  predicate HaveRoom(policies: seq<SchedulePolicy>, replicas: seq<int>, up: bool)
    requires |replicas| == |policies|
  {
    forall i :: 0 <= i < |policies| ==> Room(policies[i], replicas[i], up) >= 0
  }

  predicate AllAtBound(policies: seq<SchedulePolicy>, replicas: seq<int>, up: bool)
    requires |replicas| == |policies|
  {
    forall i :: 0 <= i < |policies| ==> replicas[i] == Bound(policies[i], up)
  }

  lemma TotalRoomSign(policies: seq<SchedulePolicy>, replicas: seq<int>, up: bool)
    requires |replicas| == |policies| && HaveRoom(policies, replicas, up)
    ensures Given(Sum(replicas), Sum(Bounds(policies, up)), up) >= 0
    ensures (exists i :: 0 <= i < |policies| && Room(policies[i], replicas[i], up) > 0)
      ==> Given(Sum(replicas), Sum(Bounds(policies, up)), up) > 0
  {
    var bounds := Bounds(policies, up);
    assert forall i :: 0 <= i < |policies| ==> Room(policies[i], replicas[i], up) == Given(replicas[i], bounds[i], up);
    if up {
      SumMonotone(replicas, bounds);
    } else {
      SumMonotone(bounds, replicas);
    }
  }

  /** Sum of all the distances to the bound. */
  function TotalRoom(policies: seq<SchedulePolicy>, replicas: seq<int>, up: bool): (r: nat)
    requires |replicas| == |policies| && HaveRoom(policies, replicas, up)
    ensures r == Given(Sum(replicas), Sum(Bounds(policies, up)), up)
    ensures (exists i :: 0 <= i < |policies| && Room(policies[i], replicas[i], up) > 0) ==> r > 0
  {
    TotalRoomSign(policies, replicas, up);
    Given(Sum(replicas), Sum(Bounds(policies, up)), up)
  }
}
