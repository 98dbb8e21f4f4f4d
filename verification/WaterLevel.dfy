/** Fairness of the round robin, whatever the remainder and however often the list wraps or shrinks:
    at every moment there is a level that every policy still on the list has reached. */
module WaterLevel {
  import opened Policies
  import opened RoundRobin

  /** Every entry still on the list has received `level` replicas, plus one when the cursor has
      already passed it in this turn; a policy that left the list is at its bound and received no more. */
  ghost predicate Level(policies: seq<SchedulePolicy>, up: bool, base: seq<int>, s: State, level: int)
    requires |base| == |policies| == |s.replicas|
  {
    && (forall j, q :: 0 <= j < |policies| && 0 <= q < |s.list| && Matches(policies[j], s.list[q]) ==>
          Given(base[j], s.replicas[j], up) == level + if q < s.idx then 1 else 0)
    && (forall j :: 0 <= j < |policies| && !Listed(policies[j], s.list) ==>
          Room(policies[j], s.replicas[j], up) == 0 && 0 <= Given(base[j], s.replicas[j], up) <= level)
  }

  /** What is kept from any starting point. */
  ghost predicate Fair(policies: seq<SchedulePolicy>, up: bool, base: seq<int>, s: State) {
    && Wf(policies, up, s) && |base| == |policies|
    && Distinct(s.list) && SortedByWeight(s.list)
    && exists level: nat :: Level(policies, up, base, s, level)
  }

  /** Distinct policies meet distinct entries one to one. */
  lemma MatchIsUnique(policies: seq<SchedulePolicy>, list: seq<SchedulePolicy>, j: nat, p: nat)
    requires Distinct(policies) && Distinct(list)
    requires j < |policies| && p < |list| && Matches(policies[j], list[p])
    ensures forall k :: 0 <= k < |policies| && Matches(policies[k], list[p]) ==> k == j
    ensures forall q :: 0 <= q < |list| && Matches(policies[j], list[q]) ==> q == p
  {
    forall k | 0 <= k < |policies| && Matches(policies[k], list[p]) ensures k == j {
      assert Matches(policies[k], policies[j]) && Matches(policies[j], policies[k]);
    }
    forall q | 0 <= q < |list| && Matches(policies[j], list[q]) ensures q == p {
      assert Matches(list[p], list[q]) && Matches(list[q], list[p]);
    }
  }

  lemma GrantKeepsLevel(policies: seq<SchedulePolicy>, up: bool, base: seq<int>, s: State, j: nat, level: nat)
    requires Wf(policies, up, s) && |base| == |policies| && Distinct(policies) && Distinct(s.list)
    requires s.list != [] && j < |policies| && Matches(policies[j], s.list[s.idx])
    requires Room(policies[j], s.replicas[j], up) > 0
    requires Level(policies, up, base, s, level)
    ensures Level(policies, up, base, Visit(policies, up, s, j),
                  if s.idx == |s.list| - 1 then level + 1 else level)
  {
    MatchIsUnique(policies, s.list, j, s.idx);
  }

  lemma DropKeepsLevel(policies: seq<SchedulePolicy>, up: bool, base: seq<int>, s: State, j: nat, level: nat)
    requires Wf(policies, up, s) && |base| == |policies| && Distinct(policies) && Distinct(s.list)
    requires s.list != [] && j < |policies| && Matches(policies[j], s.list[s.idx])
    requires Room(policies[j], s.replicas[j], up) == 0
    requires Level(policies, up, base, s, level)
    ensures Level(policies, up, base, Visit(policies, up, s, j),
                  if s.idx == |s.list| - 1 then level + 1 else level)
  {
    MatchIsUnique(policies, s.list, j, s.idx);
    forall k | 0 <= k < |policies| && Listed(policies[k], s.list) && k != j
      ensures Listed(policies[k], RemoveAt(s.list, s.idx))
    {
      ListedOn(policies[k], s.list, s.idx);
    }
  }

  lemma ListedOn(p: SchedulePolicy, list: seq<SchedulePolicy>, idx: nat)
    requires idx < |list| && Listed(p, list) && !Matches(p, list[idx])
    ensures Listed(p, RemoveAt(list, idx))
  {
    var q :| 0 <= q < |list| && Matches(p, list[q]);
    assert RemoveAt(list, idx)[if q < idx then q else q - 1] == list[q];
  }

  lemma RemoveKeepsOrder(list: seq<SchedulePolicy>, i: nat)
    requires i < |list| && Distinct(list) && SortedByWeight(list)
    ensures Distinct(RemoveAt(list, i)) && SortedByWeight(RemoveAt(list, i))
  {
  }

  lemma VisitKeepsFair(policies: seq<SchedulePolicy>, up: bool, base: seq<int>, s: State, j: nat)
    requires Distinct(policies) && Fair(policies, up, base, s) && s.list != [] && j < |policies|
    ensures Fair(policies, up, base, Visit(policies, up, s, j))
  {
    VisitStep(policies, up, s, j);
    if Matches(policies[j], s.list[s.idx]) {
      var level: nat :| Level(policies, up, base, s, level);
      if Room(policies[j], s.replicas[j], up) > 0 {
        GrantKeepsLevel(policies, up, base, s, j, level);
      } else {
        DropKeepsLevel(policies, up, base, s, j, level);
        RemoveKeepsOrder(s.list, s.idx);
      }
      var newLevel: nat := if s.idx == |s.list| - 1 then level + 1 else level;
      assert Level(policies, up, base, Visit(policies, up, s, j), newLevel);
    }
  }

  lemma {:induction false} SweepKeepsFair(policies: seq<SchedulePolicy>, up: bool, base: seq<int>, s: State, j: nat)
    requires Distinct(policies) && Fair(policies, up, base, s) && j <= |policies|
    ensures Fair(policies, up, base, Sweep(policies, up, s, j))
    decreases |policies| - j
  {
    hide Level, Distinct, SortedByWeight, Visit;
    if j < |policies| && s.list != [] {
      VisitStep(policies, up, s, j);
      VisitKeepsFair(policies, up, base, s, j);
      SweepKeepsFair(policies, up, base, Visit(policies, up, s, j), j + 1);
    }
  }

  lemma {:induction false} StopSweepKeepsFair(policies: seq<SchedulePolicy>, up: bool, base: seq<int>, s: State, j: nat)
    requires Distinct(policies) && Fair(policies, up, base, s) && j <= |policies| && s.add >= 0
    ensures Fair(policies, up, base, StopSweep(policies, up, s, j).state)
    decreases |policies| - j
  {
    hide Level, Distinct, SortedByWeight, Visit;
    if j < |policies| && s.list != [] && s.add > 0 {
      StopSweepStep(policies, up, s, j);
      VisitKeepsFair(policies, up, base, s, j);
      StopSweepKeepsFair(policies, up, base, Visit(policies, up, s, j), j + 1);
    }
  }

  /** Fairness survives whole runs, as written and as meant. */
  lemma {:induction false} RoundsKeepFair(policies: seq<SchedulePolicy>, up: bool, base: seq<int>, s: State)
    requires Distinct(policies) && Fair(policies, up, base, s)
    ensures Fair(policies, up, base, Rounds(policies, up, s))
    decreases Measure(policies, up, s)
  {
    if s.add != 0 && s.list != [] {
      SweepKeepsFair(policies, up, base, s, 0);
      RoundsKeepFair(policies, up, base, Sweep(policies, up, s, 0));
    }
  }

  lemma {:induction false} MeantKeepsFair(policies: seq<SchedulePolicy>, up: bool, base: seq<int>, s: State)
    requires Distinct(policies) && Fair(policies, up, base, s) && s.add >= 0
    ensures Fair(policies, up, base, Meant(policies, up, s).state)
    decreases Measure(policies, up, s)
  {
    if s.add != 0 && s.list != [] {
      StopSweepKeepsFair(policies, up, base, s, 0);
      StopSweepFalls(policies, up, s);
      var t := StopSweep(policies, up, s, 0);
      if t.state.add != 0 && t.state.list != [] {
        MeantKeepsFair(policies, up, base, t.state);
      }
    }
  }

  /** What fairness means for the counts alone: up to one replica, everybody moved by the same
      level or as far as their bound allows, and the one replica more goes to the heavier weights. */
  ghost predicate WaterFilled(policies: seq<SchedulePolicy>, up: bool, base: seq<int>, now: seq<int>, level: int)
    requires |base| == |now| == |policies|
  {
    && (forall j :: 0 <= j < |policies| ==>
          var room, given := Room(policies[j], base[j], up), Given(base[j], now[j], up);
          given == (if room < level then room else level) || given == level + 1 <= room)
    && (forall i, j | 0 <= i < |policies| && 0 <= j < |policies| ::
          Given(base[i], now[i], up) > level && Given(base[j], now[j], up) == level < Room(policies[j], base[j], up)
          ==> policies[i].weight >= policies[j].weight)
  }

  ghost predicate EvenlyMoved(policies: seq<SchedulePolicy>, up: bool, base: seq<int>, now: seq<int>)
    requires |base| == |now| == |policies|
  {
    exists level: nat :: WaterFilled(policies, up, base, now, level)
  }

  lemma FairIsWaterFilled(policies: seq<SchedulePolicy>, up: bool, base: seq<int>, s: State) returns (level: nat)
    requires Fair(policies, up, base, s)
    ensures WaterFilled(policies, up, base, s.replicas, level)
  {
    level :| Level(policies, up, base, s, level);
    forall j | 0 <= j < |policies|
      ensures var room, given := Room(policies[j], base[j], up), Given(base[j], s.replicas[j], up);
        given == (if room < level then room else level) || given == level + 1 <= room
    {
      LevelGives(policies, up, base, s, level, j);
    }
    forall i, j | 0 <= i < |policies| && 0 <= j < |policies|
      && Given(base[i], s.replicas[i], up) > level
      && Given(base[j], s.replicas[j], up) == level < Room(policies[j], base[j], up)
      ensures policies[i].weight >= policies[j].weight
    {
      LevelFavoursHeavy(policies, up, base, s, level, i, j);
    }
  }

  lemma LevelGives(policies: seq<SchedulePolicy>, up: bool, base: seq<int>, s: State, level: nat, j: nat)
    requires Wf(policies, up, s) && |base| == |policies| && Level(policies, up, base, s, level) && j < |policies|
    ensures var room, given := Room(policies[j], base[j], up), Given(base[j], s.replicas[j], up);
      given == (if room < level then room else level) || given == level + 1 <= room
  {
    if q :| 0 <= q < |s.list| && Matches(policies[j], s.list[q]) {
    } else {
      assert !Listed(policies[j], s.list);
    }
  }

  lemma LevelFavoursHeavy(policies: seq<SchedulePolicy>, up: bool, base: seq<int>, s: State, level: nat,
                          i: nat, j: nat)
    requires |base| == |policies| == |s.replicas| && Level(policies, up, base, s, level) && SortedByWeight(s.list)
    requires i < |policies| && Given(base[i], s.replicas[i], up) > level
    requires j < |policies| && Given(base[j], s.replicas[j], up) == level < Room(policies[j], base[j], up)
    ensures policies[i].weight >= policies[j].weight
  {
    assert Listed(policies[i], s.list) && Listed(policies[j], s.list);
    var p :| 0 <= p < |s.list| && Matches(policies[i], s.list[p]);
    var q :| 0 <= q < |s.list| && Matches(policies[j], s.list[q]);
    assert p < s.idx <= q;
  }

  lemma {:induction false} DistinctCount(list: seq<SchedulePolicy>, e: SchedulePolicy)
    requires Distinct(list)
    ensures multiset(list)[e] <= 1
  {
    if list != [] {
      assert list == [list[0]] + list[1..];
      assert forall i :: 0 <= i < |list[1..]| ==> list[1..][i] == list[i + 1];
      DistinctCount(list[1..], e);
      forall k | 0 <= k < |list[1..]| ensures list[1..][k] != list[0] {
        assert !Matches(list[0], list[k + 1]) && Matches(list[0], list[0]);
      }
    }
  }

  lemma SortIsDistinct(list: seq<SchedulePolicy>, policies: seq<SchedulePolicy>)
    requires Distinct(policies) && multiset(list) == multiset(policies)
    ensures Distinct(list)
  {
    forall i, j | 0 <= i < j < |list| ensures !Matches(list[i], list[j]) {
      assert list[i] in multiset(policies) && list[j] in multiset(policies);
      var a :| 0 <= a < |policies| && policies[a] == list[i];
      var b :| 0 <= b < |policies| && policies[b] == list[j];
      if a == b {
        TwiceCounted(list, i, j);
        DistinctCount(policies, list[i]);
      }
    }
  }

  /** A fresh sort of the policies starts fair, at level zero. */
  lemma StartsFair(policies: seq<SchedulePolicy>, up: bool, s: State)
    requires Distinct(policies) && IsSortOf(s.list, policies)
    requires Wf(policies, up, s) && s.idx == 0
    ensures Fair(policies, up, s.replicas, s)
  {
    hide Level, Listed, Distinct;
    SortIsDistinct(s.list, policies);
    AllAreListed(policies, s.list);
    LevelZero(policies, up, s);
    assert Level(policies, up, s.replicas, s, 0);
  }

  lemma LevelZero(policies: seq<SchedulePolicy>, up: bool, s: State)
    requires |s.replicas| == |policies| && s.idx == 0
    requires forall j :: 0 <= j < |policies| ==> Listed(policies[j], s.list)
    ensures Level(policies, up, s.replicas, s, 0)
  {
    hide Listed, Matches;
  }

  lemma AllAreListed(policies: seq<SchedulePolicy>, list: seq<SchedulePolicy>)
    requires multiset(list) == multiset(policies)
    ensures forall j :: 0 <= j < |policies| ==> Listed(policies[j], list)
  {
    forall j | 0 <= j < |policies| ensures Listed(policies[j], list) {
      assert policies[j] in multiset(list);
      var q :| 0 <= q < |list| && list[q] == policies[j];
      assert Matches(policies[j], list[q]);
    }
  }
}
