/** Spreading policy.Spec.Replicas over named clusters by weight. */
module WeightedScheduler {
  import opened Sums
  import opened Policies
  import opened RoundRobin
  import opened TurnOrder
  import opened TurnRun
  import opened WaterLevel

  // ---------- what the two steps compute ----------

  function Weights(policies: seq<SchedulePolicy>): (r: seq<int>)
    ensures |r| == |policies|
  {
    seq(|policies|, i requires 0 <= i < |policies| => policies[i].weight)
  }

  function Shares(share: Share, replicas: int, totalWeight: int, policies: seq<SchedulePolicy>): (r: seq<int>)
    ensures |r| == |policies|
  {
    seq(|policies|, i requires 0 <= i < |policies| => share(replicas, totalWeight, policies[i].weight))
  }

  /** Step one: every cluster gets its share, clamped to [Min, Max]. */
  function ClampedShares(share: Share, replicas: int, policies: seq<SchedulePolicy>): (r: seq<int>)
    ensures |r| == |policies|
    ensures forall i :: 0 <= i < |policies| ==>
      r[i] == Clamp(share(replicas, Sum(Weights(policies)), policies[i].weight), policies[i].min, policies[i].max)
  {
    var total := Sum(Weights(policies));
    seq(|policies|, i requires 0 <= i < |policies| =>
      Clamp(share(replicas, total, policies[i].weight), policies[i].min, policies[i].max))
  }

  function Abs(x: int): nat {
    if x < 0 then -x else x
  }

  /** Part of an even fill of `fill` replicas that does not fit one policy. */
  function Short(p: SchedulePolicy, replicas: int, up: bool, fill: int): int {
    if Room(p, replicas, up) < fill then fill - Room(p, replicas, up) else 0
  }

  function Filled(policies: seq<SchedulePolicy>, replicas: seq<int>, up: bool, fill: int): (r: seq<int>)
    requires |replicas| == |policies|
    ensures |r| == |policies|
    ensures forall i :: 0 <= i < |r| ==>
      r[i] == Move(replicas[i], fill - Short(policies[i], replicas[i], up, fill), up)
  {
    seq(|policies|, i requires 0 <= i < |policies| =>
      Move(replicas[i], fill - Short(policies[i], replicas[i], up, fill), up))
  }

  function Shorts(policies: seq<SchedulePolicy>, replicas: seq<int>, up: bool, fill: int): (r: seq<int>)
    requires |replicas| == |policies|
    ensures |r| == |policies|
    ensures forall i :: 0 <= i < |r| ==> r[i] == Short(policies[i], replicas[i], up, fill)
  {
    seq(|policies|, i requires 0 <= i < |policies| => Short(policies[i], replicas[i], up, fill))
  }

  /** The even fill of step two, with `rest` left over: the state the round robin starts from. */
  function AfterFill(policies: seq<SchedulePolicy>, replicas: seq<int>, up: bool, fill: int, rest: int,
                     list: seq<SchedulePolicy>): State
    requires |replicas| == |policies|
  {
    State(Filled(policies, replicas, up, fill), list, 0, rest + Sum(Shorts(policies, replicas, up, fill)))
  }

  /** Step two with `owed` replicas outstanding. */
  function StepTwo(policies: seq<SchedulePolicy>, replicas: seq<int>, up: bool, owed: nat,
                   list: seq<SchedulePolicy>): State
    requires |replicas| == |policies| > 0
  {
    AfterFill(policies, replicas, up, EvenPart(owed, |policies|), LeftOver(owed, |policies|), list)
  }

  /** What each of n gets in an even split of `owed`. */
  function EvenPart(owed: nat, n: nat): nat
    requires n > 0
  {
    if owed < n then 0 else EvenPart(owed - n, n) + 1
  }

  /** What an even split leaves over. */
  function LeftOver(owed: nat, n: nat): (rest: nat)
    requires n > 0
    ensures rest < n
  {
    if owed < n then owed else LeftOver(owed - n, n)
  }

  /** The code's quotient and remainder. */
  lemma SplitIsDivision(owed: nat, n: nat)
    requires n > 0
    ensures EvenPart(owed, n) == owed / n && LeftOver(owed, n) == owed % n
  {
    Split(n, owed);
    TimesIsProduct(n, EvenPart(owed, n));
    QuotientIs(n, EvenPart(owed, n), LeftOver(owed, n), owed / n, owed % n);
  }

  lemma QuotientIs(n: nat, q: int, r: int, q': int, r': int)
    requires n * q + r == n * q' + r' && 0 <= r < n && 0 <= r' < n
    ensures q == q' && r == r'
  {
    if q > q' {
      ProductAtLeast(n, q, q');
    } else if q < q' {
      ProductAtLeast(n, q', q);
    }
  }

  lemma ProductAtLeast(n: nat, q: int, q': int)
    requires q > q'
    ensures n * q >= n * q' + n
  {
    var k := q - q' - 1;
    assert n * k >= 0;
    assert n * q == n * (q' + 1 + k) == n * q' + n + n * k;
  }

  /** n times `fill`, by addition. */
  function Times(n: nat, fill: int): int {
    if n == 0 then 0 else fill + Times(n - 1, fill)
  }

  lemma {:induction false} Split(n: nat, owed: nat)
    requires n > 0
    ensures Times(n, EvenPart(owed, n)) + LeftOver(owed, n) == owed
  {
    if owed < n {
      TimesIsProduct(n, 0);
    } else {
      Split(n, owed - n);
      TimesMore(n, EvenPart(owed - n, n));
    }
  }

  lemma {:induction false} TimesMore(n: nat, fill: int)
    ensures Times(n, fill + 1) == Times(n, fill) + n
  {
    if n > 0 {
      TimesMore(n - 1, fill);
    }
  }

  lemma {:induction false} TimesIsProduct(n: nat, fill: int)
    ensures Times(n, fill) == n * fill
  {
    if n > 0 {
      TimesIsProduct(n - 1, fill);
      assert n * fill == (n - 1) * fill + fill;
    }
  }

  lemma {:induction false} FillMoves(policies: seq<SchedulePolicy>, replicas: seq<int>, up: bool, fill: int)
    requires |replicas| == |policies|
    ensures Move(Sum(Filled(policies, replicas, up, fill)), Sum(Shorts(policies, replicas, up, fill)), up)
      == Move(Sum(replicas), Times(|policies|, fill), up)
    ensures Sum(Shorts(policies, replicas, up, fill)) >= 0
  {
    if policies != [] {
      FillSplits(policies, replicas, up, fill);
      FillMoves(policies[1..], replicas[1..], up, fill);
    }
  }

  /** The first policy of a fill and the others. */
  lemma FillSplits(policies: seq<SchedulePolicy>, replicas: seq<int>, up: bool, fill: int)
    requires |replicas| == |policies| > 0
    ensures var filled, shorts := Filled(policies, replicas, up, fill), Shorts(policies, replicas, up, fill);
      && Sum(filled) == filled[0] + Sum(Filled(policies[1..], replicas[1..], up, fill))
      && Sum(shorts) == shorts[0] + Sum(Shorts(policies[1..], replicas[1..], up, fill))
      && Move(filled[0], shorts[0], up) == Move(replicas[0], fill, up) && shorts[0] >= 0
    ensures Times(|policies|, fill) == fill + Times(|policies[1..]|, fill)
  {
    assert Filled(policies, replicas, up, fill)[1..] == Filled(policies[1..], replicas[1..], up, fill);
    assert Shorts(policies, replicas, up, fill)[1..] == Shorts(policies[1..], replicas[1..], up, fill);
  }

  lemma SortIsWf(policies: seq<SchedulePolicy>, up: bool, s: State)
    requires policies != [] && IsSortOf(s.list, policies) && s.idx == 0
    requires |s.replicas| == |policies| && HaveRoom(policies, s.replicas, up)
    ensures Wf(policies, up, s) && |s.list| == |policies|
  {
    assert |s.list| == |multiset(s.list)| == |multiset(policies)| == |policies|;
    forall q | 0 <= q < |s.list| ensures s.list[q] in policies {
      assert s.list[q] in multiset(policies);
    }
  }

  /** Filling keeps replicas plus outstanding debt, and leaves no policy past its bound. */
  lemma FillConserves(policies: seq<SchedulePolicy>, replicas: seq<int>, up: bool, owed: nat, fill: nat, rest: nat)
    requires |replicas| == |policies|
    requires Times(|policies|, fill) + rest == owed
    ensures var s := AfterFill(policies, replicas, up, fill, rest, []);
      && HaveRoom(policies, s.replicas, up) && s.add >= 0
      && Move(Sum(s.replicas), s.add, up) == Move(Sum(replicas), owed, up)
      && (HaveRoom(policies, replicas, up) ==> Advanced(replicas, s.replicas, up))
  {
    FillMoves(policies, replicas, up, fill);
    FillRoom(policies, replicas, up, fill);
  }

  lemma StepTwoConserves(policies: seq<SchedulePolicy>, replicas: seq<int>, up: bool, owed: nat,
                         list: seq<SchedulePolicy>)
    requires |replicas| == |policies| > 0
    ensures var s := StepTwo(policies, replicas, up, owed, list);
      && HaveRoom(policies, s.replicas, up) && s.add >= 0
      && Move(Sum(s.replicas), s.add, up) == Move(Sum(replicas), owed, up)
      && (HaveRoom(policies, replicas, up) ==> Advanced(replicas, s.replicas, up))
  {
    Split(|policies|, owed);
    FillConserves(policies, replicas, up, owed, EvenPart(owed, |policies|), LeftOver(owed, |policies|));
  }

  lemma StepTwoStarts(policies: seq<SchedulePolicy>, replicas: seq<int>, up: bool, owed: nat, list: seq<SchedulePolicy>)
    requires |replicas| == |policies| > 0 && IsSortOf(list, policies)
    ensures var s := StepTwo(policies, replicas, up, owed, list);
      && Wf(policies, up, s) && s.add >= 0
      && Move(Sum(s.replicas), s.add, up) == Move(Sum(replicas), owed, up)
      && (HaveRoom(policies, replicas, up) ==> Advanced(replicas, s.replicas, up))
  {
    StepTwoConserves(policies, replicas, up, owed, list);
    SortIsWf(policies, up, StepTwo(policies, replicas, up, owed, list));
  }

  lemma FillRoom(policies: seq<SchedulePolicy>, replicas: seq<int>, up: bool, fill: nat)
    requires |replicas| == |policies|
    ensures HaveRoom(policies, Filled(policies, replicas, up, fill), up)
    ensures HaveRoom(policies, replicas, up) ==> Advanced(replicas, Filled(policies, replicas, up, fill), up)
  {
  }

  /** Step two from any clamped counts: the fill, then the round robin as written or as meant. */
  ghost function Spread(policies: seq<SchedulePolicy>, base: seq<int>, replicas: int, list: seq<SchedulePolicy>,
                        asWritten: bool): (r: seq<int>)
    requires |base| == |policies| > 0 && IsSortOf(list, policies)
    ensures |r| == |policies|
  {
    SpreadOwed(policies, base, replicas > Sum(base), Abs(replicas - Sum(base)), list, asWritten)
  }

  ghost function SpreadOwed(policies: seq<SchedulePolicy>, base: seq<int>, up: bool, owed: nat,
                            list: seq<SchedulePolicy>, asWritten: bool): (r: seq<int>)
    requires |base| == |policies| > 0 && IsSortOf(list, policies)
    ensures |r| == |policies|
  {
    if owed == 0 then base else
      StepTwoStarts(policies, base, up, owed, list);
      if asWritten then Rounds(policies, up, StepTwo(policies, base, up, owed, list)).replicas
      else Meant(policies, up, StepTwo(policies, base, up, owed, list)).state.replicas
  }

  /** The sweep that gives out the last replica of the remainder serves another policy, too: a condition
      on the rooms after the fill, the order of the policies and the remainder, with no loop run. */
  ghost predicate GivesTooMany(policies: seq<SchedulePolicy>, base: seq<int>, replicas: int, list: seq<SchedulePolicy>)
    requires |base| == |policies| > 0
  {
    OwedTooMany(policies, base, replicas > Sum(base), Abs(replicas - Sum(base)), list)
  }

  /** The same for a debt of `owed` replicas. */
  ghost predicate OwedTooMany(policies: seq<SchedulePolicy>, base: seq<int>, up: bool, owed: nat,
                              list: seq<SchedulePolicy>)
    requires |base| == |policies| > 0
  {
    owed != 0 && GivesTooManyFrom(policies, up, StepTwo(policies, base, up, owed, list))
  }

  /** Both steps for one resource, as written. */
  ghost function AsWritten(share: Share, replicas: int, policies: seq<SchedulePolicy>,
                           list: seq<SchedulePolicy>): (r: seq<int>)
    requires policies != [] && IsSortOf(list, policies)
    ensures |r| == |policies|
  {
    Spread(policies, ClampedShares(share, replicas, policies), replicas, list, true)
  }

  /** Both steps with the round robin guarded by the remainder. */
  ghost function AsMeant(share: Share, replicas: int, policies: seq<SchedulePolicy>,
                         list: seq<SchedulePolicy>): (r: seq<int>)
    requires policies != [] && IsSortOf(list, policies)
    ensures |r| == |policies|
  {
    Spread(policies, ClampedShares(share, replicas, policies), replicas, list, false)
  }

  // ---------- what is promised about them ----------

  lemma DryMeansAtBound(policies: seq<SchedulePolicy>, up: bool, base: seq<int>, s: State)
    requires Fair(policies, up, base, s) && s.list == []
    ensures AllAtBound(policies, s.replicas, up)
    ensures Sum(s.replicas) == Sum(Bounds(policies, up))
  {
    forall j | 0 <= j < |policies| ensures s.replicas[j] == Bound(policies[j], up) {
      assert !Listed(policies[j], s.list);
    }
    assert s.replicas == Bounds(policies, up);
  }

  lemma BaseInRange(policies: seq<SchedulePolicy>, base: seq<int>)
    requires |base| == |policies| && WithinRanges(policies, base)
    ensures HaveRoom(policies, base, true) && HaveRoom(policies, base, false)
    ensures Sum(Bounds(policies, false)) <= Sum(base) <= Sum(Bounds(policies, true))
  {
    var low, high := Bounds(policies, false), Bounds(policies, true);
    assert forall i :: 0 <= i < |policies| ==> low[i] <= base[i] <= high[i];
    SumMonotone(low, base);
    SumMonotone(base, high);
  }

  lemma AdvancedInRange(policies: seq<SchedulePolicy>, base: seq<int>, mid: seq<int>, now: seq<int>, up: bool)
    requires |base| == |policies| && WithinRanges(policies, base)
    requires Advanced(base, mid, up) && Advanced(mid, now, up) && HaveRoom(policies, now, up)
    ensures WithinRanges(policies, now)
  {
  }

  /** Neither form lets a cluster leave its own range. */
  lemma SpreadInRange(policies: seq<SchedulePolicy>, base: seq<int>, replicas: int, list: seq<SchedulePolicy>,
                      asWritten: bool)
    requires |base| == |policies| > 0 && IsSortOf(list, policies) && WithinRanges(policies, base)
    ensures WithinRanges(policies, Spread(policies, base, replicas, list, asWritten))
  {
    var up, owed := replicas > Sum(base), Abs(replicas - Sum(base));
    if owed != 0 {
      BaseInRange(policies, base);
      StepTwoStarts(policies, base, up, owed, list);
      var s := StepTwo(policies, base, up, owed, list);
      AdvancedInRange(policies, base, s.replicas, Spread(policies, base, replicas, list, asWritten), up);
    }
  }

  /** As written: the total is Replicas, unless every cluster ended at its Max (too few after
      step one) or at its Min (too many). */
  lemma WrittenTotal(policies: seq<SchedulePolicy>, base: seq<int>, replicas: int, list: seq<SchedulePolicy>)
    requires |base| == |policies| > 0 && Distinct(policies) && IsSortOf(list, policies)
    ensures var r := Spread(policies, base, replicas, list, true);
      Sum(r) == replicas || (replicas != Sum(base) && AllAtBound(policies, r, replicas > Sum(base)))
  {
    var up, owed := replicas > Sum(base), Abs(replicas - Sum(base));
    if owed != 0 {
      StepTwoStarts(policies, base, up, owed, list);
      var s := StepTwo(policies, base, up, owed, list);
      if Rounds(policies, up, s).add != 0 {
        StartsFair(policies, up, s);
        RoundsKeepFair(policies, up, s.replicas, s);
        DryMeansAtBound(policies, up, s.replicas, Rounds(policies, up, s));
      }
    }
  }

  /** As meant: the total is exactly Replicas, clamped to what the ranges allow. */
  lemma MeantTotal(policies: seq<SchedulePolicy>, base: seq<int>, replicas: int, list: seq<SchedulePolicy>)
    requires |base| == |policies| > 0 && Distinct(policies) && IsSortOf(list, policies) && WithinRanges(policies, base)
    ensures Sum(Spread(policies, base, replicas, list, false))
      == Clamp(replicas, Sum(Bounds(policies, false)), Sum(Bounds(policies, true)))
  {
    var up, owed := replicas > Sum(base), Abs(replicas - Sum(base));
    BaseInRange(policies, base);
    if owed != 0 {
      StepTwoStarts(policies, base, up, owed, list);
      var s := StepTwo(policies, base, up, owed, list);
      var t := Meant(policies, up, s).state;
      assert TotalRoom(policies, t.replicas, up) >= 0;
      if t.add != 0 {
        StartsFair(policies, up, s);
        MeantKeepsFair(policies, up, s.replicas, s);
        DryMeansAtBound(policies, up, s.replicas, t);
      }
    }
  }

  /** Giving too many leaves every cluster at its bound, which is more than was asked for. */
  lemma OvershootTotal(policies: seq<SchedulePolicy>, base: seq<int>, replicas: int, list: seq<SchedulePolicy>)
    requires |base| == |policies| > 0 && Distinct(policies) && IsSortOf(list, policies)
    ensures var r, up := Spread(policies, base, replicas, list, true), replicas > Sum(base);
      if GivesTooMany(policies, base, replicas, list) then
        AllAtBound(policies, r, up) && Given(replicas, Sum(r), up) > 0
      else
        r == Spread(policies, base, replicas, list, false)
  {
    var up, owed := replicas > Sum(base), Abs(replicas - Sum(base));
    if owed != 0 {
      OvershootOwed(policies, base, up, owed, list);
    }
  }

  lemma OvershootOwed(policies: seq<SchedulePolicy>, base: seq<int>, up: bool, owed: nat, list: seq<SchedulePolicy>)
    requires |base| == |policies| > 0 && Distinct(policies) && IsSortOf(list, policies) && owed != 0
    ensures var r := SpreadOwed(policies, base, up, owed, list, true);
      if OwedTooMany(policies, base, up, owed, list) then
        AllAtBound(policies, r, up) && Given(Move(Sum(base), owed, up), Sum(r), up) > 0
      else r == SpreadOwed(policies, base, up, owed, list, false)
  {
    StepTwoStarts(policies, base, up, owed, list);
    SortIsDistinct(list, policies);
    OvershootFrom(policies, up, StepTwo(policies, base, up, owed, list));
  }

  lemma OvershootFrom(policies: seq<SchedulePolicy>, up: bool, s: State)
    requires Distinct(policies) && Distinct(s.list) && IsSortOf(s.list, policies)
    requires Wf(policies, up, s) && s.idx == 0 && s.add >= 0
    ensures var r := Rounds(policies, up, s).replicas;
      if GivesTooManyFrom(policies, up, s) then
        AllAtBound(policies, r, up) && Given(Move(Sum(s.replicas), s.add, up), Sum(r), up) > 0
      else r == Meant(policies, up, s).state.replicas
  {
    RoundsMeetMeant(policies, up, s);
    OvershootsFromStart(policies, up, s);
    if Overshoots(policies, up, s) {
      StartsFair(policies, up, s);
      RoundsKeepFair(policies, up, s.replicas, s);
      DryMeansAtBound(policies, up, s.replicas, Rounds(policies, up, s));
    }
  }

  lemma SpreadExact(policies: seq<SchedulePolicy>, base: seq<int>, replicas: int, list: seq<SchedulePolicy>)
    requires |base| == |policies| > 0 && Distinct(policies) && IsSortOf(list, policies) && WithinRanges(policies, base)
    ensures var written := Spread(policies, base, replicas, list, true);
      var meant := Spread(policies, base, replicas, list, false);
      var total := Clamp(replicas, Sum(Bounds(policies, false)), Sum(Bounds(policies, true)));
      && (Sum(written) == total <==> !GivesTooMany(policies, base, replicas, list))
      && (written == meant <==> !GivesTooMany(policies, base, replicas, list))
  {
    MeantTotal(policies, base, replicas, list);
    OvershootTotal(policies, base, replicas, list);
    if GivesTooMany(policies, base, replicas, list) {
      var written := Spread(policies, base, replicas, list, true);
      SpreadInRange(policies, base, replicas, list, true);
      BaseInRange(policies, written);
      BaseInRange(policies, base);
    }
  }

  lemma SpreadIsFair(policies: seq<SchedulePolicy>, base: seq<int>, replicas: int, list: seq<SchedulePolicy>,
                     asWritten: bool)
    requires |base| == |policies| > 0 && Distinct(policies) && IsSortOf(list, policies) && WithinRanges(policies, base)
    ensures EvenlyMoved(policies, replicas > Sum(base), base, Spread(policies, base, replicas, list, asWritten))
  {
    var up, owed := replicas > Sum(base), Abs(replicas - Sum(base));
    BaseInRange(policies, base);
    if owed == 0 {
      assert WaterFilled(policies, up, base, base, 0);
    } else {
      FairStepTwo(policies, up, base, owed, list, asWritten);
    }
  }

  lemma FairStepTwo(policies: seq<SchedulePolicy>, up: bool, base: seq<int>, owed: nat, list: seq<SchedulePolicy>,
                    asWritten: bool)
    requires |base| == |policies| > 0 && HaveRoom(policies, base, up)
    requires Distinct(policies) && IsSortOf(list, policies)
    ensures var s := StepTwo(policies, base, up, owed, list);
      && Wf(policies, up, s) && s.add >= 0
      && EvenlyMoved(policies, up, base,
           if asWritten then Rounds(policies, up, s).replicas else Meant(policies, up, s).state.replicas)
  {
    StepTwoStarts(policies, base, up, owed, list);
    Split(|policies|, owed);
    FairRounds(policies, up, base, EvenPart(owed, |policies|), StepTwo(policies, base, up, owed, list), asWritten);
  }

  lemma FairRounds(policies: seq<SchedulePolicy>, up: bool, base: seq<int>, fill: nat, s: State, asWritten: bool)
    requires Distinct(policies) && IsSortOf(s.list, policies) && Wf(policies, up, s) && s.idx == 0 && s.add >= 0
    requires |base| == |policies| && HaveRoom(policies, base, up) && s.replicas == Filled(policies, base, up, fill)
    ensures EvenlyMoved(policies, up, base,
      if asWritten then Rounds(policies, up, s).replicas else Meant(policies, up, s).state.replicas)
  {
    StartsFair(policies, up, s);
    if asWritten {
      RoundsKeepFair(policies, up, s.replicas, s);
      FairAfterFill(policies, up, base, fill, Rounds(policies, up, s));
    } else {
      MeantKeepsFair(policies, up, s.replicas, s);
      FairAfterFill(policies, up, base, fill, Meant(policies, up, s).state);
    }
  }

  lemma FairAfterFill(policies: seq<SchedulePolicy>, up: bool, base: seq<int>, fill: nat, t: State)
    requires |base| == |policies| && HaveRoom(policies, base, up)
    requires Fair(policies, up, Filled(policies, base, up, fill), t)
    ensures EvenlyMoved(policies, up, base, t.replicas)
  {
    var extra := FairIsWaterFilled(policies, up, Filled(policies, base, up, fill), t);
    assert WaterFilled(policies, up, base, t.replicas, fill + extra);
  }

  // ---------- main results ----------

  /** The code as written, for every input: each cluster stays in its range; the total is Replicas
      or every cluster is at the bound on its side; and it meets the intended total (Replicas clamped
      to what the ranges allow) exactly when the order of turns does not give too many. */
  lemma AsWrittenExact(share: Share, replicas: int, policies: seq<SchedulePolicy>, list: seq<SchedulePolicy>)
    requires policies != [] && Distinct(policies) && IsSortOf(list, policies) && RangesOk(policies)
    ensures var base, r := ClampedShares(share, replicas, policies), AsWritten(share, replicas, policies, list);
      var total := Clamp(replicas, Sum(Bounds(policies, false)), Sum(Bounds(policies, true)));
      && WithinRanges(policies, r)
      && (Sum(r) == replicas || (replicas != Sum(base) && AllAtBound(policies, r, replicas > Sum(base))))
      && (Sum(r) == total <==> !GivesTooMany(policies, base, replicas, list))
      && (r == AsMeant(share, replicas, policies, list) <==> !GivesTooMany(policies, base, replicas, list))
  {
    var base := ClampedShares(share, replicas, policies);
    SpreadInRange(policies, base, replicas, list, true);
    WrittenTotal(policies, base, replicas, list);
    SpreadExact(policies, base, replicas, list);
  }

  /** The guarded loop always meets the intended total, inside every range. */
  lemma AsMeantTotal(share: Share, replicas: int, policies: seq<SchedulePolicy>, list: seq<SchedulePolicy>)
    requires policies != [] && Distinct(policies) && IsSortOf(list, policies) && RangesOk(policies)
    ensures var r := AsMeant(share, replicas, policies, list);
      && Sum(r) == Clamp(replicas, Sum(Bounds(policies, false)), Sum(Bounds(policies, true)))
      && WithinRanges(policies, r)
  {
    var base := ClampedShares(share, replicas, policies);
    MeantTotal(policies, base, replicas, list);
    SpreadInRange(policies, base, replicas, list, false);
  }

  /** Step two is fair in both forms: from the clamped shares everybody moves by the same level or
      as far as the own bound allows, and single extra replicas go to the heavier weights. */
  lemma StepTwoIsFair(share: Share, replicas: int, policies: seq<SchedulePolicy>, list: seq<SchedulePolicy>)
    requires policies != [] && Distinct(policies) && IsSortOf(list, policies) && RangesOk(policies)
    ensures var base := ClampedShares(share, replicas, policies);
      && EvenlyMoved(policies, replicas > Sum(base), base, AsWritten(share, replicas, policies, list))
      && EvenlyMoved(policies, replicas > Sum(base), base, AsMeant(share, replicas, policies, list))
  {
    var base := ClampedShares(share, replicas, policies);
    SpreadIsFair(policies, base, replicas, list, true);
    SpreadIsFair(policies, base, replicas, list, false);
  }

  // ---------- the condition in two families of inputs ----------

  lemma {:induction false} ShortsAreZero(policies: seq<SchedulePolicy>, base: seq<int>, up: bool, fill: int)
    requires |base| == |policies|
    requires forall j :: 0 <= j < |policies| ==> Room(policies[j], base[j], up) >= fill
    ensures Sum(Shorts(policies, base, up, fill)) == 0
  {
    if policies != [] {
      assert Shorts(policies, base, up, fill)[1..] == Shorts(policies[1..], base[1..], up, fill);
      ShortsAreZero(policies[1..], base[1..], up, fill);
    }
  }

  /** The even fill of `owed` replicas leaves everybody with room. */
  predicate RoomAfterFill(policies: seq<SchedulePolicy>, base: seq<int>, up: bool, owed: nat)
    requires |base| == |policies| > 0
  {
    var fill := EvenPart(owed, |policies|);
    forall j :: 0 <= j < |policies| ==> Room(policies[j], base[j], up) > fill
  }

  /** The policy ranked `rest` by weight is listed behind the one ranked just before it. */
  predicate ListedBehind(policies: seq<SchedulePolicy>, list: seq<SchedulePolicy>, rest: int) {
    0 < rest < |list| && PositionOf(policies, list[rest]) > PositionOf(policies, list[rest - 1])
  }

  lemma RoomsLeft(policies: seq<SchedulePolicy>, base: seq<int>, up: bool, fill: int, list: seq<SchedulePolicy>)
    requires |base| == |policies| && Distinct(policies) && IsSortOf(list, policies)
    requires forall j :: 0 <= j < |policies| ==> Room(policies[j], base[j], up) > fill
    ensures |list| == |policies|
    ensures var o := OrderOf(policies, up, Filled(policies, base, up, fill), list);
      forall i :: 0 <= i < |o.rooms| ==> o.rooms[i] > 0
  {
    assert |list| == |multiset(list)| == |multiset(policies)| == |policies|;
    var filled := Filled(policies, base, up, fill);
    forall i | 0 <= i < |list| ensures RoomOf(policies, up, filled, list[i]) > 0 {
      assert list[i] in multiset(policies);
      PositionIs(policies, list[i]);
    }
  }

  /** When the even fill leaves everybody with room, the code gives too many exactly if a remainder is
      left and the first policy by weight not to get one of it is listed behind the last one that does. */
  lemma UnsaturatedExact(policies: seq<SchedulePolicy>, base: seq<int>, up: bool, owed: nat, list: seq<SchedulePolicy>)
    requires |base| == |policies| > 0 && Distinct(policies) && IsSortOf(list, policies)
    requires RoomAfterFill(policies, base, up, owed)
    ensures OwedTooMany(policies, base, up, owed, list) <==> ListedBehind(policies, list, LeftOver(owed, |policies|))
  {
    UnsaturatedFill(policies, base, up, EvenPart(owed, |policies|), LeftOver(owed, |policies|), list);
  }

  lemma UnsaturatedFill(policies: seq<SchedulePolicy>, base: seq<int>, up: bool, fill: nat, rest: nat,
                        list: seq<SchedulePolicy>)
    requires |base| == |policies| > rest && Distinct(policies) && IsSortOf(list, policies)
    requires forall j :: 0 <= j < |policies| ==> Room(policies[j], base[j], up) > fill
    ensures var s := AfterFill(policies, base, up, fill, rest, list);
      GivesTooManyFrom(policies, up, s) == ListedBehind(policies, list, rest)
  {
    ShortsAreZero(policies, base, up, fill);
    RoomsLeft(policies, base, up, fill, list);
    var o := OrderOf(policies, up, Filled(policies, base, up, fill), list);
    FirstTurnExact(o.rooms, o.at, rest);
  }

  lemma OwnPosition(policies: seq<SchedulePolicy>, j: nat)
    requires Distinct(policies) && j < |policies|
    ensures PositionOf(policies, policies[j]) == j
  {
    assert Matches(policies[j], policies[j]);
    PositionIs(policies, policies[j]);
  }

  /** Policies listed heaviest first, where sort.Slice has nothing to move: whatever is saturated, the
      code gives too many unless the remainder runs out with the end of a turn. */
  lemma HeaviestFirstExact(policies: seq<SchedulePolicy>, base: seq<int>, up: bool, owed: nat)
    requires |base| == |policies| > 0 && Distinct(policies) && SortedByWeight(policies)
    ensures var s := StepTwo(policies, base, up, owed, policies);
      var o := OrderOf(policies, up, s.replicas, policies);
      OwedTooMany(policies, base, up, owed, policies) <==> owed != 0 && EndsMidTurn(o.rooms, s.add)
  {
    var s := StepTwo(policies, base, up, owed, policies);
    var o := OrderOf(policies, up, s.replicas, policies);
    forall i | 0 <= i < |policies| ensures o.at[i] == i {
      OwnPosition(policies, i);
    }
    SortedExact(o.rooms, o.at, s.add);
  }

  /** In particular whenever the fill leaves everybody with room and the debt does not divide evenly. */
  lemma HeaviestFirstGivesTooMany(policies: seq<SchedulePolicy>, base: seq<int>, up: bool, owed: nat)
    requires |base| == |policies| > 0 && Distinct(policies) && SortedByWeight(policies)
    requires LeftOver(owed, |policies|) != 0 && RoomAfterFill(policies, base, up, owed)
    ensures OwedTooMany(policies, base, up, owed, policies)
  {
    var rest := LeftOver(owed, |policies|);
    OwnPosition(policies, rest);
    OwnPosition(policies, rest - 1);
    UnsaturatedExact(policies, base, up, owed, policies);
  }

  lemma SumOfThree(a: int, b: int, c: int)
    ensures Sum([a, b, c]) == a + b + c
  {
    assert [a, b, c][1..] == [b, c] && [b, c][1..] == [c];
    assert Sum([c]) == c;
    assert Sum([b, c]) == b + c;
  }

  /** The share without rounding noise. */
  function FloorShare(replicas: int, totalWeight: int, weight: int): int {
    if totalWeight == 0 then 0 else replicas * weight / totalWeight
  }

  /** Three clusters of the same weight, each taking up to fifteen replicas. */
  predicate ThreeEqual(policies: seq<SchedulePolicy>) {
    policies == [SchedulePolicy("a", "", 1, 0, 15), SchedulePolicy("b", "", 1, 0, 15),
      SchedulePolicy("c", "", 1, 0, 15)]
  }

  lemma ThreeEqualShares(policies: seq<SchedulePolicy>, replicas: int)
    requires ThreeEqual(policies) && replicas == 20
    ensures ClampedShares(FloorShare, replicas, policies) == [6, 6, 6]
  {
    assert Weights(policies) == [1, 1, 1];
    SumOfThree(1, 1, 1);
    assert FloorShare(20, 3, 1) == 6;
  }

  lemma ThreeEqualOvershoots(policies: seq<SchedulePolicy>, base: seq<int>, replicas: int)
    requires ThreeEqual(policies) && base == [6, 6, 6] && replicas == 20
    ensures Distinct(policies) && IsSortOf(policies, policies)
    ensures GivesTooMany(policies, base, replicas, policies)
  {
    SumOfThree(6, 6, 6);
    assert Abs(replicas - Sum(base)) == 2;
    HeaviestFirstGivesTooMany(policies, base, true, 2);
  }

  /** Twenty replicas over three equal clusters of at most fifteen: 45 are placed, not 20. */
  lemma EqualWeightsExample(policies: seq<SchedulePolicy>, replicas: int)
    requires ThreeEqual(policies) && replicas == 20
    ensures IsSortOf(policies, policies)
    ensures AsWritten(FloorShare, replicas, policies, policies) == [15, 15, 15]
  {
    var base := ClampedShares(FloorShare, replicas, policies);
    ThreeEqualShares(policies, replicas);
    ThreeEqualOvershoots(policies, base, replicas);
    SumOfThree(6, 6, 6);
    OvershootTotal(policies, base, replicas, policies);
  }
}
