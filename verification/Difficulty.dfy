/** Retargeting of the proof of work and of the ticket price (blockchain/difficulty.go). */
module Difficulty {
  import opened Wrappers
  import opened BlockNodes
  import opened GoArithmetic
  import opened StakeVersions

  // The supply estimate.

  datatype SubsidyParams = SubsidyParams(baseSubsidy: nat, mulSubsidy: nat, divSubsidy: nat, interval: nat,
                                         blockOneSubsidy: nat)
  {
    predicate Ok() {
      divSubsidy > 0 && interval > 0
    }

    /** The full subsidy of a block after i reductions. */
    function Reduced(i: nat): nat
      requires Ok()
    {
      if i == 0 then baseSubsidy else Reduced(i - 1) * mulSubsidy / divSubsidy
    }

    /** The full subsidy of the block at a height, apart from the special first two. */
    function SubsidyAt(height: nat): nat
      requires Ok()
    {
      Reduced(height / interval)
    }

    /** All full subsidies of blocks 0 to h. */
    function SubsidySum(h: nat): nat
      requires Ok()
    {
      SubsidyAt(h) + if h == 0 then 0 else SubsidySum(h - 1)
    }

    /** What has been paid out up to block h: the special subsidy of block one, then the reduced
        subsidies of blocks 2 to h. */
    function Supply(h: nat): nat
      requires Ok()
    {
      if h == 0 then 0 else if h == 1 then blockOneSubsidy else Supply(h - 1) + SubsidyAt(h)
    }

    /** Whole reduction intervals. */
    function Intervals(n: nat): nat
      requires Ok()
    {
      if n == 0 then 0 else Intervals(n - 1) + interval * Reduced(n - 1)
    }
  }

  /** The block subsidies interval by interval, up to block r of interval q. */
  lemma {:induction false} SumByIntervals(p: SubsidyParams, q: nat, r: nat, h: nat)
    requires p.Ok() && r < p.interval && h == q * p.interval + r
    ensures p.SubsidySum(h) == p.Intervals(q) + (1 + r) * p.Reduced(q)
    decreases q, r
  {
    hide *;
    InInterval(p, q, r, h);
    var s := p.Reduced(q);
    if r > 0 {
      SumByIntervals(p, q, r - 1, h - 1);
      SumStep(p, h);
      Distribute(r, s);
    } else if q > 0 {
      NextMultiple(q - 1, p.interval);
      SumByIntervals(p, q - 1, p.interval - 1, h - 1);
      SumStep(p, h);
      IntervalsStep(p, q);
      Distribute(0, s);
    } else {
      SumStart(p);
    }
  }

  lemma InInterval(p: SubsidyParams, q: nat, r: nat, h: nat)
    requires p.Ok() && r < p.interval && h == q * p.interval + r
    ensures p.SubsidyAt(h) == p.Reduced(q)
    ensures q > 0 ==> h > 0
    ensures q == 0 ==> h == r
  {
    ModUnique(h, p.interval, q, r);
    if q == 0 {
      assert h == r;
    } else {
      MulMono(1, q, p.interval);
    }
  }

  lemma SumStep(p: SubsidyParams, h: nat)
    requires p.Ok() && h > 0
    ensures p.SubsidySum(h) == p.SubsidyAt(h) + p.SubsidySum(h - 1)
  {}

  lemma SumStart(p: SubsidyParams)
    requires p.Ok()
    ensures p.SubsidySum(0) == p.SubsidyAt(0) && p.Intervals(0) == 0 && p.SubsidyAt(0) == p.Reduced(0)
  {
    ModUnique(0, p.interval, 0, 0);
  }

  lemma IntervalsStep(p: SubsidyParams, q: nat)
    requires p.Ok() && q > 0
    ensures p.Intervals(q) == p.Intervals(q - 1) + p.interval * p.Reduced(q - 1)
  {}

  lemma Distribute(a: int, x: int)
    ensures (a + 1) * x == a * x + x && 0 * x == 0 && 1 * x == x
  {}

  lemma {:induction false} SupplyIsSum(p: SubsidyParams, h: nat)
    requires p.Ok() && h >= 1
    ensures p.Supply(h) == p.blockOneSubsidy + p.SubsidySum(h) - p.SubsidyAt(0) - p.SubsidyAt(1)
  {
    if h > 1 {
      SupplyIsSum(p, h - 1);
    } else {
      assert p.SubsidySum(1) == p.SubsidyAt(1) + p.SubsidyAt(0);
    }
  }

  /** The closed form: whole intervals, then the current one, minus the base subsidy of two blocks. */
  function EstimatedSupply(p: SubsidyParams, height: int): int
    requires p.Ok()
  {
    if height <= 0 then 0 else
    DivNonNegative(height, p.interval);
    p.blockOneSubsidy + p.Intervals(height / p.interval) + (1 + height % p.interval) * p.Reduced(height / p.interval)
    - p.baseSubsidy * 2
  }

  method EstimateSupply(p: SubsidyParams, height: int) returns (supply: int)
    requires p.Ok()
    ensures supply == EstimatedSupply(p, height)
  {
    if height <= 0 {
      return 0;
    }
    supply := p.blockOneSubsidy;
    var reductions := height / p.interval;
    DivNonNegative(height, p.interval);
    var subsidy: nat := p.baseSubsidy;
    for i := 0 to reductions
      invariant subsidy == p.Reduced(i) && supply == p.blockOneSubsidy + p.Intervals(i)
    {
      supply := supply + p.interval * subsidy;
      subsidy := subsidy * p.mulSubsidy;
      subsidy := subsidy / p.divSubsidy;
    }
    supply := supply + (1 + height % p.interval) * subsidy;
    supply := supply - p.baseSubsidy * 2;
  }

  lemma EstimateIs(p: SubsidyParams, height: nat)
    requires p.Ok() && height > 0
    ensures EstimatedSupply(p, height) == p.Supply(height) + if p.interval == 1 then p.Reduced(1) - p.baseSubsidy else 0
  {
    hide EstimatedSupply, p.Supply, p.SubsidySum, p.Intervals, p.Reduced, p.SubsidyAt;
    DivNonNegative(height, p.interval);
    EstimateOpen(p, height);
    DivMod(height, p.interval);
    SumByIntervals(p, height / p.interval, height % p.interval, height);
    SupplyIsSum(p, height);
    FirstSubsidies(p);
  }

  lemma EstimateOpen(p: SubsidyParams, height: nat)
    requires p.Ok() && height > 0
    ensures EstimatedSupply(p, height) ==
            p.blockOneSubsidy + p.Intervals(height / p.interval)
            + (1 + height % p.interval) * p.Reduced(height / p.interval)
            - p.baseSubsidy * 2
  {}

  /** The estimate is the sum of the full subsidies exactly when block one would not have been reduced,
      as with every interval above one, or the first reduction changes nothing. */
  lemma EstimateIsExact(p: SubsidyParams, height: nat)
    requires p.Ok() && height > 0
    ensures EstimatedSupply(p, height) == p.Supply(height) <==> p.interval >= 2 || p.Reduced(1) == p.baseSubsidy
  {
    hide p.Supply, EstimatedSupply, p.Reduced;
    EstimateIs(p, height);
  }

  /** With a reduction at every block the estimate is off. */
  lemma EstimateOffExample()
    ensures var p := SubsidyParams(100, 1, 2, 1, 0); EstimatedSupply(p, 1) == -50 && p.Supply(1) == 0
  {
    var p := SubsidyParams(100, 1, 2, 1, 0);
    assert p.Reduced(0) == 100 && p.Reduced(1) == 50 && p.Intervals(0) == 0 && p.Intervals(1) == 100;
  }

  // What the schedule and the price are.

  /** q is the quotient rounded down. */
  predicate IsQuotient(a: int, m: int, q: int) {
    q * m <= a < (q + 1) * m
  }

  lemma QuotientIs(a: int, m: int)
    requires m > 0
    ensures IsQuotient(a, m, a / m)
  {
    DivMod(a, m);
    NextMultiple(a / m, m);
  }

  lemma QuotientUnique(a: int, m: int, q: int)
    requires m > 0 && IsQuotient(a, m, q)
    ensures a / m == q
  {
    NextMultiple(q, m);
    ModUnique(a, m, q, a - q * m);
  }

  /** Subsidies by height: the base subsidy at first, reduced by the ratio whenever an interval is over. */
  predicate IsSchedule(p: SubsidyParams, s: seq<nat>)
    requires p.Ok()
  {
    && (s != [] ==> s[0] == p.baseSubsidy)
    && forall h: nat :: 1 <= h < |s| ==> FollowsAt(p, s, h)
  }

  predicate FollowsAt(p: SubsidyParams, s: seq<nat>, h: nat)
    requires p.Ok() && 1 <= h < |s|
  {
    if h % p.interval == 0 then IsQuotient(s[h - 1] * p.mulSubsidy, p.divSubsidy, s[h]) else s[h] == s[h - 1]
  }

  lemma IntervalOver(h: nat, m: nat)
    requires h > 0 && m > 0
    ensures 0 <= h / m && 0 <= (h - 1) / m
    ensures h % m == 0 ==> (h - 1) / m == h / m - 1
    ensures h % m != 0 ==> (h - 1) / m == h / m
  {
    DivMod(h, m);
    DivNonNegative(h, m);
    DivNonNegative(h - 1, m);
    if h % m == 0 {
      NextMultiple(h / m - 1, m);
      ModUnique(h - 1, m, h / m - 1, m - 1);
    } else {
      ModUnique(h - 1, m, h / m, h % m - 1);
    }
  }

  lemma {:induction false} ScheduleIs(p: SubsidyParams, s: seq<nat>, h: nat)
    requires p.Ok() && IsSchedule(p, s) && h < |s|
    ensures s[h] == p.SubsidyAt(h)
  {
    if h == 0 {
      SumStart(p);
    } else {
      assert FollowsAt(p, s, h);
      ScheduleIs(p, s, h - 1);
      IntervalOver(h, p.interval);
      if h % p.interval == 0 {
        QuotientUnique(s[h - 1] * p.mulSubsidy, p.divSubsidy, s[h]);
        assert h / p.interval > 0 by {
          DivMod(h, p.interval);
        }
      }
    }
  }

  function Total(s: seq<nat>): nat {
    if s == [] then 0 else Total(s[..|s| - 1]) + s[|s| - 1]
  }

  lemma {:induction false} SupplyIsTotal(p: SubsidyParams, s: seq<nat>)
    requires p.Ok() && IsSchedule(p, s) && |s| >= 2
    ensures p.Supply(|s| - 1) == p.blockOneSubsidy + Total(s[2..])
  {
    if |s| > 2 {
      var init := s[..|s| - 1];
      assert IsSchedule(p, init) by {
        forall h: nat | 1 <= h < |init| ensures FollowsAt(p, init, h) {
          assert FollowsAt(p, s, h);
        }
      }
      SupplyIsTotal(p, init);
      assert s[2..][..|s[2..]| - 1] == init[2..];
      ScheduleIs(p, s, |s| - 1);
    }
  }

  /** The estimate at a height is the subsidy of block one and all scheduled subsidies from block two on,
      exactly when block one would not have been reduced. */
  lemma EstimateIsScheduled(p: SubsidyParams, s: seq<nat>)
    requires p.Ok() && IsSchedule(p, s) && |s| >= 2
    ensures EstimatedSupply(p, |s| - 1) == p.blockOneSubsidy + Total(s[2..]) <==> s[1] == p.baseSubsidy
  {
    hide EstimatedSupply, p.Supply, IsSchedule, Total;
    SupplyIsTotal(p, s);
    ScheduleIs(p, s, 1);
    FirstSubsidies(p);
    EstimateIs(p, |s| - 1);
  }

  lemma ScheduleNext(p: SubsidyParams, s: seq<nat>, next: nat)
    requires p.Ok() && IsSchedule(p, s) && s != [] && FollowsAt(p, s + [next], |s|)
    ensures IsSchedule(p, s + [next])
  {
    var more := s + [next];
    forall h: nat | 1 <= h < |more| ensures FollowsAt(p, more, h) {
      if h < |s| {
        assert FollowsAt(p, s, h);
        assert more[h] == s[h] && more[h - 1] == s[h - 1];
      }
    }
  }

  lemma NextSubsidy(p: SubsidyParams, before: nat) returns (next: nat)
    requires p.Ok()
    ensures IsQuotient(before * p.mulSubsidy, p.divSubsidy, next)
  {
    var a := before * p.mulSubsidy;
    QuotientIs(a, p.divSubsidy);
    DivNonNegative(a, p.divSubsidy);
    next := a / p.divSubsidy;
  }

  /** There is a schedule of any length. */
  lemma {:induction false} HasSchedule(p: SubsidyParams, size: nat) returns (s: seq<nat>)
    requires p.Ok()
    ensures |s| == size && IsSchedule(p, s)
  {
    hide IsQuotient;
    if size == 0 {
      s := [];
    } else if size == 1 {
      s := [p.baseSubsidy];
    } else {
      hide IsSchedule;
      var init := HasSchedule(p, size - 1);
      var h := size - 1;
      var next := init[h - 1];
      if h % p.interval == 0 {
        next := NextSubsidy(p, init[h - 1]);
      }
      s := init + [next];
      ScheduleNext(p, init, next);
    }
  }

  lemma DivNonNegative(a: int, m: int)
    requires a >= 0 && m > 0
    ensures a / m >= 0
  {}

  lemma FirstSubsidies(p: SubsidyParams)
    requires p.Ok()
    ensures p.SubsidyAt(0) == p.baseSubsidy
    ensures p.SubsidyAt(1) == if p.interval == 1 then p.Reduced(1) else p.baseSubsidy
  {
    ModUnique(0, p.interval, 0, 0);
    if p.interval == 1 {
      ModUnique(1, 1, 1, 0);
    } else {
      ModUnique(1, p.interval, 0, 1);
    }
  }

  // The ticket price.

  datatype StakeParams = StakeParams(
    subsidy: SubsidyParams,
    votesPerBlock: nat,
    ticketPoolSize: nat,
    ticketMaturity: nat,
    minimumStakeDiff: int,
    coinbaseMaturity: nat,
    stakeDiffWindowSize: nat)
  {
    predicate Ok() {
      subsidy.Ok() && votesPerBlock > 0 && ticketPoolSize > 0 && stakeDiffWindowSize > 0
    }

    function TargetPoolSizeAll(): (r: nat)
      requires Ok()
      ensures r > 0
    {
      PositiveProduct(votesPerBlock, ticketPoolSize + ticketMaturity);
      votesPerBlock * (ticketPoolSize + ticketMaturity)
    }

    function MaximumStakeDiff(nextHeight: int): int
      requires Ok()
    {
      GoDiv(EstimatedSupply(subsidy, nextHeight), ticketPoolSize)
    }
  }

  lemma PositiveProduct(a: int, b: int)
    requires a > 0 && b > 0
    ensures a * b > 0
  {}

  function Clamp(x: int, low: int, high: int): int {
    var x := if x > high then high else x;
    if x < low then low else x
  }

  /** The single quotient: the price times the square of the pool size, over the previous and the
      target pool size. */
  function Quotient(p: StakeParams, curDiff: int, prevPoolSizeAll: int, curPoolSizeAll: int): int
    requires p.Ok() && prevPoolSizeAll > 0
  {
    PositiveProduct(prevPoolSizeAll, p.TargetPoolSizeAll());
    (curDiff * curPoolSizeAll * curPoolSizeAll) / (prevPoolSizeAll * p.TargetPoolSizeAll())
  }

  /** Dividing twice, rounding down each time, is dividing once by the product. */
  lemma DivTwice(a: int, b: int, c: int)
    requires b > 0 && c > 0
    ensures b * c > 0 && (a / b) / c == a / (b * c)
  {
    PositiveProduct(b, c);
    var q := (a / b) / c;
    var r := (a / b) % c * b + a % b;
    DivMod(a, b);
    DivMod(a / b, c);
    assert a == q * (b * c) + r by {
      Rearrange(q, c, b, (a / b) % c);
    }
    MulMono((a / b) % c, c - 1, b);
    Rearrange(1, c - 1, b, 1);
    MulMono(0, (a / b) % c, b);
    assert 0 <= r < b * c by {
      assert (c - 1) * b + b == c * b;
    }
    ModUnique(a, b * c, q, r);
  }

  lemma Rearrange(q: int, c: int, b: int, m: int)
    ensures (q * c + m) * b == q * (b * c) + m * b
  {
    assert (q * c) * b == q * (b * c);
  }

  /** The next ticket price, by the algorithm of DCP0001 as computed, with the 64-bit conversion. */
  method CalcNextStakeDiffV2(p: StakeParams, nextHeight: int, curDiff: int, prevPoolSizeAll: int, curPoolSizeAll: int)
    returns (nextDiff: int)
    requires p.Ok() && prevPoolSizeAll > 0
    ensures nextDiff ==
      Clamp(Int64(Quotient(p, curDiff, prevPoolSizeAll, curPoolSizeAll)), p.minimumStakeDiff,
            p.MaximumStakeDiff(nextHeight))
  {
    hide EstimatedSupply, Int64;
    var targetPoolSizeAll := p.votesPerBlock * (p.ticketPoolSize + p.ticketMaturity);
    PositiveProduct(p.votesPerBlock, p.ticketPoolSize + p.ticketMaturity);
    var nextDiffBig := curDiff;
    nextDiffBig := nextDiffBig * curPoolSizeAll;
    nextDiffBig := nextDiffBig * curPoolSizeAll;
    DivTwice(nextDiffBig, prevPoolSizeAll, targetPoolSizeAll);
    nextDiffBig := nextDiffBig / prevPoolSizeAll;
    nextDiffBig := nextDiffBig / targetPoolSizeAll;
    nextDiff := Int64(nextDiffBig);
    var estimatedSupply := EstimateSupply(p.subsidy, nextHeight);
    var maximumStakeDiff := GoDiv(estimatedSupply, p.ticketPoolSize);
    if nextDiff > maximumStakeDiff {
      nextDiff := maximumStakeDiff;
    }
    if nextDiff < p.minimumStakeDiff {
      nextDiff := p.minimumStakeDiff;
    }
  }

  const MAX_INT64 := 0x7fff_ffff_ffff_ffff

  /** The formula of the specification, without a 64-bit limit. */
  function SpecifiedStakeDiff(p: StakeParams, nextHeight: int, curDiff: int, prevPoolSizeAll: int,
                              curPoolSizeAll: int): int
    requires p.Ok() && prevPoolSizeAll > 0
  {
    Clamp(Quotient(p, curDiff, prevPoolSizeAll, curPoolSizeAll), p.minimumStakeDiff, p.MaximumStakeDiff(nextHeight))
  }

  function ComputedStakeDiff(p: StakeParams, nextHeight: int, curDiff: int, prevPoolSizeAll: int,
                             curPoolSizeAll: int): int
    requires p.Ok() && prevPoolSizeAll > 0
  {
    Clamp(Int64(Quotient(p, curDiff, prevPoolSizeAll, curPoolSizeAll)), p.minimumStakeDiff,
          p.MaximumStakeDiff(nextHeight))
  }

  /** Where the limits allow the value it is taken, else the limit it passes; a maximum below the minimum
      gives the minimum. */
  lemma ClampIs(x: int, low: int, high: int)
    ensures low <= x <= high ==> Clamp(x, low, high) == x
    ensures low <= high < x ==> Clamp(x, low, high) == high
    ensures x < low || high < low ==> Clamp(x, low, high) == low
  {}

  /** The price before the limits is the current one times the pool size relative to the target and to
      the previous size; the maximum is what each ticket of a full pool could cost.  The target is the
      votes of a block times the tickets and maturing tickets per vote. */
  lemma PriceIs(p: StakeParams, nextHeight: int, curDiff: int, prevPoolSizeAll: int, curPoolSizeAll: int)
    returns (q: int, max: int)
    requires p.Ok() && prevPoolSizeAll > 0
    ensures IsQuotient(curDiff * (curPoolSizeAll * curPoolSizeAll),
                       prevPoolSizeAll * (p.votesPerBlock * (p.ticketPoolSize + p.ticketMaturity)), q)
    ensures var supply := EstimatedSupply(p.subsidy, nextHeight);
            if supply >= 0 then IsQuotient(supply, p.ticketPoolSize, max)
            else IsQuotient(-supply, p.ticketPoolSize, -max)
    ensures q <= MAX_INT64 && curDiff >= 0 ==>
      var diff := ComputedStakeDiff(p, nextHeight, curDiff, prevPoolSizeAll, curPoolSizeAll);
      && (p.minimumStakeDiff <= q <= max ==> diff == q)
      && (p.minimumStakeDiff <= max < q ==> diff == max)
      && (q < p.minimumStakeDiff || max < p.minimumStakeDiff ==> diff == p.minimumStakeDiff)
  {
    hide EstimatedSupply, Clamp, Int64;
    q := Quotient(p, curDiff, prevPoolSizeAll, curPoolSizeAll);
    max := p.MaximumStakeDiff(nextHeight);
    var supply, d := EstimatedSupply(p.subsidy, nextHeight), prevPoolSizeAll * p.TargetPoolSizeAll();
    PositiveProduct(prevPoolSizeAll, p.TargetPoolSizeAll());
    Square(curDiff, curPoolSizeAll);
    QuotientIs(curDiff * curPoolSizeAll * curPoolSizeAll, d);
    QuotientIs(supply, p.ticketPoolSize);
    QuotientIs(-supply, p.ticketPoolSize);
    if q <= MAX_INT64 && curDiff >= 0 {
      SquareNonNegative(curDiff, curPoolSizeAll);
      DivNonNegative(curDiff * curPoolSizeAll * curPoolSizeAll, d);
      Int64Fits(q);
      ClampIs(q, p.minimumStakeDiff, max);
    }
  }

  lemma Square(a: int, x: int)
    ensures a * x * x == a * (x * x)
  {}

  lemma SquareNonNegative(a: int, x: int)
    requires a >= 0
    ensures a * x * x >= 0
  {
    assert x * x >= 0;
    Square(a, x);
  }

  lemma Int64Fits(x: int)
    requires -MAX_INT64 <= x <= MAX_INT64
    ensures Int64(x) == x
  {}

  /** The computed price is the specified one exactly when the quotient fits 64 bits, or its low 64
      bits still exceed the maximum, or the maximum is not above the minimum. */
  lemma StakeDiffMeetsSpecification(p: StakeParams, nextHeight: int, curDiff: int, prevPoolSizeAll: int,
                                    curPoolSizeAll: int)
    requires p.Ok() && prevPoolSizeAll > 0 && curDiff >= 0 && curPoolSizeAll >= 0
      && p.MaximumStakeDiff(nextHeight) <= MAX_INT64
    ensures ComputedStakeDiff(p, nextHeight, curDiff, prevPoolSizeAll, curPoolSizeAll)
            == SpecifiedStakeDiff(p, nextHeight, curDiff, prevPoolSizeAll, curPoolSizeAll)
      <==> (var q := Quotient(p, curDiff, prevPoolSizeAll, curPoolSizeAll);
            q <= MAX_INT64 || Int64(q) >= p.MaximumStakeDiff(nextHeight)
              || p.MaximumStakeDiff(nextHeight) <= p.minimumStakeDiff)
  {
    hide EstimatedSupply;
    QuotientMonotone(p, curDiff, prevPoolSizeAll, 0, curPoolSizeAll);
  }

  /** With a pool of 2^31 tickets, within the 32-bit field of a header, and a price of 4 the low 64 bits
      of the quotient are zero: the price drops to the minimum where the specification asks for the
      maximum. */
  lemma StakeDiffWrapsExample()
    ensures var p := StakeParams(SubsidyParams(100, 1, 1, 2, 50), 1, 1, 0, 1, 0, 1);
            && p.Ok()
            && ComputedStakeDiff(p, 1, 4, 1, 0x8000_0000) == 1
            && SpecifiedStakeDiff(p, 1, 4, 1, 0x8000_0000) == 50
  {
    var p := StakeParams(SubsidyParams(100, 1, 1, 2, 50), 1, 1, 0, 1, 0, 1);
    assert p.TargetPoolSizeAll() == 1;
    assert Quotient(p, 4, 1, 0x8000_0000) == 0x1_0000_0000_0000_0000;
    assert p.subsidy.Intervals(0) == 0 && p.subsidy.Reduced(0) == 100;
    assert EstimatedSupply(p.subsidy, 1) == 50;
  }

  lemma QuotientMonotone(p: StakeParams, curDiff: int, prevPoolSizeAll: int, a: int, b: int)
    requires p.Ok() && prevPoolSizeAll > 0 && curDiff >= 0 && 0 <= a <= b
    ensures 0 <= Quotient(p, curDiff, prevPoolSizeAll, a) <= Quotient(p, curDiff, prevPoolSizeAll, b)
  {
    var d := prevPoolSizeAll * p.TargetPoolSizeAll();
    PositiveProduct(prevPoolSizeAll, p.TargetPoolSizeAll());
    MulNonNeg(a, b, curDiff);
    MulNonNeg(a, b, a);
    MulNonNeg(curDiff * a, curDiff * b, a);
    MulNonNeg(a, b, curDiff * b);
    DivMono(curDiff * a * a, curDiff * b * b, d);
  }

  lemma MulNonNeg(a: int, b: int, x: int)
    requires 0 <= a <= b && x >= 0
    ensures 0 <= x * a <= x * b && 0 <= a * x <= b * x
  {}

  lemma DivMono(a: int, b: int, m: int)
    requires 0 <= a <= b && m > 0
    ensures 0 <= a / m <= b / m
  {
    DivMod(a, m);
    DivMod(b, m);
    var q, r: int := a / m, b / m;
    MulMono(r + 1, q, m);
    NextMultiple(r, m);
    MulMono(q, -1, m);
  }

  /** A larger pool never lowers the price, as long as the quotient fits 64 bits. */
  lemma StakeDiffMonotone(p: StakeParams, nextHeight: int, curDiff: int, prevPoolSizeAll: int, a: int, b: int)
    requires p.Ok() && prevPoolSizeAll > 0 && curDiff >= 0 && 0 <= a <= b
    requires Quotient(p, curDiff, prevPoolSizeAll, b) <= MAX_INT64
    ensures ComputedStakeDiff(p, nextHeight, curDiff, prevPoolSizeAll, a) <=
      ComputedStakeDiff(p, nextHeight, curDiff, prevPoolSizeAll, b)
  {
    hide EstimatedSupply;
    QuotientMonotone(p, curDiff, prevPoolSizeAll, a, b);
  }

  // Walking back for the ticket counts.

  function FreshTickets(nodes: seq<BlockNode>): nat {
    if nodes == [] then 0 else nodes[0].freshStake + FreshTickets(nodes[1..])
  }

  method SumPurchasedTickets(startNode: Option<BlockNode>, numToSum: nat) returns (numPurchased: nat)
    ensures numPurchased == FreshTickets(LastNodes(startNode, numToSum))
  {
    numPurchased := 0;
    var node, numTraversed := startNode, 0;
    while node.Some? && numTraversed < numToSum
      invariant 0 <= numTraversed <= numToSum
      invariant numPurchased + FreshTickets(LastNodes(node, numToSum - numTraversed)) ==
        FreshTickets(LastNodes(startNode, numToSum))
      decreases numToSum - numTraversed
    {
      numPurchased := numPurchased + node.value.freshStake;
      node := node.value.parent;
      numTraversed := numTraversed + 1;
    }
  }

  /** The live and the immature tickets at a block. */
  function PoolSizeAll(p: StakeParams, node: Option<BlockNode>): nat {
    (if node.Some? then node.value.poolSize else 0) + FreshTickets(LastNodes(node, p.ticketMaturity))
  }

  /** The fresh tickets of the last blocks up to a node, newest first. */
  ghost predicate AreBought(bought: seq<nat>, n: BlockNode, k: nat) {
    && |bought| == (if k <= n.Height() then k else n.Height() + 1)
    && forall j :: 0 <= j < |bought| ==> BoughtAt(n, j) == Some(bought[j])
  }

  /** The tickets bought so many blocks below the node. */
  function BoughtAt(n: BlockNode, depth: int): Option<nat> {
    var a := n.AncestorAt(n.Height() - depth);
    if a.Some? then Some(a.value.freshStake) else None
  }

  lemma {:induction false} FreshTicketsAre(nodes: seq<BlockNode>, bought: seq<nat>)
    requires |bought| == |nodes| && forall j :: 0 <= j < |nodes| ==> bought[j] == nodes[j].freshStake
    ensures FreshTickets(nodes) == Total(bought)
  {
    if nodes != [] {
      FreshTicketsAre(nodes[1..], bought[1..]);
      TotalSplit(bought[..1], bought[1..]);
      assert bought == bought[..1] + bought[1..] && bought[..1] == [bought[0]];
      assert Total([bought[0]]) == bought[0];
    }
  }

  lemma {:induction false} TotalSplit(a: seq<nat>, b: seq<nat>)
    ensures Total(a + b) == Total(a) + Total(b)
    decreases |b|
  {
    if b == [] {
      assert a + b == a;
    } else {
      assert (a + b)[..|a + b| - 1] == a + b[..|b| - 1];
      TotalSplit(a, b[..|b| - 1]);
    }
  }

  /** The size of the pool with the tickets still maturing: the live tickets at the node and those bought
      in the last blocks up to it, as many as it takes to mature. */
  lemma PoolSizeAllIs(p: StakeParams, n: BlockNode) returns (bought: seq<nat>)
    ensures AreBought(bought, n, p.ticketMaturity)
    ensures PoolSizeAll(p, Some(n)) == n.poolSize + Total(bought)
  {
    var nodes := LastNodes(Some(n), p.ticketMaturity);
    LastNodesAre(n, p.ticketMaturity);
    bought := seq(|nodes|, j requires 0 <= j < |nodes| => nodes[j].freshStake);
    forall j | 0 <= j < |bought| ensures BoughtAt(n, j) == Some(bought[j]) {
      assert n.AncestorAt(n.Height() - j) == Some(nodes[j]);
    }
    FreshTicketsAre(nodes, bought);
  }

  /** The ticket price only changes at the start of a window, and then by the pool sizes before this
      window and before the previous one. */
  method CalcNextRequiredStakeDifficultyV2(p: StakeParams, curNode: Option<BlockNode>) returns (diff: int)
    requires p.Ok()
    ensures var nextHeight := if curNode.Some? then curNode.value.Height() + 1 else 0;
      if nextHeight < p.coinbaseMaturity + 1 then diff == p.minimumStakeDiff
      else if nextHeight % p.stakeDiffWindowSize != 0 then diff == curNode.value.sbits
      else
        var prevAll := PoolSizeAll(p, curNode.value.AncestorAt(nextHeight - p.stakeDiffWindowSize - 1));
        if prevAll == 0 then diff == curNode.value.sbits
        else diff == ComputedStakeDiff(p, nextHeight, curNode.value.sbits, prevAll, PoolSizeAll(p, curNode))
  {
    hide EstimatedSupply, Quotient, Clamp, Int64, LastNodes, FreshTickets;
    var nextHeight := 0;
    if curNode.Some? {
      nextHeight := curNode.value.Height() + 1;
    }
    var stakeDiffStartHeight := p.coinbaseMaturity + 1;
    if nextHeight < stakeDiffStartHeight {
      return p.minimumStakeDiff;
    }
    var intervalSize := p.stakeDiffWindowSize;
    var curDiff := curNode.value.sbits;
    if nextHeight % intervalSize != 0 {
      return curDiff;
    }
    var prevPoolSize := 0;
    var prevRetargetHeight := nextHeight - intervalSize - 1;
    var prevRetargetNode := Ancestor(curNode.value, prevRetargetHeight);
    if prevRetargetNode.Some? {
      prevPoolSize := prevRetargetNode.value.poolSize;
    }
    var prevImmatureTickets := SumPurchasedTickets(prevRetargetNode, p.ticketMaturity);
    var prevPoolSizeAll := prevPoolSize + prevImmatureTickets;
    if prevPoolSizeAll == 0 {
      return curDiff;
    }
    var immatureTickets := SumPurchasedTickets(curNode, p.ticketMaturity);
    var curPoolSizeAll := curNode.value.poolSize + immatureTickets;
    diff := CalcNextStakeDiffV2(p, nextHeight, curDiff, prevPoolSizeAll, curPoolSizeAll);
  }
}
