/** Retargeting of the proof of work target (blockchain/difficulty.go), before the target is compacted
    into header bits. */
module WorkDifficulty {
  import opened Wrappers
  import opened BlockNodes
  import opened GoArithmetic
  import opened MedianTime

  /** Window size and count, the exponent of the weights, the time a window should take in seconds, the
      bound on one adjustment and the highest target. */
  datatype WorkParams = WorkParams(windowSize: nat, windows: nat, alpha: nat, targetTimespan: nat,
                                   adjustmentFactor: nat, powLimit: nat,
                                   reduceMinDifficulty: bool, minDiffReductionTime: int)
  {
    predicate Ok() {
      windowSize > 0 && windows > 0 && targetTimespan > 0 && adjustmentFactor > 0 && powLimit > 0
    }
  }

  const FIXED_ONE := 0x1_0000_0000

  lemma PositiveProduct(a: int, b: int)
    requires a > 0 && b > 0
    ensures a * b > 0
  {}

  // What the windows say.

  /** The parent, or genesis itself. */
  function BackOne(n: BlockNode): BlockNode {
    if n.parent.Some? then n.parent.value else n
  }

  /** The block some steps back, staying at genesis. */
  function Back(n: BlockNode, steps: nat): BlockNode {
    if steps == 0 then n else BackOne(Back(n, steps - 1))
  }

  /** How long the k-th window back took; a window that reaches genesis counts as on target. */
  function WindowTime(p: WorkParams, n: BlockNode, k: nat): int {
    var recent, older := Back(n, k * p.windowSize), Back(n, (k + 1) * p.windowSize);
    if older.parent.None? then p.targetTimespan else recent.timestamp - older.timestamp
  }

  /** Recent windows weigh exponentially more. */
  function WindowWeight(p: WorkParams, k: nat): (r: nat)
    requires k < p.windows
    ensures r > 0
  {
    ExponentOk(p.windows - k, p.alpha);
    Pow2((p.windows - k) * p.alpha)
  }

  lemma ExponentOk(a: nat, b: nat)
    ensures a * b >= 0
  {}

  /** The ratio of a window's time to the target in fixed point with 32 fractional bits. */
  function WindowChange(p: WorkParams, n: BlockNode, k: nat): int
    requires p.Ok() && k < p.windows
  {
    (WindowTime(p, n, k) * FIXED_ONE) / p.targetTimespan
  }

  function WeightedSum(p: WorkParams, n: BlockNode, k: nat): int
    requires p.Ok() && k <= p.windows
  {
    if k == 0 then 0 else WeightedSum(p, n, k - 1) + WindowChange(p, n, k - 1) * WindowWeight(p, k - 1)
  }

  function Weights(p: WorkParams, k: nat): nat
    requires k <= p.windows
  {
    if k == 0 then 0 else Weights(p, k - 1) + WindowWeight(p, k - 1)
  }

  lemma {:induction false} WeightsPositive(p: WorkParams, k: nat)
    requires 0 < k <= p.windows
    ensures Weights(p, k) > 0
  {}

  /** The average change applied to the old target. */
  function RawTarget(p: WorkParams, n: BlockNode): int
    requires p.Ok()
  {
    WeightsPositive(p, p.windows);
    (WeightedSum(p, n, p.windows) / Weights(p, p.windows) * n.target) / FIXED_ONE
  }

  /** The limits on one adjustment: a zero target turns into the easiest one. */
  function Limited(p: WorkParams, oldTarget: int, raw: int): int
    requires p.Ok()
  {
    var next := if oldTarget == 0 then raw
                else if raw == 0 then p.powLimit
                else if raw > oldTarget * p.adjustmentFactor then oldTarget * p.adjustmentFactor
                else if raw < oldTarget / p.adjustmentFactor then oldTarget / p.adjustmentFactor
                else raw;
    if next > p.powLimit then p.powLimit else next
  }

  /** Position i, j blocks into the window after the first wp ones, ends a window exactly when j is the
      window size, and ends all windows exactly when wp + 1 is their number. */
  lemma WindowEnd(size: nat, windows: nat, wp: nat, j: nat, i: int)
    requires size > 0 && wp < windows && j <= size && i == wp * size + j && (j == 0 ==> i == 0)
    ensures i % size == 0 && i != 0 <==> j == size
    ensures j == size ==> i == (wp + 1) * size
    ensures i <= size * windows && (i == size * windows <==> j == size && wp + 1 == windows)
  {
    NextMultiple(wp, size);
    if j < size {
      ModUnique(i, size, wp, j);
    } else {
      ModUnique(i, size, wp + 1, 0);
    }
    MulMono(0, wp, size);
    MulMono(wp + 1, windows, size);
    MulMono(wp + 2, windows, size);
    NextMultiple(wp + 1, size);
    assert size * windows == windows * size;
  }

  lemma SumsStart(p: WorkParams, n: BlockNode)
    requires p.Ok()
    ensures Weights(p, 0) == 0 && WeightedSum(p, n, 0) == 0 && Back(n, 0) == n && 0 * p.windowSize == 0
  {}

  lemma WeightsStep(p: WorkParams, k: nat)
    requires k < p.windows
    ensures Weights(p, k + 1) == Weights(p, k) + WindowWeight(p, k)
  {}

  lemma SumStep(p: WorkParams, n: BlockNode, k: nat)
    requires p.Ok() && k < p.windows
    ensures WeightedSum(p, n, k + 1) == WeightedSum(p, n, k) + WindowChange(p, n, k) * WindowWeight(p, k)
  {}

  /** The change of one window, weighted. */
  method WeighWindow(p: WorkParams, ghost n: BlockNode, windowPeriod: nat, recentTime: int, oldNode: BlockNode)
    returns (windowAdjusted: int, weight: nat)
    requires p.Ok() && windowPeriod < p.windows
    requires recentTime == Back(n, windowPeriod * p.windowSize).timestamp
      && oldNode == Back(n, (windowPeriod + 1) * p.windowSize)
    ensures weight == WindowWeight(p, windowPeriod)
    ensures windowAdjusted == WindowChange(p, n, windowPeriod) * WindowWeight(p, windowPeriod)
  {
    hide Back;
    var olderTime := oldNode.timestamp;
    var timeDifference := recentTime - olderTime;
    if oldNode.Height() == 0 {
      timeDifference := p.targetTimespan;
    }
    var timeDifBig := timeDifference * FIXED_ONE;
    windowAdjusted := timeDifBig / p.targetTimespan;
    ExponentOk(p.windows - windowPeriod, p.alpha);
    weight := Pow2((p.windows - windowPeriod) * p.alpha);
    windowAdjusted := windowAdjusted * weight;
  }

  /** One window at a time, walking the blocks one by one. */
  method SumWindows(p: WorkParams, curNode: BlockNode) returns (weightedSum: int, weights: nat)
    requires p.Ok()
    ensures weightedSum == WeightedSum(p, curNode, p.windows) && weights == Weights(p, p.windows)
  {
    hide WeightedSum, Weights, WindowChange, WindowWeight, Back;
    var nodesToTraverse := p.windowSize * p.windows;
    var windowChanges: seq<int> := [];
    var windowPeriod: nat := 0;
    weights := 0;
    var oldNode, recentTime := curNode, curNode.timestamp;
    var i: nat := 0;
    ghost var inWindow: nat := 0;
    SumsStart(p, curNode);
    while true
      invariant windowPeriod < p.windows && inWindow <= p.windowSize && |windowChanges| == windowPeriod
      invariant i == windowPeriod * p.windowSize + inWindow && (inWindow == 0 ==> i == 0)
      invariant oldNode == Back(curNode, i) && recentTime == Back(curNode, windowPeriod * p.windowSize).timestamp
      invariant weights == Weights(p, windowPeriod)
      invariant forall k: nat :: k < windowPeriod ==>
        windowChanges[k] == WindowChange(p, curNode, k) * WindowWeight(p, k)
      decreases nodesToTraverse - i
    {
      WindowEnd(p.windowSize, p.windows, windowPeriod, inWindow, i);
      if i % p.windowSize == 0 && i != 0 {
        var windowAdjusted, weight := WeighWindow(p, curNode, windowPeriod, recentTime, oldNode);
        WeightsStep(p, windowPeriod);
        weights := weights + weight;
        windowChanges := windowChanges + [windowAdjusted];
        windowPeriod := windowPeriod + 1;
        recentTime := oldNode.timestamp;
        inWindow := 0;
      }
      if i == nodesToTraverse {
        break;
      }
      BackStep(curNode, i);
      if oldNode.parent.Some? {
        oldNode := oldNode.parent.value;
      }
      i := i + 1;
      inWindow := inWindow + 1;
    }
    weightedSum := 0;
    for k := 0 to p.windows
      invariant weightedSum == WeightedSum(p, curNode, k)
    {
      SumStep(p, curNode, k);
      weightedSum := weightedSum + windowChanges[k];
    }
  }

  lemma BackStep(n: BlockNode, i: nat)
    ensures Back(n, i + 1) == BackOne(Back(n, i))
  {}

  // What the average is.

  /** The block some steps back is the ancestor that many blocks below, or genesis. */
  lemma {:induction false} BackIs(n: BlockNode, steps: nat)
    ensures n.AncestorAt(if steps <= n.Height() then n.Height() - steps else 0) == Some(Back(n, steps))
  {
    if steps > 0 {
      BackIs(n, steps - 1);
      var m, h := Back(n, steps - 1), if steps - 1 <= n.Height() then n.Height() - (steps - 1) else 0;
      AncestorHeight(n, h);
      HeightOf(m);
      if m.parent.Some? {
        AncestorCompose(n, h, h - 1);
        ParentAt(m);
      }
    } else {
      assert n.AncestorAt(n.Height()) == Some(n);
    }
  }

  lemma ParentAt(m: BlockNode)
    requires m.parent.Some?
    ensures m.AncestorAt(m.Height() - 1) == m.parent
  {}

  /** The time of each window, newest first. */
  ghost predicate AreWindowTimes(p: WorkParams, n: BlockNode, times: seq<int>) {
    && |times| == p.windows
    && forall k: nat :: k < |times| ==> IsWindowTime(p, n, k, times[k])
  }

  /** The k-th window back ends with the block k windows below and starts with the block a window below
      that one; when this is genesis or would be below it, the window counts as on target. */
  ghost predicate IsWindowTime(p: WorkParams, n: BlockNode, k: nat, time: int) {
    if (k + 1) * p.windowSize >= n.Height() then time == p.targetTimespan
    else
      var last, first := n.AncestorAt(n.Height() - k * p.windowSize), n.AncestorAt(n.Height() - (k + 1) * p.windowSize);
      last.Some? && first.Some? && time == last.value.timestamp - first.value.timestamp
  }

  lemma WindowTimeIs(p: WorkParams, n: BlockNode, k: nat)
    ensures IsWindowTime(p, n, k, WindowTime(p, n, k))
  {
    hide Back;
    var size := p.windowSize;
    NextMultiple(k, size);
    assert k * size >= 0;
    BackIs(n, k * size);
    BackIs(n, (k + 1) * size);
    var older := Back(n, (k + 1) * size);
    HeightOf(older);
    AncestorHeight(n, if (k + 1) * size <= n.Height() then n.Height() - (k + 1) * size else 0);
  }

  /** The changes of windows with the given times, newest first, in fixed point. */
  function Change(p: WorkParams, time: int): int
    requires p.Ok()
  {
    (time * FIXED_ONE) / p.targetTimespan
  }

  /** The changes added up so that each window counts 2^alpha times the next older one. */
  function Blend(cs: seq<int>, alpha: nat): int {
    if cs == [] then 0 else Pow2(alpha) * Blend(cs[..|cs| - 1], alpha) + cs[|cs| - 1]
  }

  /** The same for as many ones. */
  function Ones(k: nat): seq<int> {
    seq(k, i => 1)
  }

  lemma {:induction false} OnesPositive(k: nat, alpha: nat)
    requires k > 0
    ensures Blend(Ones(k), alpha) > 0
  {
    var init := Ones(k)[..k - 1];
    assert init == Ones(k - 1);
    if k > 1 {
      OnesPositive(k - 1, alpha);
      MulMono(1, Blend(init, alpha), Pow2(alpha));
    } else {
      assert init == [] && Pow2(alpha) * 0 == 0;
    }
  }

  function Changes(p: WorkParams, n: BlockNode, k: nat): (r: seq<int>)
    requires p.Ok() && k <= p.windows
    ensures |r| == k
  {
    seq(k, i requires 0 <= i < k => WindowChange(p, n, i))
  }

  lemma {:induction false} SumIsBlend(p: WorkParams, n: BlockNode, k: nat)
    requires p.Ok() && k <= p.windows
    ensures (p.windows - k + 1) * p.alpha >= 0
    ensures WeightedSum(p, n, k) == Pow2((p.windows - k + 1) * p.alpha) * Blend(Changes(p, n, k), p.alpha)
    ensures Weights(p, k) == Pow2((p.windows - k + 1) * p.alpha) * Blend(Ones(k), p.alpha)
  {
    hide WindowChange, Pow2;
    ExponentOk(p.windows - k + 1, p.alpha);
    if k > 0 {
      SumIsBlend(p, n, k - 1);
      var w, a := Pow2((p.windows - k + 1) * p.alpha), Pow2(p.alpha);
      NextMultiple(p.windows - k + 1, p.alpha);
      Pow2Sum((p.windows - k + 1) * p.alpha, p.alpha);
      var cs, ones := Changes(p, n, k), Ones(k);
      assert cs[..k - 1] == Changes(p, n, k - 1) && ones[..k - 1] == Ones(k - 1);
      Distribute(w, a, Blend(cs[..k - 1], p.alpha), cs[k - 1]);
      Distribute(w, a, Blend(ones[..k - 1], p.alpha), 1);
    }
  }

  lemma Distribute(w: int, a: int, x: int, c: int)
    ensures w * (a * x + c) == (w * a) * x + c * w
  {
    assert w * (a * x) == (w * a) * x;
  }

  lemma DivCancel(f: int, t: int, v: int)
    requires f > 0 && v > 0
    ensures f * v > 0 && (f * t) / (f * v) == t / v
  {
    PositiveProduct(f, v);
    DivMod(t, v);
    var q, r := t / v, t % v;
    assert f * t == q * (f * v) + f * r by {
      assert f * (q * v + r) == q * (f * v) + f * r;
    }
    MulMono(r, v - 1, f);
    assert f * r <= f * v - f by {
      assert (v - 1) * f == f * v - f;
    }
    MulMono(0, r, f);
    ModUnique(f * t, f * v, q, f * r);
  }

  /** The raw target is the old one scaled by the average change of the windows, in which each window
      counts 2^alpha times the next older one. */
  lemma RawTargetIs(p: WorkParams, n: BlockNode) returns (times: seq<int>)
    requires p.Ok()
    ensures AreWindowTimes(p, n, times)
    ensures Blend(Ones(p.windows), p.alpha) > 0
    ensures RawTarget(p, n) ==
      (Blend(ChangesOf(p, times), p.alpha) / Blend(Ones(p.windows), p.alpha) * n.target) / FIXED_ONE
  {
    hide WindowTime, WeightedSum, Weights, Blend, Ones, IsWindowTime;
    times := seq(p.windows, k requires 0 <= k < p.windows => WindowTime(p, n, k));
    forall k: nat | k < p.windows ensures IsWindowTime(p, n, k, times[k]) {
      WindowTimeIs(p, n, k);
    }
    assert ChangesOf(p, times) == Changes(p, n, p.windows);
    OnesPositive(p.windows, p.alpha);
    SumIsBlend(p, n, p.windows);
    WeightsPositive(p, p.windows);
    DivCancel(Pow2((p.windows - p.windows + 1) * p.alpha), Blend(Changes(p, n, p.windows), p.alpha),
              Blend(Ones(p.windows), p.alpha));
  }

  function ChangesOf(p: WorkParams, times: seq<int>): (r: seq<int>)
    requires p.Ok()
    ensures |r| == |times|
  {
    seq(|times|, k requires 0 <= k < |times| => Change(p, times[k]))
  }

  /** Raising one change raises the sum by as much times the power of two for its place. */
  lemma {:induction false} BlendRaised(cs: seq<int>, alpha: nat, i: nat, d: int)
    requires i < |cs|
    ensures (|cs| - 1 - i) * alpha >= 0
    ensures Blend(cs[i := cs[i] + d], alpha) == Blend(cs, alpha) + d * Pow2((|cs| - 1 - i) * alpha)
  {
    hide Pow2;
    ExponentOk(|cs| - 1 - i, alpha);
    var init, last := cs[..|cs| - 1], cs[|cs| - 1];
    var more := cs[i := cs[i] + d];
    if i < |init| {
      BlendRaised(init, alpha, i, d);
      assert more[..|cs| - 1] == init[i := init[i] + d];
      NextMultiple(|init| - 1 - i, alpha);
      Pow2Sum((|init| - 1 - i) * alpha, alpha);
      Raise(Pow2(alpha), Blend(init, alpha), d, Pow2((|init| - 1 - i) * alpha));
    } else {
      assert more[..|cs| - 1] == init;
      PowerOfNone(alpha);
    }
  }

  lemma PowerOfNone(alpha: nat)
    ensures 0 * alpha == 0 && Pow2(0) == 1
  {}

  lemma Raise(a: int, b: int, d: int, w: int)
    ensures a * (b + d * w) == a * b + d * (w * a)
  {
    assert a * (d * w) == d * (w * a);
  }

  /** A longer recent window raises the target at least as much as an older one that is longer by the same,
      and more when the weights differ and the change is not lost to rounding. */
  lemma RecentCountsMore(cs: seq<int>, alpha: nat, i: nat, j: nat, d: nat, target: nat)
    requires i < j < |cs|
    ensures Blend(Ones(|cs|), alpha) > 0
    ensures var recent, older := cs[i := cs[i] + d], cs[j := cs[j] + d];
            var v := Blend(Ones(|cs|), alpha);
            && (Blend(recent, alpha) / v * target) / FIXED_ONE >= (Blend(older, alpha) / v * target) / FIXED_ONE
            && (alpha > 0 && d >= v && target >= FIXED_ONE ==>
                  (Blend(recent, alpha) / v * target) / FIXED_ONE > (Blend(older, alpha) / v * target) / FIXED_ONE)
  {
    hide Blend, Pow2;
    var v := Blend(Ones(|cs|), alpha);
    OnesPositive(|cs|, alpha);
    BlendRaised(cs, alpha, i, d);
    BlendRaised(cs, alpha, j, d);
    var x, y := Blend(cs[i := cs[i] + d], alpha), Blend(cs[j := cs[j] + d], alpha);
    PlacesDiffer(|cs|, alpha, i, j, d);
    assert x >= y && (alpha > 0 ==> x >= y + d);
    DivOrder(y, x, v);
    if target > 0 {
      MulMono(y / v, x / v, target);
    }
    DivOrder(y / v * target, x / v * target, FIXED_ONE);
    if alpha > 0 && d >= v && target >= FIXED_ONE {
      DivApart(y, x, v);
      MulMono(y / v + 1, x / v, target);
      assert x / v * target >= y / v * target + target;
      DivApart(y / v * target, x / v * target, FIXED_ONE);
    }
  }

  lemma PlacesDiffer(size: nat, alpha: nat, i: nat, j: nat, d: nat)
    requires i < j < size
    ensures (size - 1 - i) * alpha >= 0 && (size - 1 - j) * alpha >= 0
    ensures d * Pow2((size - 1 - i) * alpha) >= d * Pow2((size - 1 - j) * alpha) + (if alpha > 0 then d else 0)
  {
    hide Pow2;
    ExponentOk(size - 1 - i, alpha);
    ExponentOk(size - 1 - j, alpha);
    ExponentOk(j - i, alpha);
    assert (size - 1 - i) * alpha == (size - 1 - j) * alpha + (j - i) * alpha;
    Pow2Sum((size - 1 - j) * alpha, (j - i) * alpha);
    var w, g := Pow2((size - 1 - j) * alpha), Pow2((j - i) * alpha);
    if alpha > 0 {
      MulMono(1, j - i, alpha);
      MulMono(2, g, w);
      MoreThan(w * g, w + 1, d);
    } else {
      PowerOfNone(j - i);
      assert (j - i) * alpha == 0;
      assert w * 1 == w;
    }
  }

  lemma MoreThan(x: int, y: int, d: nat)
    requires x >= y
    ensures d * x >= d * y && d * y == d * (y - 1) + d
  {
    if d > 0 {
      MulMono(y, x, d);
    }
    assert d * y == y * d && d * x == x * d;
  }

  lemma DivOrder(a: int, b: int, m: int)
    requires a <= b && m > 0
    ensures a / m <= b / m
  {
    DivMod(a, m);
    DivMod(b, m);
    if a / m > b / m {
      MulMono(b / m + 1, a / m, m);
    }
  }

  lemma DivApart(a: int, b: int, m: int)
    requires a + m <= b && m > 0
    ensures a / m + 1 <= b / m
  {
    DivMod(a, m);
    ModUnique(a + m, m, a / m + 1, a % m);
    DivOrder(a + m, b, m);
  }

  // Test networks, where a block found late may have the easiest target.

  /** The target of the nearest block, from the given one down, that starts a full retarget span or whose
      target is not the easiest; the easiest target when there is none. */
  function LastRegular(p: WorkParams, n: Option<BlockNode>): int
    requires p.Ok()
    decreases n
  {
    PositiveProduct(p.windowSize, p.windows);
    if n.None? then p.powLimit
    else if n.value.Height() % (p.windowSize * p.windows) != 0
      && n.value.target == p.powLimit then LastRegular(p, n.value.parent)
    else n.value.target
  }

  method FindPrevTestNetDifficulty(p: WorkParams, startNode: BlockNode) returns (target: int)
    requires p.Ok()
    ensures target == LastRegular(p, Some(startNode))
  {
    PositiveProduct(p.windowSize, p.windows);
    var blocksPerRetarget := p.windowSize * p.windows;
    var iterNode := Some(startNode);
    while iterNode.Some? && iterNode.value.Height() % blocksPerRetarget != 0 && iterNode.value.target == p.powLimit
      invariant LastRegular(p, iterNode) == LastRegular(p, Some(startNode))
      decreases iterNode
    {
      iterNode := iterNode.value.parent;
    }
    target := if iterNode.Some? then iterNode.value.target else p.powLimit;
  }

  /** The target a block with the given timestamp must have on top of a node. */
  function Required(p: WorkParams, cur: BlockNode, newBlockTime: int): int
    requires p.Ok()
  {
    if (cur.Height() + 1) % p.windowSize == 0 then Limited(p, cur.target, RawTarget(p, cur))
    else if !p.reduceMinDifficulty then cur.target
    else if newBlockTime > cur.timestamp + p.minDiffReductionTime then p.powLimit
    else LastRegular(p, Some(cur))
  }

  /** Every block of the branch has the target required of it. */
  predicate TargetRule(p: WorkParams, n: BlockNode)
    requires p.Ok()
  {
    match n.parent
    case None => true
    case Some(parent) => n.target == Required(p, parent, n.timestamp) && TargetRule(p, parent)
  }

  /** The required target: the limited average at a retarget point, the old target elsewhere, or on test
      networks the easiest one for a late block and else the last regular one. */
  method CalcNextRequiredDifficulty(p: WorkParams, curNode: BlockNode, newBlockTime: int) returns (next: int)
    requires p.Ok()
    ensures next == Required(p, curNode, newBlockTime)
  {
    hide WeightedSum, Weights;
    var oldDiffBig := curNode.target;
    if (curNode.Height() + 1) % p.windowSize != 0 {
      if p.reduceMinDifficulty {
        var allowMinTime := curNode.timestamp + p.minDiffReductionTime;
        if newBlockTime > allowMinTime {
          return p.powLimit;
        }
        next := FindPrevTestNetDifficulty(p, curNode);
        return;
      }
      return oldDiffBig;
    }
    var nextDiffBigMin := oldDiffBig / p.adjustmentFactor;
    var nextDiffBigMax := oldDiffBig * p.adjustmentFactor;
    var weightedSum, weights := SumWindows(p, curNode);
    WeightsPositive(p, p.windows);
    var nextDiffBig := weightedSum / weights;
    nextDiffBig := nextDiffBig * oldDiffBig;
    nextDiffBig := nextDiffBig / FIXED_ONE;
    if oldDiffBig == 0 {
    } else if nextDiffBig == 0 {
      nextDiffBig := p.powLimit;
    } else if nextDiffBig > nextDiffBigMax {
      nextDiffBig := nextDiffBigMax;
    } else if nextDiffBig < nextDiffBigMin {
      nextDiffBig := nextDiffBigMin;
    }
    if nextDiffBig > p.powLimit {
      nextDiffBig := p.powLimit;
    }
    next := nextDiffBig;
  }

  // What the new target can be.

  ghost predicate OnTarget(p: WorkParams, n: BlockNode) {
    forall k: nat :: k < p.windows ==> WindowTime(p, n, k) == p.targetTimespan
  }

  lemma {:induction false} OnTargetSum(p: WorkParams, n: BlockNode, k: nat)
    requires p.Ok() && OnTarget(p, n) && k <= p.windows
    ensures WeightedSum(p, n, k) == FIXED_ONE * Weights(p, k)
  {
    hide WindowTime, WindowWeight;
    if k > 0 {
      OnTargetSum(p, n, k - 1);
      ModUnique(p.targetTimespan * FIXED_ONE, p.targetTimespan, FIXED_ONE, 0);
      assert WindowTime(p, n, k - 1) == p.targetTimespan;
    }
  }

  /** When every window hits its target timespan the target does not change. */
  lemma OnTargetUnchanged(p: WorkParams, n: BlockNode)
    requires p.Ok() && OnTarget(p, n) && 0 <= n.target <= p.powLimit
    ensures RawTarget(p, n) == n.target && Limited(p, n.target, RawTarget(p, n)) == n.target
  {
    hide OnTarget, WeightedSum, Weights;
    OnTargetSum(p, n, p.windows);
    WeightsPositive(p, p.windows);
    ModUnique(FIXED_ONE * Weights(p, p.windows), Weights(p, p.windows), FIXED_ONE, 0);
    ModUnique(FIXED_ONE * n.target, FIXED_ONE, n.target, 0);
    AtLeastOnce(n.target, p.adjustmentFactor);
    AtMostOnce(n.target, p.adjustmentFactor);
  }

  lemma AtLeastOnce(t: nat, f: nat)
    requires f > 0
    ensures t <= t * f
  {
    if t > 0 {
      MulMono(1, f, t);
      assert f * t == t * f;
    }
  }

  lemma AtMostOnce(t: nat, f: nat)
    requires f > 0
    ensures 0 <= t / f <= t
  {
    DivMod(t, f);
    if t / f > t {
      MulMono(t + 1, t / f, f);
      AtLeastOnce(t + 1, f);
    }
    MulMono(t / f, -1, f);
  }

  /** The new target respects the highest target, and stays within the adjustment factor of the old one
      exactly when the average change is not rounded down to zero, or the highest target is no more
      than the factor away. */
  lemma TargetBounds(p: WorkParams, oldTarget: int, raw: int)
    requires p.Ok() && 0 < oldTarget <= p.powLimit
    ensures Limited(p, oldTarget, raw) <= p.powLimit
    ensures Limited(p, oldTarget, raw) >= oldTarget / p.adjustmentFactor
    ensures Limited(p, oldTarget, raw) <= oldTarget * p.adjustmentFactor <==>
      raw != 0 || p.powLimit <= oldTarget * p.adjustmentFactor
  {
    AtLeastOnce(oldTarget, p.adjustmentFactor);
    AtMostOnce(oldTarget, p.adjustmentFactor);
  }

  /** A target one adjustment may reach. */
  predicate Reachable(p: WorkParams, oldTarget: int, x: int)
    requires p.Ok()
  {
    oldTarget / p.adjustmentFactor <= x <= oldTarget * p.adjustmentFactor && x <= p.powLimit
  }

  function Distance(a: int, b: int): nat {
    if a <= b then b - a else a - b
  }

  /** The new target is the reachable one closest to what the windows ask for, unless that is zero. */
  lemma LimitedIsNearest(p: WorkParams, oldTarget: int, raw: int)
    requires p.Ok() && 0 < oldTarget <= p.powLimit
    ensures raw != 0 ==>
      var next := Limited(p, oldTarget, raw);
      && Reachable(p, oldTarget, next)
      && forall x :: Reachable(p, oldTarget, x) && x != next ==> Distance(raw, next) < Distance(raw, x)
    ensures raw == 0 ==> Limited(p, oldTarget, raw) == p.powLimit
  {
    AtLeastOnce(oldTarget, p.adjustmentFactor);
    AtMostOnce(oldTarget, p.adjustmentFactor);
  }

  /** A block of a chain with the given parent, time and target. */
  function Above(parent: BlockNode, timestamp: int, target: int): BlockNode {
    parent.(parent := Some(parent), timestamp := timestamp, target := target)
  }

  /** With windows of one block, the timestamps 0, 10, 20 and 20 keep the past median time rule and every
      block has its required target, and yet the last window makes the average zero and the next target
      the easiest possible, far beyond the adjustment factor. */
  lemma ZeroBranchExample(start: BlockNode)
    ensures var p := WorkParams(1, 1, 0, 10, 4, 1000, false, 0);
            var genesis := start.(parent := None, timestamp := 0, target := 1);
            var a := Above(genesis, 10, 1);
            var b := Above(a, 20, 1);
            var c := Above(b, 20, 1);
            && p.Ok() && TimestampRule(c) && TargetRule(p, c) && RawTarget(p, c) == 0
            && Required(p, c, c.timestamp + 10) == 1000 > c.target * p.adjustmentFactor
  {
    hide TimestampRule, TargetRule, RawTarget, WindowTime;
    var p := WorkParams(1, 1, 0, 10, 4, 1000, false, 0);
    var genesis := start.(parent := None, timestamp := 0, target := 1);
    var a := Above(genesis, 10, 1);
    var b := Above(a, 20, 1);
    var c := Above(b, 20, 1);
    ExampleTimes(genesis, a, b, c, Above(c, 30, 1));
    SingleWindow(p, genesis);
    SingleWindow(p, a);
    SingleWindow(p, b);
    SingleWindow(p, c);
    TargetRuleStart(p, genesis);
    TargetRuleStep(p, a);
    TargetRuleStep(p, b);
    TargetRuleStep(p, c);
  }

  lemma ExampleTimes(genesis: BlockNode, a: BlockNode, b: BlockNode, c: BlockNode, d: BlockNode)
    requires genesis.parent.None? && a.parent == Some(genesis) && b.parent == Some(a) && c.parent == Some(b)
      && d.parent == Some(c)
    requires genesis.timestamp == 0 && a.timestamp == 10 && b.timestamp == 20 && c.timestamp >= 20
      && d.timestamp > c.timestamp
    ensures TimestampRule(c) && TimestampRule(d)
  {
    assert LastTimestamps(Some(genesis), MEDIAN_TIME_BLOCKS) == [0];
    assert LastTimestamps(Some(a), MEDIAN_TIME_BLOCKS) == [10, 0];
    assert LastTimestamps(Some(b), MEDIAN_TIME_BLOCKS) == [20, 10, 0];
    assert LastTimestamps(Some(c), MEDIAN_TIME_BLOCKS) == [c.timestamp, 20, 10, 0];
    assert Sort([0]) == [0];
    assert Sort([10, 0]) == [0, 10];
    assert Sort([20, 10, 0]) == [0, 10, 20];
    assert Sort([c.timestamp, 20, 10, 0]) == Insert(c.timestamp, [0, 10, 20]);
    InsertLast(c.timestamp);
    assert PastMedianTime(genesis) == 0 && PastMedianTime(a) == 10 && PastMedianTime(b) == 10
      && PastMedianTime(c) == 20;
    assert TimestampRule(genesis) && TimestampRule(a) && TimestampRule(b);
  }

  lemma InsertLast(x: int)
    requires x >= 20
    ensures Insert(x, [0, 10, 20]) == [0, 10, 20, x]
  {
    assert [0, 10, 20][1..] == [10, 20] && [10, 20][1..] == [20] && [20][1..] == [];
    assert Insert(x, [20]) == [20, x];
    assert Insert(x, [10, 20]) == [10, 20, x];
  }

  /** With one window of one block the new target is the old one scaled by the time of the last block. */
  lemma SingleWindow(p: WorkParams, n: BlockNode)
    requires p.Ok() && p.windows == 1 && p.windowSize == 1 && p.alpha == 0
    ensures RawTarget(p, n) == ((WindowTime(p, n, 0) * FIXED_ONE) / p.targetTimespan * n.target) / FIXED_ONE
    ensures n.parent.Some? && n.parent.value.parent.Some? ==>
      WindowTime(p, n, 0) == n.timestamp - n.parent.value.timestamp
    ensures n.parent.None? || n.parent.value.parent.None? ==> WindowTime(p, n, 0) == p.targetTimespan
  {
    assert Back(n, 0) == n && Back(n, 1) == BackOne(n);
    assert WindowWeight(p, 0) == 1;
    assert Weights(p, 0) == 0 && WeightedSum(p, n, 0) == 0;
    assert Weights(p, 1) == 1 && WeightedSum(p, n, 1) == WindowChange(p, n, 0);
  }

  /** With two windows of one block and alpha one, a last block that took twice as long as it should moves
      the target two thirds of the way. */
  lemma RecentWindowExample(start: BlockNode)
    ensures var p := WorkParams(1, 2, 1, 10, 4, 100000, false, 0);
            var genesis := start.(parent := None, timestamp := 0, target := 600);
            var n := Above(Above(Above(Above(genesis, 10, 600), 20, 600), 30, 600), 50, 600);
            p.Ok() && TimestampRule(n) && TargetRule(p, n) && Required(p, n, 60) == 999
  {
    hide TimestampRule, TargetRule, Required;
    var p := WorkParams(1, 2, 1, 10, 4, 100000, false, 0);
    var genesis := start.(parent := None, timestamp := 0, target := 600);
    var a := Above(genesis, 10, 600);
    var b := Above(a, 20, 600);
    var c := Above(b, 30, 600);
    var n := Above(c, 50, 600);
    ExampleTimes(genesis, a, b, c, n);
    RecentTargets(p, genesis, a, b, c, n);
    TargetRuleStart(p, genesis);
    TargetRuleStep(p, a);
    TargetRuleStep(p, b);
    TargetRuleStep(p, c);
    TargetRuleStep(p, n);
  }

  lemma RecentTargets(p: WorkParams, genesis: BlockNode, a: BlockNode, b: BlockNode, c: BlockNode, n: BlockNode)
    requires p == WorkParams(1, 2, 1, 10, 4, 100000, false, 0)
    requires genesis.parent == None && genesis.timestamp == 0 && genesis.target == 600
    requires a == Above(genesis, 10, 600) && b == Above(a, 20, 600) && c == Above(b, 30, 600) && n == Above(c, 50, 600)
    ensures Required(p, genesis, 10) == Required(p, a, 20) == Required(p, b, 30) == Required(p, c, 50) == 600
    ensures Required(p, n, 60) == 999
  {
    hide RawTarget, Back;
    TwoWindows(p, genesis);
    TwoWindows(p, a);
    TwoWindows(p, b);
    TwoWindows(p, c);
    TwoWindows(p, n);
    assert WindowTime(p, genesis, 0) == WindowTime(p, genesis, 1) == 10;
    assert WindowTime(p, a, 0) == WindowTime(p, a, 1) == 10;
    assert WindowTime(p, b, 0) == WindowTime(p, b, 1) == 10;
    assert WindowTime(p, c, 0) == WindowTime(p, c, 1) == 10;
    assert WindowTime(p, n, 0) == 20 && WindowTime(p, n, 1) == 10;
  }

  lemma TwoWindows(p: WorkParams, n: BlockNode)
    requires p.Ok() && p.windows == 2 && p.windowSize == 1 && p.alpha == 1
    ensures Back(n, 0) == n && Back(n, 1) == BackOne(n) && Back(n, 2) == BackOne(BackOne(n))
    ensures RawTarget(p, n) == ((WindowChange(p, n, 0) * 4 + WindowChange(p, n, 1) * 2) / 6 * n.target) / FIXED_ONE
  {
    assert Back(n, 0) == n && Back(n, 1) == BackOne(n) && Back(n, 2) == BackOne(Back(n, 1));
    assert Pow2(0) == 1 && Pow2(1) == 2 && Pow2(2) == 4;
    assert WindowWeight(p, 0) == 4 && WindowWeight(p, 1) == 2;
    assert Weights(p, 0) == 0 && Weights(p, 1) == 4 && Weights(p, 2) == 6;
    assert WeightedSum(p, n, 0) == 0 && WeightedSum(p, n, 1) == WindowChange(p, n, 0) * 4;
    assert WeightedSum(p, n, 2) == WeightedSum(p, n, 1) + WindowChange(p, n, 1) * 2;
  }

  // What test networks resume after late blocks.

  /** The start of a full span starts a window. */
  lemma SpanIsWindows(p: WorkParams, height: nat)
    requires p.Ok()
    ensures p.windowSize * p.windows > 0
    ensures height % (p.windowSize * p.windows) == 0 ==> height % p.windowSize == 0
  {
    var span := p.windowSize * p.windows;
    PositiveProduct(p.windowSize, p.windows);
    DivMod(height, span);
    if height % span == 0 {
      assert height == (height / span * p.windows) * p.windowSize;
      ModUnique(height, p.windowSize, height / span * p.windows, 0);
    }
  }

  /** The block that starts the retarget window a node is in. */
  function WindowStart(p: WorkParams, n: BlockNode): (r: BlockNode)
    requires p.Ok()
    ensures n.Extends(r) && r.Height() % p.windowSize == 0
    decreases n
  {
    if n.Height() % p.windowSize == 0 then n else WindowStart(p, n.parent.value)
  }

  /** Blocks with the easiest target in between do not change what a window goes on with: the search ends
      with the target of the window's start, unless that is the easiest target itself. */
  lemma {:induction false} ResumedTarget(p: WorkParams, n: BlockNode)
    requires p.Ok() && p.reduceMinDifficulty && TargetRule(p, n)
    ensures LastRegular(p, Some(n)) == LastRegular(p, Some(WindowStart(p, n)))
    decreases n
  {
    if n.Height() % p.windowSize != 0 {
      ResumedTarget(p, n.parent.value);
      assert n.target == Required(p, n.parent.value, n.timestamp);
      if n.target == p.powLimit {
        SpanIsWindows(p, n.Height());
      }
    }
  }

  /** The special rule was applied: inside a window the block came later than the time allowed. */
  predicate Special(p: WorkParams, n: BlockNode)
    requires p.Ok()
  {
    && n.Height() % p.windowSize != 0
    && n.timestamp > n.parent.value.timestamp + p.minDiffReductionTime
  }

  /** The last block without the special rule, from the given one down. */
  function LastOrdinary(p: WorkParams, n: BlockNode): (r: BlockNode)
    requires p.Ok()
    ensures n.Extends(r) && !Special(p, r)
    decreases n
  {
    if Special(p, n) then LastOrdinary(p, n.parent.value) else n
  }

  /** From the start of its full span up to the node, all blocks have the easiest target. */
  ghost predicate EasiestUpTo(p: WorkParams, n: BlockNode)
    requires p.Ok()
  {
    PositiveProduct(p.windowSize, p.windows);
    forall a :: n.Extends(a) && a.Height() >= n.Height() - n.Height() % (p.windowSize * p.windows) ==>
      a.target == p.powLimit
  }

  /** The same for the blocks before the node; nothing when it starts the span itself. */
  ghost predicate EasiestBefore(p: WorkParams, n: BlockNode)
    requires p.Ok()
  {
    PositiveProduct(p.windowSize, p.windows);
    n.Height() % (p.windowSize * p.windows) != 0 ==> EasiestUpTo(p, n.parent.value)
  }

  /** The search gives the easiest target only when it has seen nothing else. */
  lemma {:induction false} EasiestFound(p: WorkParams, n: BlockNode)
    requires p.Ok()
    ensures LastRegular(p, Some(n)) == p.powLimit <==> EasiestUpTo(p, n)
    decreases n
  {
    PositiveProduct(p.windowSize, p.windows);
    var span, h := p.windowSize * p.windows, n.Height();
    assert n.Extends(n);
    if h % span != 0 {
      var parent := n.parent.value;
      EasiestFound(p, parent);
      SameSpan(h, span);
      forall a | parent.Extends(a) ensures n.Extends(a) {}
    } else {
      forall a | n.Extends(a) && a.Height() >= h ensures a == n {
        ExtendsIffAncestorAt(n, a);
      }
    }
  }

  lemma SameSpan(h: nat, span: nat)
    requires span > 0 && h % span != 0
    ensures h >= 1 && (h - 1) - (h - 1) % span == h - h % span
  {
    SmallMod(0, span);
    DivMod(h, span);
    ModUnique(h - 1, span, h / span, h % span - 1);
  }

  /** What the search finds at a block is that block's own target, unless that is the easiest and some
      block before it in its full span has another one. */
  lemma OwnTarget(p: WorkParams, n: BlockNode)
    requires p.Ok()
    ensures LastRegular(p, Some(n)) == n.target <==> n.target != p.powLimit || EasiestBefore(p, n)
  {
    hide EasiestUpTo;
    PositiveProduct(p.windowSize, p.windows);
    if n.Height() % (p.windowSize * p.windows) != 0 {
      EasiestFound(p, n.parent.value);
    }
  }

  /** The search passes over the blocks with the special rule. */
  lemma {:induction false} SpecialSkipped(p: WorkParams, n: BlockNode)
    requires p.Ok() && p.reduceMinDifficulty && TargetRule(p, n)
    ensures LastRegular(p, Some(n)) == LastRegular(p, Some(LastOrdinary(p, n))) && TargetRule(p, LastOrdinary(p, n))
    decreases n
  {
    if Special(p, n) {
      SpecialSkipped(p, n.parent.value);
      SpanIsWindows(p, n.Height());
    }
  }

  /** On a branch that keeps the rule the search finds the target of the last block without the special
      rule exactly when that target is not the easiest one or all blocks before that block in its full
      span have the easiest target; in particular when that block does not start a window. */
  lemma LastWithoutRule(p: WorkParams, n: BlockNode)
    requires p.Ok() && p.reduceMinDifficulty && TargetRule(p, n)
    ensures var m := LastOrdinary(p, n);
            && (LastRegular(p, Some(n)) == m.target <==> m.target != p.powLimit || EasiestBefore(p, m))
            && (m.Height() % p.windowSize != 0 ==> LastRegular(p, Some(n)) == m.target)
  {
    hide EasiestBefore;
    var m := LastOrdinary(p, n);
    SpecialSkipped(p, n);
    OwnTarget(p, m);
    SpanIsWindows(p, m.Height());
  }

  /** So a block that is not late goes on with the target its window started with exactly when that
      target is not the easiest one or all blocks before the window in its full span have the easiest
      target. */
  lemma WindowGoesOn(p: WorkParams, n: BlockNode, newBlockTime: int)
    requires p.Ok() && p.reduceMinDifficulty && TargetRule(p, n)
    requires (n.Height() + 1) % p.windowSize != 0 && newBlockTime <= n.timestamp + p.minDiffReductionTime
    ensures var s := WindowStart(p, n);
            Required(p, n, newBlockTime) == s.target <==> s.target != p.powLimit || EasiestBefore(p, s)
  {
    hide EasiestBefore;
    ResumedTarget(p, n);
    OwnTarget(p, WindowStart(p, n));
  }

  lemma TargetRuleStep(p: WorkParams, n: BlockNode)
    requires p.Ok() && n.parent.Some? && TargetRule(p, n.parent.value)
    requires n.target == Required(p, n.parent.value, n.timestamp)
    ensures TargetRule(p, n)
  {}

  lemma TargetRuleStart(p: WorkParams, n: BlockNode)
    requires p.Ok() && n.parent.None?
    ensures TargetRule(p, n)
  {}

  /** The third window, of two blocks each, starts with the easiest target because the block before it
      took four times too long.  The special rule did not apply to that start, but the search passes
      over it and the next block goes back to the target of the second window. */
  lemma HarderAgainExample(start: BlockNode)
    ensures var p := WorkParams(2, 3, 0, 10, 4, 2, true, 1000);
            var genesis := start.(parent := None, timestamp := 0, target := 1);
            var n := Above(Above(Above(Above(genesis, 10, 1), 20, 1), 50, 1), 60, 2);
            && p.Ok() && TimestampRule(n) && TargetRule(p, n)
            && LastOrdinary(p, n) == WindowStart(p, n) == n
            && LastRegular(p, Some(n)) == Required(p, n, 70) == 1 < n.target
  {
    hide TimestampRule, TargetRule, Required;
    var p := WorkParams(2, 3, 0, 10, 4, 2, true, 1000);
    var genesis := start.(parent := None, timestamp := 0, target := 1);
    var a := Above(genesis, 10, 1);
    var b := Above(a, 20, 1);
    var c := Above(b, 50, 1);
    var n := Above(c, 60, 2);
    ExampleTimes(genesis, a, b, c, n);
    HarderTargets(p, genesis, a, b, c, n);
    TargetRuleStart(p, genesis);
    TargetRuleStep(p, a);
    TargetRuleStep(p, b);
    TargetRuleStep(p, c);
    TargetRuleStep(p, n);
  }

  lemma HarderTargets(p: WorkParams, genesis: BlockNode, a: BlockNode, b: BlockNode, c: BlockNode, n: BlockNode)
    requires p == WorkParams(2, 3, 0, 10, 4, 2, true, 1000)
    requires genesis.parent == None && genesis.timestamp == 0 && genesis.target == 1
    requires a == Above(genesis, 10, 1) && b == Above(a, 20, 1) && c == Above(b, 50, 1) && n == Above(c, 60, 2)
    ensures Required(p, genesis, 10) == Required(p, a, 20) == Required(p, b, 50) == 1
    ensures Required(p, c, 60) == 2
    ensures LastRegular(p, Some(n)) == Required(p, n, 70) == 1
    ensures LastOrdinary(p, n) == WindowStart(p, n) == n
  {
    hide RawTarget;
    ExampleHeights(genesis, a, b, c, n);
    assert LastRegular(p, Some(genesis)) == LastRegular(p, Some(b)) == LastRegular(p, Some(c)) == 1;
    HarderRaw(p, genesis, a, b, c);
  }

  lemma ExampleHeights(genesis: BlockNode, a: BlockNode, b: BlockNode, c: BlockNode, n: BlockNode)
    requires genesis.parent == None && a.parent == Some(genesis) && b.parent == Some(a) && c.parent == Some(b)
      && n.parent == Some(c)
    ensures genesis.Height() == 0 && a.Height() == 1 && b.Height() == 2 && c.Height() == 3 && n.Height() == 4
  {
    hide BlockNode.Height;
    HeightOf(genesis);
    HeightOf(a);
    HeightOf(b);
    HeightOf(c);
    HeightOf(n);
  }

  lemma HarderRaw(p: WorkParams, genesis: BlockNode, a: BlockNode, b: BlockNode, c: BlockNode)
    requires p == WorkParams(2, 3, 0, 10, 4, 2, true, 1000)
    requires genesis.parent == None && genesis.timestamp == 0 && genesis.target == 1
    requires a == Above(genesis, 10, 1) && b == Above(a, 20, 1) && c == Above(b, 50, 1)
    ensures RawTarget(p, a) == 1 && RawTarget(p, c) == 2
  {
    hide RawTarget, Back;
    ThreeWindows(p, a);
    ThreeWindows(p, c);
    assert WindowTime(p, a, 0) == WindowTime(p, a, 1) == WindowTime(p, a, 2) == 10;
    assert WindowTime(p, c, 0) == 40 && WindowTime(p, c, 1) == WindowTime(p, c, 2) == 10;
  }

  lemma ThreeWindows(p: WorkParams, n: BlockNode)
    requires p.Ok() && p.windows == 3 && p.windowSize == 2 && p.alpha == 0
    ensures Back(n, 0) == n && Back(n, 2) == BackOne(BackOne(n)) && Back(n, 4) == BackOne(BackOne(Back(n, 2)))
      && Back(n, 6) == BackOne(BackOne(Back(n, 4)))
    ensures RawTarget(p, n) ==
      ((WindowChange(p, n, 0) + WindowChange(p, n, 1) + WindowChange(p, n, 2)) / 3 * n.target) / FIXED_ONE
  {
    assert Back(n, 0) == n && Back(n, 1) == BackOne(n) && Back(n, 2) == BackOne(Back(n, 1));
    assert Back(n, 3) == BackOne(Back(n, 2)) && Back(n, 4) == BackOne(Back(n, 3));
    assert Back(n, 5) == BackOne(Back(n, 4)) && Back(n, 6) == BackOne(Back(n, 5));
    assert WindowWeight(p, 0) == WindowWeight(p, 1) == WindowWeight(p, 2) == 1;
    assert Weights(p, 0) == 0 && Weights(p, 1) == 1 && Weights(p, 2) == 2 && Weights(p, 3) == 3;
    assert WeightedSum(p, n, 0) == 0 && WeightedSum(p, n, 1) == WindowChange(p, n, 0);
    assert WeightedSum(p, n, 2) == WindowChange(p, n, 0) + WindowChange(p, n, 1);
    assert WeightedSum(p, n, 3) == WeightedSum(p, n, 2) + WindowChange(p, n, 2);
  }

  // The easiest target after some time.

  function Power(f: nat, k: nat): nat {
    if k == 0 then 1 else f * Power(f, k - 1)
  }

  /** How many retargets can have happened. */
  function Retargets(duration: int, timespan: nat): nat
    requires timespan > 0
    decreases if duration > 0 then duration else 0
  {
    if duration <= 0 then 0 else 1 + Retargets(duration - timespan, timespan)
  }

  function Min(a: int, b: int): int {
    if a > b then b else a
  }

  lemma {:induction false} PowerPositive(f: nat, k: nat)
    requires f > 0
    ensures Power(f, k) >= 1
  {
    if k > 0 {
      PowerPositive(f, k - 1);
      MulMono(1, f, Power(f, k - 1));
    }
  }

  lemma PowerStep(t: int, f: nat, k: nat)
    requires k > 0
    ensures t * Power(f, k) == (t * f) * Power(f, k - 1)
  {
    assert t * (f * Power(f, k - 1)) == (t * f) * Power(f, k - 1);
  }

  /** Starting from a target, the easiest target after a duration is the start times the adjustment
      factor once per retarget that can have happened, limited to the highest target; stopping at the
      limit early makes no difference. */
  method CalcEasiestDifficulty(p: WorkParams, startTarget: nat, duration: int) returns (target: int)
    requires p.Ok()
    ensures p.reduceMinDifficulty && duration > p.minDiffReductionTime ==> target == p.powLimit
    ensures !(p.reduceMinDifficulty && duration > p.minDiffReductionTime) ==>
      p.targetTimespan * p.adjustmentFactor > 0
      && target == Min(startTarget * Power(p.adjustmentFactor,
                                           Retargets(duration, p.targetTimespan * p.adjustmentFactor)), p.powLimit)
  {
    hide Power;
    var maxRetargetTimespan := p.targetTimespan * p.adjustmentFactor;
    PositiveProduct(p.targetTimespan, p.adjustmentFactor);
    if p.reduceMinDifficulty {
      if duration > p.minDiffReductionTime {
        return p.powLimit;
      }
    }
    var durationVal := duration;
    target := startTarget;
    ghost var whole := startTarget * Power(p.adjustmentFactor, Retargets(duration, maxRetargetTimespan));
    while durationVal > 0 && target < p.powLimit
      invariant target >= 0
      invariant target * Power(p.adjustmentFactor, Retargets(durationVal, maxRetargetTimespan)) == whole
      decreases durationVal
    {
      PowerStep(target, p.adjustmentFactor, Retargets(durationVal, maxRetargetTimespan));
      AtLeastOnce(target, p.adjustmentFactor);
      target := target * p.adjustmentFactor;
      durationVal := durationVal - maxRetargetTimespan;
    }
    PowerPositive(p.adjustmentFactor, Retargets(durationVal, maxRetargetTimespan));
    AtLeastOnce(target, Power(p.adjustmentFactor, Retargets(durationVal, maxRetargetTimespan)));
    PowerZero(p.adjustmentFactor);
    if target > p.powLimit {
      target := p.powLimit;
    }
  }

  lemma PowerZero(f: nat)
    ensures Power(f, 0) == 1
  {}

  /** As many retargets as maximal spans have begun. */
  lemma {:induction false} RetargetsIs(duration: int, timespan: nat)
    requires timespan > 0
    ensures duration <= 0 ==> Retargets(duration, timespan) == 0
    ensures duration > 0 ==>
      (Retargets(duration, timespan) - 1) * timespan < duration <= Retargets(duration, timespan) * timespan
    decreases if duration > 0 then duration else 0
  {
    if duration > 0 {
      RetargetsIs(duration - timespan, timespan);
      var r: int := Retargets(duration - timespan, timespan);
      NextMultiple(r, timespan);
      NextMultiple(r - 1, timespan);
      assert 0 * timespan == 0;
    }
  }

  /** Targets of successive retargets: none is above the highest target or more than the factor above
      the one before. */
  predicate IsEasing(p: WorkParams, targets: seq<nat>) {
    && |targets| > 0
    && (forall i: nat :: i < |targets| ==> targets[i] <= p.powLimit)
    && (forall i: nat :: i + 1 < |targets| ==> targets[i + 1] <= targets[i] * p.adjustmentFactor)
  }

  lemma MinScaled(x: nat, f: nat, limit: nat)
    requires f > 0
    ensures Min(Min(x, limit) * f, limit) == Min(x * f, limit)
  {
    AtLeastOnce(limit, f);
    if x > limit {
      MulMono(limit, x, f);
    }
  }

  /** No number of retargets can bring the target above the start times the factor per retarget. */
  lemma {:induction false} EasingBounded(p: WorkParams, targets: seq<nat>)
    requires p.Ok() && IsEasing(p, targets)
    ensures targets[|targets| - 1] <= Min(targets[0] * Power(p.adjustmentFactor, |targets| - 1), p.powLimit)
  {
    hide Power;
    var f, k := p.adjustmentFactor, |targets| - 1;
    if k == 0 {
      PowerZero(f);
    } else {
      var init := targets[..k];
      EasingBounded(p, init);
      PowerNext(targets[0], f, k);
      MulMono(init[k - 1], Min(targets[0] * Power(f, k - 1), p.powLimit), f);
      MinScaled(targets[0] * Power(f, k - 1), f, p.powLimit);
      assert targets[k] <= targets[k - 1] * f;
    }
  }

  lemma PowerNext(t: int, f: nat, k: nat)
    requires k > 0
    ensures t * Power(f, k) == (t * Power(f, k - 1)) * f
  {
    assert t * (f * Power(f, k - 1)) == (t * Power(f, k - 1)) * f;
  }

  /** And some retargets bring it there. */
  lemma {:induction false} EasingReached(p: WorkParams, start: nat, k: nat) returns (targets: seq<nat>)
    requires p.Ok() && start <= p.powLimit
    ensures IsEasing(p, targets) && targets[0] == start && |targets| == k + 1
    ensures targets[k] == Min(start * Power(p.adjustmentFactor, k), p.powLimit)
  {
    hide Power;
    var f := p.adjustmentFactor;
    if k == 0 {
      targets := [start];
      PowerZero(f);
    } else {
      var init := EasingReached(p, start, k - 1);
      var last := Min(init[k - 1] * f, p.powLimit);
      targets := init + [last];
      PowerNext(start, f, k);
      PowerPositive(f, k - 1);
      MinScaled(start * Power(f, k - 1), f, p.powLimit);
    }
  }
}
