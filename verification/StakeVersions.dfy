/** Majority versions of blocks and votes over fixed intervals (blockchain/stakeversion.go,
    blockchain/chain.go). */
module StakeVersions {
  import opened Wrappers
  import opened Transactions
  import opened BlockNodes
  import opened GoArithmetic
  import opened Counting

  datatype Params = Params(
    stakeValidationHeight: nat,
    stakeVersionInterval: nat,
    stakeMajorityMultiplier: nat,
    stakeMajorityDivisor: nat,
    blockRejectNumRequired: nat,
    blockUpgradeNumToCheck: nat)
  {
    predicate Ok() {
      stakeVersionInterval > 0 && stakeMajorityDivisor > 0
    }

    /** How many of `total` make a majority. */
    function NumRequired(total: nat): int
      requires stakeMajorityDivisor > 0
    {
      GoDiv(Int32(total * stakeMajorityMultiplier), stakeMajorityDivisor)
    }
  }

  /** The share of the total, rounded down, while the product fits 32 bits. */
  lemma RequiredIs(p: Params, total: nat)
    requires p.stakeMajorityDivisor > 0 && total * p.stakeMajorityMultiplier < 0x8000_0000
    ensures var r := p.NumRequired(total);
            && 0 <= r && r * p.stakeMajorityDivisor <= total * p.stakeMajorityMultiplier
            && total * p.stakeMajorityMultiplier < (r + 1) * p.stakeMajorityDivisor
  {
    var product, d := total * p.stakeMajorityMultiplier, p.stakeMajorityDivisor;
    assert Int32(product) == product;
    DivMod(product, d);
    NextMultiple(product / d, d);
    MulMono(product / d + 1, 0, d);
  }

  // Intervals.

  /** The final block of the interval before the one with the given height. */
  function CalcWantHeight(stakeValidationHeight: nat, interval: nat, height: int): int
    requires interval > 0
  {
    var intervalOffset := stakeValidationHeight % interval;
    var adjustedHeight := height - intervalOffset - 1;
    adjustedHeight - GoMod(adjustedHeight + 1, interval) + intervalOffset
  }

  /** The height after `h` starts an interval. */
  predicate IsIntervalEnd(stakeValidationHeight: nat, interval: nat, h: int)
    requires interval > 0
  {
    (h + 1) % interval == stakeValidationHeight % interval
  }

  /** From the first interval start on, the wanted height is the only interval end among the
      `interval` heights below the given one; before it, the height is not below at all. */
  lemma WantHeightIsIntervalEnd(svh: nat, interval: nat, height: int)
    requires interval > 0
    ensures IsIntervalEnd(svh, interval, CalcWantHeight(svh, interval, height))
    ensures height >= svh % interval ==> height - interval <= CalcWantHeight(svh, interval, height) < height
    ensures 0 - interval < height - svh % interval < 0 ==>
      CalcWantHeight(svh, interval, height) == svh % interval - 1 >= height
  {
    var offset: int, a: int := svh % interval, height - svh % interval;
    var w := CalcWantHeight(svh, interval, height);
    assert w + 1 == a - GoMod(a, interval) + offset;
    MultipleOf(a, interval);
    ModShift(a - GoMod(a, interval), offset, interval);
  }

  /** The height `interval` above an interval end is the next one, and nothing between is. */
  lemma NextIntervalEnd(svh: nat, interval: nat, h: int, height: int)
    requires interval > 0 && h >= svh % interval - 1 && IsIntervalEnd(svh, interval, h) && h < height <= h + interval
    ensures CalcWantHeight(svh, interval, height) == h
  {
    var offset: int, m: int := svh % interval, interval;
    DivMod(h + 1 - offset, m);
    DivMod(h + 1, m);
    DivMod(svh, m);
    var q := (h + 1) / m;
    assert h + 1 - offset == q * m;
    ModUnique(height - offset, m, q, height - h - 1);
  }


  // Tallies.

  /** The node and its predecessors, newest first, at most k of them. */
  function LastNodes(node: Option<BlockNode>, k: nat): seq<BlockNode>
    decreases k
  {
    if k == 0 || node.None? then [] else [node.value] + LastNodes(node.value.parent, k - 1)
  }

  lemma {:induction false} LastNodesLength(node: BlockNode, k: nat)
    ensures |LastNodes(Some(node), k)| == if k <= node.Height() then k else node.Height() + 1
  {
    if k > 0 && node.parent.Some? {
      LastNodesLength(node.parent.value, k - 1);
    }
  }

  /** The last blocks up to a node, newest first: as many as asked for, or all down to genesis. */
  ghost predicate IsWindow(w: seq<BlockNode>, n: BlockNode, k: nat) {
    && |w| == (if k <= n.Height() then k else n.Height() + 1)
    && forall j :: 0 <= j < |w| ==> n.AncestorAt(n.Height() - j) == Some(w[j])
  }

  lemma {:induction false} LastNodesAre(n: BlockNode, k: nat)
    ensures IsWindow(LastNodes(Some(n), k), n, k)
  {
    if k > 0 {
      var w := LastNodes(Some(n), k);
      assert w == [n] + LastNodes(n.parent, k - 1);
      if n.parent.Some? {
        LastNodesAre(n.parent.value, k - 1);
      }
      forall j | 0 <= j < |w| ensures n.AncestorAt(n.Height() - j) == Some(w[j]) {
        if j > 0 {
          assert w[j] == LastNodes(n.parent, k - 1)[j - 1];
        }
      }
    }
  }

  function CountAtLeast(nodes: seq<BlockNode>, minVer: nat): nat {
    if nodes == [] then 0
    else (if nodes[0].stakeVersion >= minVer then 1 else 0) + CountAtLeast(nodes[1..], minVer)
  }

  function CountBlockVersion(nodes: seq<BlockNode>, minVer: int): nat {
    if nodes == [] then 0
    else (if nodes[0].blockVersion >= minVer then 1 else 0) + CountBlockVersion(nodes[1..], minVer)
  }

  /** The stake versions of the headers. */
  function HeaderVersions(nodes: seq<BlockNode>): (r: seq<nat>)
    ensures |r| == |nodes|
  {
    if nodes == [] then [] else [nodes[0].stakeVersion] + HeaderVersions(nodes[1..])
  }

  function VersionsOf(votes: seq<Vote>): (r: seq<nat>)
    ensures |r| == |votes|
  {
    if votes == [] then [] else [votes[0].version] + VersionsOf(votes[1..])
  }

  /** The versions of all votes. */
  function VoteVersions(nodes: seq<BlockNode>): seq<nat> {
    if nodes == [] then [] else VersionsOf(nodes[0].votes) + VoteVersions(nodes[1..])
  }

  /** A version that occurs at least `required` times. */
  ghost predicate Reaches(versions: seq<nat>, required: int, v: nat) {
    v in versions && multiset(versions)[v] >= required
  }

  lemma {:induction false} TwoVersions(versions: seq<nat>, v: nat, w: nat)
    requires v != w
    ensures multiset(versions)[v] + multiset(versions)[w] <= |versions|
    ensures multiset(versions)[v] + multiset(versions)[w] == |versions| <==> forall i :: 0 <= i < |versions| ==>
      versions[i] in {v, w}
  {
    if versions != [] {
      TwoVersions(versions[1..], v, w);
      assert versions == [versions[0]] + versions[1..];
    }
  }

  /** When twice the required count exceeds the total, at most one version reaches a majority, so the
      order in which the tally is scanned does not matter. */
  lemma MajorityUnique(versions: seq<nat>, required: int, v: nat, w: nat)
    requires 2 * required > |versions| && Reaches(versions, required, v) && Reaches(versions, required, w)
    ensures v == w
  {
    if v != w {
      TwoVersions(versions, v, w);
    }
  }

  /** Two different versions both reach a majority. */
  ghost predicate Ambiguous(versions: seq<nat>, required: int) {
    exists v, w :: v != w && Reaches(versions, required, v) && Reaches(versions, required, w)
  }

  /** For three quarters the scan can only go either way with exactly two votes of different versions;
      then one is enough. */
  lemma ThreeQuartersAmbiguous(p: Params, versions: seq<nat>)
    requires p.stakeMajorityMultiplier == 3 && p.stakeMajorityDivisor == 4 && |versions| * 3 < 0x8000_0000
    ensures Ambiguous(versions, p.NumRequired(|versions|)) <==> |versions| == 2 && versions[0] != versions[1]
  {
    var required := p.NumRequired(|versions|);
    assert required == |versions| * 3 / 4;
    if |versions| == 2 && versions[0] != versions[1] {
      assert Reaches(versions, required, versions[0]) && Reaches(versions, required, versions[1]);
    }
    if Ambiguous(versions, required) {
      var v, w :| v != w && Reaches(versions, required, v) && Reaches(versions, required, w);
      TwoVersions(versions, v, w);
      if |versions| != 2 && |versions| > 1 {
        MajorityUnique(versions, required, v, w);
      }
    }
  }

  // What is counted.

  lemma {:induction false} BlockVersionsAre(w: seq<BlockNode>, minVer: int)
    ensures CountBlockVersion(w, minVer) == CountNodes(w, (b: BlockNode) => b.blockVersion >= minVer)
  {
    hide CountNodes;
    var kind := (b: BlockNode) => b.blockVersion >= minVer;
    if w == [] {
      NoNodes(kind);
    } else {
      var init, last := w[..|w| - 1], w[|w| - 1];
      BlockVersionsAre(init, minVer);
      CountNodesSnoc(init, last, kind);
      assert init + [last] == w;
      BlockVersionsSnoc(init, last, minVer);
    }
  }

  lemma {:induction false} BlockVersionsSnoc(w: seq<BlockNode>, b: BlockNode, minVer: int)
    ensures CountBlockVersion(w + [b], minVer) ==
      CountBlockVersion(w, minVer) + (if b.blockVersion >= minVer then 1 else 0)
  {
    if w == [] {
      assert [] + [b] == [b] && [b][1..] == [];
    } else {
      BlockVersionsSnoc(w[1..], b, minVer);
      assert (w + [b])[1..] == w[1..] + [b];
    }
  }

  lemma {:induction false} AtLeastAre(w: seq<BlockNode>, minVer: nat)
    ensures CountAtLeast(w, minVer) == CountNodes(w, (b: BlockNode) => b.stakeVersion >= minVer)
  {
    hide CountNodes;
    var kind := (b: BlockNode) => b.stakeVersion >= minVer;
    if w == [] {
      NoNodes(kind);
    } else {
      var init, last := w[..|w| - 1], w[|w| - 1];
      AtLeastAre(init, minVer);
      CountNodesSnoc(init, last, kind);
      assert init + [last] == w;
      AtLeastSnoc(init, last, minVer);
    }
  }

  lemma {:induction false} AtLeastSnoc(w: seq<BlockNode>, b: BlockNode, minVer: nat)
    ensures CountAtLeast(w + [b], minVer) == CountAtLeast(w, minVer) + (if b.stakeVersion >= minVer then 1 else 0)
  {
    if w == [] {
      assert [] + [b] == [b] && [b][1..] == [];
    } else {
      AtLeastSnoc(w[1..], b, minVer);
      assert (w + [b])[1..] == w[1..] + [b];
    }
  }

  lemma {:induction false} HeaderVersionsAt(w: seq<BlockNode>, j: nat)
    requires j < |w|
    ensures HeaderVersions(w)[j] == w[j].stakeVersion
  {
    if j > 0 {
      HeaderVersionsAt(w[1..], j - 1);
    }
  }

  lemma {:induction false} HeadersAre(w: seq<BlockNode>, v: nat)
    ensures multiset(HeaderVersions(w))[v] == CountNodes(w, (b: BlockNode) => b.stakeVersion == v)
  {
    hide CountNodes;
    var kind := (b: BlockNode) => b.stakeVersion == v;
    if w == [] {
      NoNodes(kind);
    } else {
      var init, last := w[..|w| - 1], w[|w| - 1];
      HeadersAre(init, v);
      CountNodesSnoc(init, last, kind);
      assert init + [last] == w;
      HeadersSnoc(init, last);
    }
  }

  lemma {:induction false} HeadersSnoc(w: seq<BlockNode>, b: BlockNode)
    ensures HeaderVersions(w + [b]) == HeaderVersions(w) + [b.stakeVersion]
  {
    if w == [] {
      assert [] + [b] == [b] && [b][1..] == [];
    } else {
      HeadersSnoc(w[1..], b);
      assert (w + [b])[1..] == w[1..] + [b];
    }
  }

  lemma {:induction false} VersionsAre(votes: seq<Vote>, v: nat)
    ensures multiset(VersionsOf(votes))[v] == CountIf(votes, (x: Vote) => x.version == v)
  {
    hide CountIf;
    var kind := (x: Vote) => x.version == v;
    if votes == [] {
      CountNone(kind);
    } else {
      var init, last := votes[..|votes| - 1], votes[|votes| - 1];
      VersionsAre(init, v);
      CountIfSnoc(init, last, kind);
      assert init + [last] == votes;
      VersionsSnoc(init, last);
    }
  }

  lemma {:induction false} VersionsSnoc(votes: seq<Vote>, x: Vote)
    ensures VersionsOf(votes + [x]) == VersionsOf(votes) + [x.version]
  {
    if votes == [] {
      assert [] + [x] == [x] && [x][1..] == [];
    } else {
      VersionsSnoc(votes[1..], x);
      assert (votes + [x])[1..] == votes[1..] + [x];
    }
  }

  lemma {:induction false} VotesAre(w: seq<BlockNode>, v: nat)
    ensures multiset(VoteVersions(w))[v] == CountVotes(w, (x: Vote) => x.version == v)
    ensures |VoteVersions(w)| == CountVotes(w, (x: Vote) => true)
  {
    hide CountVotes, CountIf;
    var kind, any := (x: Vote) => x.version == v, (x: Vote) => true;
    if w == [] {
      NoPlaces(kind);
      NoPlaces(any);
    } else {
      var init, last := w[..|w| - 1], w[|w| - 1];
      VotesAre(init, v);
      CountVotesSnoc(init, last, kind);
      CountVotesSnoc(init, last, any);
      VersionsAre(last.votes, v);
      CountAll(last.votes);
      assert init + [last] == w;
      VotesSnoc(init, last);
    }
  }

  lemma {:induction false} CountAll(votes: seq<Vote>)
    ensures CountIf(votes, (x: Vote) => true) == |votes|
  {
    hide CountIf;
    if votes == [] {
      CountNone((x: Vote) => true);
    } else {
      var init, last := votes[..|votes| - 1], votes[|votes| - 1];
      CountAll(init);
      CountIfSnoc(init, last, (x: Vote) => true);
      assert init + [last] == votes;
    }
  }

  lemma {:induction false} VotesSnoc(w: seq<BlockNode>, b: BlockNode)
    ensures VoteVersions(w + [b]) == VoteVersions(w) + VersionsOf(b.votes)
  {
    if w == [] {
      assert [] + [b] == [b] && [b][1..] == [];
      assert VoteVersions([b]) == VersionsOf(b.votes) + [];
    } else {
      VotesSnoc(w[1..], b);
      assert (w + [b])[1..] == w[1..] + [b];
    }
  }

  // What the cached functions compute, without caches.

  function Prior(p: Params, prevNode: BlockNode): Option<BlockNode>
    requires p.Ok()
  {
    if prevNode.Height() + 1 < p.stakeValidationHeight + p.stakeVersionInterval then None
    else prevNode.AncestorAt(CalcWantHeight(p.stakeValidationHeight, p.stakeVersionInterval, prevNode.Height() + 1))
  }

  /** The interval that ends with the node. */
  function Interval(p: Params, end: BlockNode): seq<BlockNode> {
    LastNodes(Some(end), p.stakeVersionInterval)
  }

  predicate MajorityOfHeaders(p: Params, end: BlockNode, minVer: nat)
    requires p.Ok()
  {
    CountAtLeast(Interval(p, end), minVer) >= p.NumRequired(p.stakeVersionInterval)
  }

  predicate IsStakeMajority(p: Params, minVer: nat, prevNode: BlockNode)
    requires p.Ok()
  {
    match Prior(p, prevNode)
    case None => minVer <= 0
    case Some(end) => MajorityOfHeaders(p, end, minVer)
  }

  ghost predicate HeaderMajority(p: Params, end: BlockNode, v: nat)
    requires p.Ok()
  {
    Reaches(HeaderVersions(Interval(p, end)), p.NumRequired(p.stakeVersionInterval), v)
  }

  /** The version of the prior interval: zero when there is none. */
  ghost predicate IsPriorVersion(p: Params, prevNode: BlockNode, r: Option<nat>)
    requires p.Ok()
  {
    match Prior(p, prevNode)
    case None => r == Some(0)
    case Some(end) => if r.Some? then HeaderMajority(p, end, r.value) else !exists v :: HeaderMajority(p, end, v)
  }

  ghost predicate VoteMajority(p: Params, end: BlockNode, v: nat)
    requires p.Ok()
  {
    var versions := VoteVersions(Interval(p, end));
    Reaches(versions, p.NumRequired(|versions|), v)
  }

  ghost predicate HasVoteMajority(p: Params, end: BlockNode)
    requires p.Ok()
  {
    exists v :: VoteMajority(p, end, v)
  }

  /** The latest interval end, going back interval by interval, with a majority among its votes. */
  ghost function LatestMajority(p: Params, node: Option<BlockNode>): Option<BlockNode>
    requires p.Ok()
    decreases if node.Some? then node.value.Height() + 1 else 0
  {
    if node.None? || node.value.Height() < p.stakeValidationHeight then None
    else if HasVoteMajority(p, node.value) then node
    else
      var next := node.value.AncestorAt(node.value.Height() - p.stakeVersionInterval);
      if next.None? then None else
      AncestorHeight(node.value, node.value.Height() - p.stakeVersionInterval);
      LatestMajority(p, next)
  }

  /** The voter version and where it was found. */
  ghost predicate IsVoterVersion(p: Params, prevNode: BlockNode, version: nat, at: Option<BlockNode>)
    requires p.Ok()
  {
    && at == LatestMajority(p, Prior(p, prevNode))
    && (if at.Some? then VoteMajority(p, at.value, version) else version == 0)
  }

  /** The first block of the interval that ends with the node. */
  function IntervalStart(p: Params, end: BlockNode): Option<BlockNode>
    requires p.Ok()
  {
    end.AncestorAt(CalcWantHeight(p.stakeValidationHeight, p.stakeVersionInterval, end.Height()) + 1)
  }

  predicate IsMajority(p: Params, minVer: int, startNode: Option<BlockNode>, numRequired: nat) {
    CountBlockVersion(LastNodes(startNode, p.blockUpgradeNumToCheck), minVer) >= numRequired
  }

  function NotBelow(prior: Option<nat>, version: nat): nat {
    if prior.Some? && prior.value > version then prior.value else version
  }

  /** The version, or the prior version when that is higher. */
  ghost predicate IsLocked(p: Params, end: BlockNode, version: nat, r: nat)
    requires p.Ok()
  {
    exists prior :: IsPriorVersion(p, end, prior) && r == NotBelow(prior, version)
  }

  /** The stake version that follows from a voter version found at an interval end: zero before blocks
      of version 3 are enforced, and never below what the headers before it have locked in. */
  ghost predicate IsStakeVersionFrom(p: Params, end: BlockNode, voterVersion: nat, r: nat)
    requires p.Ok()
  {
    if !IsMajority(p, 3, IntervalStart(p, end), p.blockRejectNumRequired) then r == 0
    else if !IsStakeMajority(p, voterVersion, end) then r == voterVersion
    else IsLocked(p, end, voterVersion, r)
  }

  ghost predicate IsStakeVersionAt(p: Params, end: BlockNode, r: nat)
    requires p.Ok()
  {
    exists v :: v != 0 && VoteMajority(p, end, v) && IsStakeVersionFrom(p, end, v, r)
  }

  /** The expected stake version of the block after the node. */
  ghost predicate IsStakeVersion(p: Params, prevNode: BlockNode, r: nat)
    requires p.Ok()
  {
    match LatestMajority(p, Prior(p, prevNode))
    case None => r == 0
    case Some(end) => IsStakeVersionAt(p, end, r) || (VoteMajority(p, end, 0) && r == 0)
  }

  ghost predicate Unambiguous(p: Params, end: BlockNode)
    requires p.Ok()
  {
    && !Ambiguous(HeaderVersions(Interval(p, end)), p.NumRequired(p.stakeVersionInterval))
    && !Ambiguous(VoteVersions(Interval(p, end)), p.NumRequired(|VoteVersions(Interval(p, end))|))
  }

  /** The node ends an interval in which there can be votes. */
  predicate ClosesInterval(p: Params, end: BlockNode)
    requires p.Ok()
  {
    end.Height() >= p.stakeValidationHeight
      && IsIntervalEnd(p.stakeValidationHeight, p.stakeVersionInterval, end.Height())
  }

  /** No interval up to the node has two versions with a majority. */
  ghost predicate Determined(p: Params, node: BlockNode)
    requires p.Ok()
  {
    forall end :: node.Extends(end) && ClosesInterval(p, end) ==> Unambiguous(p, end)
  }

  lemma PriorExtends(p: Params, node: BlockNode)
    requires p.Ok()
    ensures Prior(p, node).Some? ==> node.Extends(Prior(p, node).value) && ClosesInterval(p, Prior(p, node).value)
  {
    var want := CalcWantHeight(p.stakeValidationHeight, p.stakeVersionInterval, node.Height() + 1);
    hide CalcWantHeight, IsIntervalEnd;
    if Prior(p, node).Some? {
      BelowOffset(p);
      WantHeightIsIntervalEnd(p.stakeValidationHeight, p.stakeVersionInterval, node.Height() + 1);
      AncestorHeight(node, want);
    }
  }

  lemma BelowOffset(p: Params)
    requires p.Ok()
    ensures 0 <= p.stakeValidationHeight % p.stakeVersionInterval <= p.stakeValidationHeight
  {
    DivMod(p.stakeValidationHeight, p.stakeVersionInterval);
    MulMono(0, p.stakeValidationHeight / p.stakeVersionInterval, p.stakeVersionInterval);
  }

  lemma IntervalEndBefore(svh: nat, interval: nat, h: int)
    requires interval > 0 && IsIntervalEnd(svh, interval, h)
    ensures IsIntervalEnd(svh, interval, h - interval)
  {
    DivMod(h + 1, interval);
    NextMultiple((h + 1) / interval - 1, interval);
    ModUnique(h + 1 - interval, interval, (h + 1) / interval - 1, (h + 1) % interval);
  }

  lemma {:induction false} LatestExtends(p: Params, node: BlockNode)
    requires p.Ok() && IsIntervalEnd(p.stakeValidationHeight, p.stakeVersionInterval, node.Height())
    ensures var latest := LatestMajority(p, Some(node));
            latest.Some? ==>
              node.Extends(latest.value) && ClosesInterval(p, latest.value) && HasVoteMajority(p, latest.value)
    decreases node.Height()
  {
    hide HasVoteMajority, IsIntervalEnd;
    var h := node.Height() - p.stakeVersionInterval;
    if h >= 0 {
      AncestorHeight(node, h);
      IntervalEndBefore(p.stakeValidationHeight, p.stakeVersionInterval, node.Height());
      LatestExtends(p, node.AncestorAt(h).value);
      var l := LatestMajority(p, Some(node));
      if l.Some? && l != Some(node) {
        ExtendsTransitive(node, node.AncestorAt(h).value, l.value);
      }
    }
  }

  /** The interval the expected stake version comes from. */
  lemma SourceInterval(p: Params, node: BlockNode)
    requires p.Ok()
    ensures var latest := LatestMajority(p, Prior(p, node));
            latest.Some? ==>
              node.Extends(latest.value) && ClosesInterval(p, latest.value) && HasVoteMajority(p, latest.value)
  {
    hide HasVoteMajority, IsIntervalEnd, Prior;
    PriorExtends(p, node);
    if Prior(p, node).Some? {
      LatestExtends(p, Prior(p, node).value);
      if LatestMajority(p, Prior(p, node)).Some? {
        ExtendsTransitive(node, Prior(p, node).value, LatestMajority(p, Prior(p, node)).value);
      }
    }
  }

  lemma PriorVersionUnique(p: Params, node: BlockNode, a: Option<nat>, b: Option<nat>)
    requires p.Ok() && Determined(p, node) && IsPriorVersion(p, node, a) && IsPriorVersion(p, node, b)
    ensures a == b
  {
    hide HeaderVersions, Interval, Prior, ClosesInterval;
    PriorExtends(p, node);
  }

  lemma VoteMajorityUnique(p: Params, node: BlockNode, end: BlockNode, v: nat, w: nat)
    requires p.Ok() && Determined(p, node) && node.Extends(end) && ClosesInterval(p, end)
    requires VoteMajority(p, end, v) && VoteMajority(p, end, w)
    ensures v == w
  {
    hide VoteVersions, Interval, Reaches, ClosesInterval;
  }

  lemma DeterminedBelow(p: Params, node: BlockNode, a: BlockNode)
    requires p.Ok() && Determined(p, node) && node.Extends(a)
    ensures Determined(p, a)
  {
    hide Unambiguous, ClosesInterval;
    forall end | a.Extends(end) && ClosesInterval(p, end) ensures Unambiguous(p, end) {
      ExtendsTransitive(node, a, end);
    }
  }

  /** Without ambiguous intervals there is one expected stake version. */
  lemma StakeVersionUnique(p: Params, node: BlockNode, a: nat, b: nat)
    requires p.Ok() && Determined(p, node) && IsStakeVersion(p, node, a) && IsStakeVersion(p, node, b)
    ensures a == b
  {
    hide VoteMajority, Determined, IsPriorVersion, IsMajority, IsStakeMajority, Prior, ClosesInterval,
         HasVoteMajority;
    SourceInterval(p, node);
    var latest := LatestMajority(p, Prior(p, node));
    if latest.Some? {
      var end := latest.value;
      forall v: nat, w: nat | VoteMajority(p, end, v) && VoteMajority(p, end, w) ensures v == w {
        VoteMajorityUnique(p, node, end, v, w);
      }
      DeterminedBelow(p, node, end);
      forall x, y | IsPriorVersion(p, end, x) && IsPriorVersion(p, end, y) ensures x == y {
        PriorVersionUnique(p, end, x, y);
      }
    }
  }

  // Three quarters, as on every network: when the expected version is unique.

  predicate TwoDiffer(versions: seq<nat>) {
    |versions| == 2 && versions[0] != versions[1]
  }

  /** A majority is three quarters and the required count does not wrap at 32 bits. */
  predicate ThreeQuarters(p: Params) {
    && p.Ok() && p.stakeMajorityMultiplier == 3 && p.stakeMajorityDivisor == 4
    && p.stakeVersionInterval * 3 < 0x8000_0000
  }

  predicate VotesIn32Bits(p: Params, end: BlockNode) {
    |VoteVersions(Interval(p, end))| * 3 < 0x8000_0000
  }

  /** The headers of an interval are ambiguous only when an interval is two blocks. */
  lemma HeadersAmbiguous(p: Params, end: BlockNode)
    requires ThreeQuarters(p)
    ensures var headers := HeaderVersions(Interval(p, end));
            Ambiguous(headers, p.NumRequired(p.stakeVersionInterval)) <==>
              p.stakeVersionInterval == 2 && TwoDiffer(headers)
  {
    hide HeaderVersions;
    var headers := HeaderVersions(Interval(p, end));
    var required := p.NumRequired(p.stakeVersionInterval);
    LastNodesLength(end, p.stakeVersionInterval);
    assert required == p.stakeVersionInterval * 3 / 4;
    if |headers| == p.stakeVersionInterval {
      ThreeQuartersAmbiguous(p, headers);
    } else if Ambiguous(headers, required) {
      var v, w :| v != w && Reaches(headers, required, v) && Reaches(headers, required, w);
      if p.stakeVersionInterval > 2 {
        MajorityUnique(headers, required, v, w);
      }
    }
  }

  /** What makes all expected versions unique is exactly that no interval holds just two votes of
      different versions, nor consists of just two blocks with different header versions. */
  lemma DeterminedExactly(p: Params, node: BlockNode)
    requires ThreeQuarters(p) && forall end :: node.Extends(end) ==> VotesIn32Bits(p, end)
    ensures Determined(p, node) <==>
      forall end :: node.Extends(end) && ClosesInterval(p, end) ==>
        && !TwoDiffer(VoteVersions(Interval(p, end)))
        && (p.stakeVersionInterval == 2 ==> !TwoDiffer(HeaderVersions(Interval(p, end))))
  {
    hide ClosesInterval, HeaderVersions, VoteVersions, Interval, Ambiguous, p.NumRequired;
    forall end | node.Extends(end)
      ensures Unambiguous(p, end) <==>
        && !TwoDiffer(VoteVersions(Interval(p, end)))
        && (p.stakeVersionInterval == 2 ==> !TwoDiffer(HeaderVersions(Interval(p, end))))
    {
      assert VotesIn32Bits(p, end);
      HeadersAmbiguous(p, end);
      ThreeQuartersAmbiguous(p, VoteVersions(Interval(p, end)));
    }
  }

  /** A block without votes, or with as many as a valid block must have. */
  predicate NormalVotes(node: BlockNode, most: nat) {
    node.votes == [] || 3 <= |node.votes| <= most
  }

  lemma {:induction false} NormalTotal(node: Option<BlockNode>, k: nat, most: nat)
    requires node.Some? ==> forall b :: node.value.Extends(b) ==> NormalVotes(b, most)
    ensures var total := |VoteVersions(LastNodes(node, k))|; total != 1 && total != 2 && total <= k * most
    decreases k
  {
    if k > 0 && node.Some? {
      assert node.value.Extends(node.value) && NormalVotes(node.value, most);
      NormalTotal(node.value.parent, k - 1, most);
      assert LastNodes(node, k)[1..] == LastNodes(node.value.parent, k - 1);
      assert (k - 1) * most + most == k * most;
    } else if most > 0 {
      MulMono(0, k, most);
    }
  }

  /** On a branch whose blocks have no votes or at least three, no expected version is ambiguous. */
  lemma DeterminedByVotes(p: Params, node: BlockNode, most: nat)
    requires ThreeQuarters(p) && p.stakeVersionInterval != 2 && p.stakeVersionInterval * most * 3 < 0x8000_0000
    requires forall b :: node.Extends(b) ==> NormalVotes(b, most)
    ensures Determined(p, node)
  {
    hide ClosesInterval, VoteVersions, LastNodes;
    forall end | node.Extends(end) ensures VotesIn32Bits(p, end) && !TwoDiffer(VoteVersions(Interval(p, end))) {
      forall b | end.Extends(b) ensures NormalVotes(b, most) {
        ExtendsTransitive(node, end, b);
      }
      NormalTotal(Some(end), p.stakeVersionInterval, most);
    }
    DeterminedExactly(p, node);
  }

  lemma {:induction false} ReachesAtLeast(nodes: seq<BlockNode>, v: nat, w: nat)
    requires v <= w
    ensures multiset(HeaderVersions(nodes))[w] <= CountAtLeast(nodes, v)
  {
    if nodes != [] {
      ReachesAtLeast(nodes[1..], v, w);
      assert HeaderVersions(nodes) == [nodes[0].stakeVersion] + HeaderVersions(nodes[1..]);
    }
  }

  /** The headers before an interval end have locked in a version not below the given one. */
  ghost predicate LockedAtLeast(p: Params, end: BlockNode, v: nat)
    requires p.Ok()
  {
    Prior(p, end).Some? && exists prior: nat :: prior >= v && HeaderMajority(p, Prior(p, end).value, prior)
  }

  ghost predicate IsLockedVersion(p: Params, end: BlockNode, x: nat)
    requires p.Ok()
  {
    Prior(p, end).Some? && HeaderMajority(p, Prior(p, end).value, x)
  }

  /** A version locked in by a majority of headers has a majority of headers at or above it. */
  lemma LockedIsMajority(p: Params, end: BlockNode, v: nat, x: nat)
    requires p.Ok() && v <= x && IsLockedVersion(p, end, x)
    ensures IsStakeMajority(p, v, end)
  {
    hide Prior, HeaderVersions, CountAtLeast;
    ReachesAtLeast(Interval(p, Prior(p, end).value), v, x);
  }

  lemma PriorExists(p: Params, node: BlockNode) returns (r: Option<nat>)
    requires p.Ok()
    ensures IsPriorVersion(p, node, r)
  {
    hide HeaderMajority;
    if Prior(p, node).None? {
      r := Some(0);
    } else if v: nat :| HeaderMajority(p, Prior(p, node).value, v) {
      r := Some(v);
    } else {
      r := None;
    }
  }

  /** The version from a nonzero voter version, in an interval where version 3 is enforced: the voter
      version, or a higher one locked in before. */
  lemma VersionFrom(p: Params, end: BlockNode, v: nat) returns (r: nat)
    requires p.Ok() && v != 0 && IsMajority(p, 3, IntervalStart(p, end), p.blockRejectNumRequired)
    ensures IsStakeVersionFrom(p, end, v, r) && r >= v
    ensures r > v ==> IsLockedVersion(p, end, r)
  {
    hide IsMajority, HeaderMajority, Prior, IsStakeMajority;
    if IsStakeMajority(p, v, end) {
      var prior := PriorExists(p, end);
      r := NotBelow(prior, v);
      assert IsLocked(p, end, v, r);
    } else {
      r := v;
    }
  }

  /** With two votes of different versions either can be scanned first. */
  lemma EitherVote(p: Params, end: BlockNode, v: nat)
    requires ThreeQuarters(p) && TwoDiffer(VoteVersions(Interval(p, end))) && v in VoteVersions(Interval(p, end))
    ensures VoteMajority(p, end, v)
  {
    hide VoteVersions, Interval;
    assert p.NumRequired(2) == 1;
  }

  /** Two expected stake versions for one block. */
  ghost predicate Undecided(p: Params, node: BlockNode)
    requires p.Ok()
  {
    exists a, b :: a != b && IsStakeVersion(p, node, a) && IsStakeVersion(p, node, b)
  }

  /** The condition on the interval that decides. */
  ghost predicate OrderMatters(p: Params, end: BlockNode, v: nat, w: nat)
    requires p.Ok()
  {
    && IsMajority(p, 3, IntervalStart(p, end), p.blockRejectNumRequired)
    && (v == 0 || !LockedAtLeast(p, end, w))
  }

  lemma OrderMattersHere(p: Params, node: BlockNode, end: BlockNode, v: nat, w: nat)
    requires ThreeQuarters(p) && LatestMajority(p, Prior(p, node)) == Some(end)
    requires VoteMajority(p, end, v) && VoteMajority(p, end, w) && v < w && OrderMatters(p, end, v, w)
    ensures Undecided(p, node)
  {
    hide LatestMajority, VoteMajority, Prior, IsMajority, IsStakeVersionFrom, HeaderMajority;
    var high := VersionFrom(p, end, w);
    assert IsStakeVersionAt(p, end, high) && IsStakeVersion(p, node, high);
    if v == 0 {
      assert IsStakeVersion(p, node, 0);
    } else {
      var low := VersionFrom(p, end, v);
      assert IsStakeVersionAt(p, end, low) && IsStakeVersion(p, node, low);
      assert !IsLockedVersion(p, end, low) || low < w;
    }
  }

  /** An interval is two blocks, and those before have two header versions. */
  ghost predicate SplitHeaders(p: Params, end: BlockNode)
    requires p.Ok()
  {
    p.stakeVersionInterval == 2 && Prior(p, end).Some? && TwoDiffer(HeaderVersions(Interval(p, Prior(p, end).value)))
  }

  /** Either of two header versions can be found locked in, and that makes a difference to a vote. */
  ghost predicate HeadersMatter(p: Params, end: BlockNode, v: nat)
    requires p.Ok()
  {
    && IsMajority(p, 3, IntervalStart(p, end), p.blockRejectNumRequired) && v != 0
    && SplitHeaders(p, end) && v < Greatest(HeaderVersions(Interval(p, Prior(p, end).value)))
  }

  ghost predicate AnyHeadersMatter(p: Params, end: BlockNode)
    requires p.Ok()
  {
    exists v: nat :: VoteMajority(p, end, v) && HeadersMatter(p, end, v)
  }

  /** Of two header versions each is locked in. */
  lemma SplitLocked(p: Params, end: BlockNode) returns (low: nat, high: nat)
    requires ThreeQuarters(p) && SplitHeaders(p, end)
    ensures low < high == Greatest(HeaderVersions(Interval(p, Prior(p, end).value)))
    ensures IsLockedVersion(p, end, low) && IsLockedVersion(p, end, high)
    ensures forall x: nat :: IsLockedVersion(p, end, x) ==> x <= high
  {
    hide Prior, HeaderVersions, Interval;
    var headers := HeaderVersions(Interval(p, Prior(p, end).value));
    assert p.NumRequired(2) == 1;
    low, high := Least(headers), Greatest(headers);
  }

  lemma OnePrior(p: Params, end: BlockNode)
    requires ThreeQuarters(p) && !SplitHeaders(p, end)
    ensures forall x, y :: IsPriorVersion(p, end, x) && IsPriorVersion(p, end, y) ==> x == y
  {
    hide Prior, HeaderVersions, Interval, p.NumRequired, Reaches;
    if Prior(p, end).Some? {
      HeadersAmbiguous(p, Prior(p, end).value);
    }
  }

  /** A vote below a version that is locked in can give that version. */
  lemma LockedGives(p: Params, node: BlockNode, end: BlockNode, v: nat, x: nat)
    requires p.Ok() && LatestMajority(p, Prior(p, node)) == Some(end) && VoteMajority(p, end, v) && v != 0
    requires IsMajority(p, 3, IntervalStart(p, end), p.blockRejectNumRequired) && IsStakeMajority(p, v, end)
    requires IsLockedVersion(p, end, x)
    ensures IsStakeVersion(p, node, NotBelow(Some(x), v))
  {
    hide LatestMajority, VoteMajority, Prior, IsMajority, HeaderMajority, IsStakeMajority;
    assert IsPriorVersion(p, end, Some(x));
    assert IsLocked(p, end, v, NotBelow(Some(x), v));
    assert IsStakeVersionAt(p, end, NotBelow(Some(x), v));
  }

  lemma HeadersMatterHere(p: Params, node: BlockNode, end: BlockNode, v: nat)
    requires ThreeQuarters(p) && LatestMajority(p, Prior(p, node)) == Some(end)
    requires VoteMajority(p, end, v) && HeadersMatter(p, end, v)
    ensures Undecided(p, node)
  {
    hide LatestMajority, VoteMajority, Prior, IsMajority, HeaderMajority, IsStakeMajority, IsStakeVersion,
         IsLockedVersion;
    var low, high := SplitLocked(p, end);
    LockedIsMajority(p, end, v, high);
    LockedGives(p, node, end, v, low);
    LockedGives(p, node, end, v, high);
  }

  /** When the headers have locked in a version not below either vote, both give that version. */
  lemma LockedEitherWay(p: Params, end: BlockNode, v: nat, x: nat, r: nat)
    requires ThreeQuarters(p) && !SplitHeaders(p, end)
    requires v <= x && IsLockedVersion(p, end, x) && IsStakeVersionFrom(p, end, v, r)
    requires IsMajority(p, 3, IntervalStart(p, end), p.blockRejectNumRequired)
    ensures r == x
  {
    hide Prior, IsMajority, IsStakeMajority, HeaderMajority, SplitHeaders;
    LockedIsMajority(p, end, v, x);
    OnePrior(p, end);
    assert IsPriorVersion(p, end, Some(x));
  }

  /** The expected version depends on the order of a scan exactly when version 3 is enforced in the
      interval it comes from and either that interval holds just two votes of different versions, which
      no version locked in by the headers before covers both (as none does for a vote of version zero),
      or an interval is two blocks, the two headers before have different versions, and the higher one
      is above a vote. */
  lemma UndecidedExactly(p: Params, node: BlockNode)
    requires ThreeQuarters(p) && forall end :: node.Extends(end) ==> VotesIn32Bits(p, end)
    ensures var latest := LatestMajority(p, Prior(p, node));
            Undecided(p, node) <==>
              && latest.Some?
              && var votes := VoteVersions(Interval(p, latest.value));
              || (TwoDiffer(votes) && OrderMatters(p, latest.value, Least(votes), Greatest(votes)))
              || AnyHeadersMatter(p, latest.value)
  {
    hide LatestMajority, VoteMajority, HasVoteMajority, Prior, IsMajority, IsStakeVersionFrom, HeaderMajority,
         ClosesInterval, VoteVersions, Interval, HeadersMatter, OrderMatters;
    SourceInterval(p, node);
    var latest := LatestMajority(p, Prior(p, node));
    if latest.Some? {
      var votes := VoteVersions(Interval(p, latest.value));
      if AnyHeadersMatter(p, latest.value) {
        var v: nat :| VoteMajority(p, latest.value, v) && HeadersMatter(p, latest.value, v);
        HeadersMatterHere(p, node, latest.value, v);
      } else if TwoDiffer(votes) {
        EitherVote(p, latest.value, votes[0]);
        EitherVote(p, latest.value, votes[1]);
        if OrderMatters(p, latest.value, Least(votes), Greatest(votes)) {
          OrderMattersHere(p, node, latest.value, Least(votes), Greatest(votes));
        } else {
          OrderDoesNotMatter(p, node, latest.value);
        }
      } else {
        OneVersion(p, node, latest.value);
      }
    }
  }

  function Least(versions: seq<nat>): nat
    requires |versions| == 2
  {
    if versions[0] < versions[1] then versions[0] else versions[1]
  }

  function Greatest(versions: seq<nat>): nat
    requires |versions| == 2
  {
    if versions[0] < versions[1] then versions[1] else versions[0]
  }

  lemma OrderDoesNotMatter(p: Params, node: BlockNode, end: BlockNode)
    requires ThreeQuarters(p) && LatestMajority(p, Prior(p, node)) == Some(end) && !AnyHeadersMatter(p, end)
    requires var votes := VoteVersions(Interval(p, end));
             TwoDiffer(votes) && !OrderMatters(p, end, Least(votes), Greatest(votes))
    ensures !Undecided(p, node)
  {
    hide LatestMajority, Prior, IsMajority, HeaderMajority, VoteVersions, Interval, LockedAtLeast, SplitHeaders,
         HeaderVersions, IsLockedVersion;
    var votes := VoteVersions(Interval(p, end));
    if IsMajority(p, 3, IntervalStart(p, end), p.blockRejectNumRequired) {
      var x := LockedVersion(p, end, Greatest(votes));
      if SplitHeaders(p, end) {
        var low, high := SplitLocked(p, end);
        EitherVote(p, end, Least(votes));
      }
      forall r | IsStakeVersion(p, node, r) ensures r == x {
        assert !VoteMajority(p, end, 0);
        var v :| v != 0 && VoteMajority(p, end, v) && IsStakeVersionFrom(p, end, v, r);
        LockedEitherWay(p, end, v, x, r);
      }
    }
  }

  lemma LockedVersion(p: Params, end: BlockNode, v: nat) returns (x: nat)
    requires p.Ok() && LockedAtLeast(p, end, v)
    ensures x >= v && IsLockedVersion(p, end, x)
  {
    hide HeaderMajority, Prior;
    x :| x >= v && HeaderMajority(p, Prior(p, end).value, x);
  }

  /** Without two differing votes one voter version is left and with it one stake version. */
  lemma OneVersion(p: Params, node: BlockNode, end: BlockNode)
    requires ThreeQuarters(p) && LatestMajority(p, Prior(p, node)) == Some(end) && !AnyHeadersMatter(p, end)
    requires VotesIn32Bits(p, end) && !TwoDiffer(VoteVersions(Interval(p, end)))
    ensures !Undecided(p, node)
  {
    hide LatestMajority, Prior, IsMajority, IsStakeMajority, VoteVersions, HeaderVersions, Interval, p.NumRequired,
         Reaches, IsStakeVersionFrom, SplitHeaders;
    ThreeQuartersAmbiguous(p, VoteVersions(Interval(p, end)));
    assert forall v: nat, w: nat :: VoteMajority(p, end, v) && VoteMajority(p, end, w) ==> v == w;
    forall a, b | IsStakeVersion(p, node, a) && IsStakeVersion(p, node, b) ensures a == b {
      if v: nat :| v != 0 && VoteMajority(p, end, v) {
        assert !HeadersMatter(p, end, v);
        OneFrom(p, end, v, a, b);
      }
    }
  }

  /** From one voter version there is one stake version, when no header version above it is split. */
  lemma OneFrom(p: Params, end: BlockNode, v: nat, a: nat, b: nat)
    requires ThreeQuarters(p) && v != 0 && !HeadersMatter(p, end, v)
    requires IsStakeVersionFrom(p, end, v, a) && IsStakeVersionFrom(p, end, v, b)
    ensures a == b
  {
    hide Prior, IsMajority, IsStakeMajority, IsPriorVersion, SplitHeaders, HeaderVersions, Interval;
    if IsMajority(p, 3, IntervalStart(p, end), p.blockRejectNumRequired) && IsStakeMajority(p, v, end) {
      if SplitHeaders(p, end) {
        LockedIsVote(p, end, v, a);
        LockedIsVote(p, end, v, b);
      } else {
        OnePrior(p, end);
      }
    }
  }

  lemma LockedIsVote(p: Params, end: BlockNode, v: nat, r: nat)
    requires ThreeQuarters(p) && SplitHeaders(p, end) && IsLocked(p, end, v, r)
    requires v >= Greatest(HeaderVersions(Interval(p, Prior(p, end).value)))
    ensures r == v
  {
    hide Prior, HeaderMajority, HeaderVersions, Interval;
    var low, high := SplitLocked(p, end);
    var prior :| IsPriorVersion(p, end, prior) && r == NotBelow(prior, v);
    assert prior.Some? ==> IsLockedVersion(p, end, prior.value);
  }

  // The expected version by counting votes and headers.

  lemma OneWindow(v: seq<BlockNode>, w: seq<BlockNode>, n: BlockNode, k: nat)
    requires IsWindow(v, n, k) && IsWindow(w, n, k)
    ensures v == w
  {
    forall j | 0 <= j < |v| ensures v[j] == w[j] {
      assert Some(v[j]) == n.AncestorAt(n.Height() - j) == Some(w[j]);
    }
  }

  /** Enough of the last blocks up to the node have at least the version. */
  ghost predicate HaveUpgraded(p: Params, minVer: int, n: BlockNode, numRequired: nat) {
    exists w :: IsWindow(w, n, p.blockUpgradeNumToCheck)
      && CountNodes(w, (b: BlockNode) => b.blockVersion >= minVer) >= numRequired
  }

  lemma HaveUpgradedIs(p: Params, minVer: int, n: BlockNode, numRequired: nat)
    ensures IsMajority(p, minVer, Some(n), numRequired) <==> HaveUpgraded(p, minVer, n, numRequired)
  {
    hide CountNodes, CountBlockVersion, IsWindow, LastNodes;
    var w := LastNodes(Some(n), p.blockUpgradeNumToCheck);
    LastNodesAre(n, p.blockUpgradeNumToCheck);
    BlockVersionsAre(w, minVer);
    forall v | IsWindow(v, n, p.blockUpgradeNumToCheck) ensures v == w {
      OneWindow(v, w, n, p.blockUpgradeNumToCheck);
    }
  }

  /** Enough votes of the interval that ends with the node have the version, at least one. */
  ghost predicate VotesCarry(p: Params, end: BlockNode, v: nat)
    requires p.Ok()
  {
    exists w :: IsWindow(w, end, p.stakeVersionInterval)
      && 0 < CountVotes(w, (x: Vote) => x.version == v)
      && CountVotes(w, (x: Vote) => x.version == v) >= p.NumRequired(CountVotes(w, (x: Vote) => true))
  }

  lemma VotesCarryIs(p: Params, end: BlockNode, v: nat)
    requires p.Ok()
    ensures VoteMajority(p, end, v) <==> VotesCarry(p, end, v)
  {
    hide CountVotes, VoteVersions, IsWindow, LastNodes, p.NumRequired;
    var w := Interval(p, end);
    LastNodesAre(end, p.stakeVersionInterval);
    VotesAre(w, v);
    forall u | IsWindow(u, end, p.stakeVersionInterval) ensures u == w {
      OneWindow(u, w, end, p.stakeVersionInterval);
    }
  }

  /** Enough headers of the interval that ends with the node have the version, at least one. */
  ghost predicate HeadersLock(p: Params, end: BlockNode, x: nat)
    requires p.Ok()
  {
    exists w :: IsWindow(w, end, p.stakeVersionInterval)
      && 0 < CountNodes(w, (b: BlockNode) => b.stakeVersion == x)
      && CountNodes(w, (b: BlockNode) => b.stakeVersion == x) >= p.NumRequired(p.stakeVersionInterval)
  }

  lemma HeadersLockIs(p: Params, end: BlockNode, x: nat)
    requires p.Ok()
    ensures HeaderMajority(p, end, x) <==> HeadersLock(p, end, x)
  {
    hide CountNodes, HeaderVersions, IsWindow, LastNodes, p.NumRequired;
    var w := Interval(p, end);
    LastNodesAre(end, p.stakeVersionInterval);
    HeadersAre(w, x);
    forall u | IsWindow(u, end, p.stakeVersionInterval) ensures u == w {
      OneWindow(u, w, end, p.stakeVersionInterval);
    }
  }

  /** Blocks of version 3 are enforced at the first block of the interval that ends with the node. */
  ghost predicate ThreeEnforced(p: Params, end: BlockNode) {
    var first := end.AncestorAt(end.Height() - p.stakeVersionInterval + 1);
    first.Some? && HaveUpgraded(p, 3, first.value, p.blockRejectNumRequired)
  }

  lemma ThreeEnforcedIs(p: Params, end: BlockNode)
    requires p.Ok() && ClosesInterval(p, end)
    ensures IsMajority(p, 3, IntervalStart(p, end), p.blockRejectNumRequired) <==> ThreeEnforced(p, end)
    ensures Prior(p, end) == Some(end)
  {
    hide IsMajority, HaveUpgraded, CalcWantHeight, IsIntervalEnd;
    var svh, svi := p.stakeValidationHeight, p.stakeVersionInterval;
    var h: int := end.Height();
    AtLeastOneInterval(svh, svi, h);
    EndHasStart(p, end);
    AncestorHeight(end, h - svi + 1);
    ModAtMost(svh, svi);
    NextIntervalEnd(svh, svi, h, h + 1);
    StartIs(p, end);
    HaveUpgradedIs(p, 3, end.AncestorAt(h - svi + 1).value, p.blockRejectNumRequired);
    assert end.AncestorAt(h) == Some(end);
  }

  lemma StartIs(p: Params, end: BlockNode)
    requires p.Ok() && ClosesInterval(p, end) && end.Height() >= p.stakeValidationHeight + p.stakeVersionInterval - 1
    ensures IntervalStart(p, end) == end.AncestorAt(end.Height() - p.stakeVersionInterval + 1)
  {
    hide CalcWantHeight;
    var svh, svi := p.stakeValidationHeight, p.stakeVersionInterval;
    var h: int := end.Height();
    ModAtMost(svh, svi);
    IntervalEndBefore(svh, svi, h);
    NextIntervalEnd(svh, svi, h - svi, h);
  }

  /** No interval between the one found and the node has a version that enough votes carry. */
  lemma {:induction false} LatestIsLatest(p: Params, node: BlockNode, m: BlockNode, v: nat)
    requires p.Ok() && IsIntervalEnd(p.stakeValidationHeight, p.stakeVersionInterval, node.Height())
    requires node.Extends(m) && ClosesInterval(p, m)
    requires var latest := LatestMajority(p, Some(node)); latest.Some? ==> m.Height() > latest.value.Height()
    ensures !VotesCarry(p, m, v)
    decreases node.Height()
  {
    hide VoteMajority, VotesCarry, IsIntervalEnd, LatestMajority;
    var svh, svi := p.stakeValidationHeight, p.stakeVersionInterval;
    var h: int := node.Height();
    VotesCarryIs(p, m, v);
    ExtendsIffAncestorAt(node, m);
    LatestStep(p, node);
    if node != m && !HasVoteMajority(p, node) {
      NoEndBetween(svh, svi, h, m.Height());
      AncestorHeight(node, h - svi);
      IntervalEndBefore(svh, svi, h);
      var before := node.AncestorAt(h - svi).value;
      AncestorCompose(node, h - svi, m.Height());
      ExtendsIffAncestorAt(before, m);
      LatestIsLatest(p, before, m, v);
    }
  }

  lemma NoEndBetween(svh: nat, svi: nat, h: int, m: int)
    requires svi > 0 && IsIntervalEnd(svh, svi, h) && IsIntervalEnd(svh, svi, m) && m < h
    ensures m <= h - svi
  {
    var k: int := svi;
    DivMod(h + 1, k);
    DivMod(m + 1, k);
    var d := (h + 1) / k - (m + 1) / k;
    assert h - m == d * k;
    if d <= 0 {
      MulMono(d, 0, k);
    }
    MulMono(1, d, k);
  }

  /** The expected stake version comes from the latest interval in which enough votes have one version.
      It is zero when that version is zero or blocks of version 3 are not enforced yet; otherwise it is
      that version, or a higher one that enough headers of the interval have.  It does not go back behind
      a version so locked in. */
  lemma StakeVersionByCounts(p: Params, node: BlockNode, r: nat) returns (v: nat)
    requires p.Ok() && IsStakeVersion(p, node, r) && LatestMajority(p, Prior(p, node)).Some?
    ensures var end := LatestMajority(p, Prior(p, node)).value;
            && ClosesInterval(p, end) && VotesCarry(p, end, v)
            && (v == 0 || !ThreeEnforced(p, end) ==> r == 0)
            && (v != 0 && ThreeEnforced(p, end) ==>
                  r >= v && (r > v ==> HeadersLock(p, end, r))
                  && ((exists x: nat :: x >= v && HeadersLock(p, end, x)) ==> HeadersLock(p, end, r) || r == v))
            && (v != 0 && ThreeEnforced(p, end) && ThreeQuarters(p) && !SplitHeaders(p, end) ==>
                  forall x: nat :: x >= v && HeadersLock(p, end, x) ==> r == x)
  {
    hide LatestMajority, HasVoteMajority, VoteMajority, VotesCarry, Prior, IsMajority, HeaderMajority, HeadersLock,
         ThreeEnforced, IsStakeMajority, SplitHeaders, ThreeQuarters, ClosesInterval, IsPriorVersion;
    SourceInterval(p, node);
    var end := LatestMajority(p, Prior(p, node)).value;
    ThreeEnforcedIs(p, end);
    if u: nat :| u != 0 && VoteMajority(p, end, u) && IsStakeVersionFrom(p, end, u, r) {
      v := u;
      VotesCarryIs(p, end, v);
      if ThreeEnforced(p, end) {
        FromCounts(p, end, v, r);
      }
    } else {
      v := 0;
      VotesCarryIs(p, end, 0);
    }
  }

  lemma FromCounts(p: Params, end: BlockNode, v: nat, r: nat)
    requires p.Ok() && v != 0 && Prior(p, end) == Some(end) && IsStakeVersionFrom(p, end, v, r)
    requires IsMajority(p, 3, IntervalStart(p, end), p.blockRejectNumRequired)
    ensures r >= v && (r > v ==> HeadersLock(p, end, r))
    ensures ThreeQuarters(p) && !SplitHeaders(p, end) ==> forall x: nat :: x >= v && HeadersLock(p, end, x) ==> r == x
  {
    hide IsMajority, HeaderMajority, HeadersLock, IsStakeMajority, SplitHeaders, ThreeQuarters, Prior;
    forall x: nat ensures HeadersLock(p, end, x) <==> HeaderMajority(p, end, x) {
      HeadersLockIs(p, end, x);
    }
    if ThreeQuarters(p) && !SplitHeaders(p, end) {
      forall x: nat | x >= v && HeadersLock(p, end, x) ensures r == x {
        LockedEitherWay(p, end, v, x, r);
      }
    }
  }

  datatype VersionError = NotFound | Misuse

  /** Block nodes are identified by their hash. */
  ghost predicate Identified(nodeOf: Hash -> BlockNode, n: BlockNode) {
    nodeOf(n.hash) == n && (n.parent.Some? ==> Identified(nodeOf, n.parent.value))
  }

  lemma {:induction false} IdentifiedBelow(nodeOf: Hash -> BlockNode, n: BlockNode, a: BlockNode)
    requires Identified(nodeOf, n) && n.Extends(a)
    ensures Identified(nodeOf, a)
  {
    if n != a {
      IdentifiedBelow(nodeOf, n.parent.value, a);
    }
  }

  lemma IdentifiedAt(nodeOf: Hash -> BlockNode, n: BlockNode, h: int)
    requires Identified(nodeOf, n)
    ensures n.AncestorAt(h).Some? ==> Identified(nodeOf, n.AncestorAt(h).value)
  {
    if 0 <= h <= n.Height() {
      AncestorHeight(n, h);
      IdentifiedBelow(nodeOf, n, n.AncestorAt(h).value);
    }
  }

  /** Count how often each version occurs. */
  ghost predicate IsTally(tally: map<nat, nat>, versions: seq<nat>) {
    && (forall v :: v in tally <==> v in versions)
    && (forall v :: v in tally ==> tally[v] == multiset(versions)[v])
  }

  function Plus(tally: map<nat, nat>, v: nat): map<nat, nat> {
    tally[v := (if v in tally then tally[v] else 0) + 1]
  }

  lemma TallyOne(tally: map<nat, nat>, versions: seq<nat>, v: nat)
    requires IsTally(tally, versions)
    ensures IsTally(Plus(tally, v), versions + [v])
  {
    assert multiset(versions + [v]) == multiset(versions) + multiset{v};
  }

  /** Scan a tally in no particular order for a version with enough votes. */
  method ScanTally(tally: map<nat, nat>, numRequired: int) returns (r: Option<nat>)
    ensures r.Some? ==> r.value in tally && tally[r.value] >= numRequired
    ensures r.None? ==> forall v :: v in tally ==> tally[v] < numRequired
  {
    var items := tally.Items;
    while items != {}
      invariant items <= tally.Items
      invariant forall v :: v in tally ==> (v, tally[v]) in items || tally[v] < numRequired
      decreases items
    {
      var item: (nat, nat) :| item in items;
      if item.1 >= numRequired {
        return Some(item.0);
      }
      items := items - {item};
    }
    r := None;
  }

  lemma TallyReaches(tally: map<nat, nat>, versions: seq<nat>, required: int)
    requires IsTally(tally, versions)
    ensures forall v: nat :: v in tally && tally[v] >= required <==> Reaches(versions, required, v)
  {}

  class StakeVersionCaches {
    const p: Params
    ghost const nodeOf: Hash -> BlockNode
    var isStakeMajorityVersionCache: map<(nat, Hash), bool>
    var priorStakeVersionCache: map<Hash, nat>
    var voterVersionIntervalCache: map<Hash, nat>
    var stakeVersionCache: map<Hash, nat>

    /** Whatever is cached is what the uncached functions allow. */
    ghost predicate Coherent()
      reads this
    {
      && p.Ok()
      && (forall k :: k in isStakeMajorityVersionCache ==>
            isStakeMajorityVersionCache[k] == MajorityOfHeaders(p, nodeOf(k.1), k.0))
      && (forall h :: h in priorStakeVersionCache ==> HeaderMajority(p, nodeOf(h), priorStakeVersionCache[h]))
      && (forall h :: h in voterVersionIntervalCache ==> VoteMajority(p, nodeOf(h), voterVersionIntervalCache[h]))
      && (forall h :: h in stakeVersionCache ==> IsStakeVersionAt(p, nodeOf(h), stakeVersionCache[h]))
    }

    constructor (p: Params, ghost nodeOf: Hash -> BlockNode)
      requires p.Ok()
      ensures Coherent() && this.p == p && this.nodeOf == nodeOf
    {
      this.p, this.nodeOf := p, nodeOf;
      isStakeMajorityVersionCache, priorStakeVersionCache := map[], map[];
      voterVersionIntervalCache, stakeVersionCache := map[], map[];
    }

    method FindStakeVersionPriorNode(prevNode: BlockNode) returns (r: Option<BlockNode>)
      requires p.Ok()
      ensures r == Prior(p, prevNode)
    {
      var nextHeight := prevNode.Height() + 1;
      if nextHeight < p.stakeValidationHeight + p.stakeVersionInterval {
        return None;
      }
      var wantHeight := CalcWantHeight(p.stakeValidationHeight, p.stakeVersionInterval, nextHeight);
      r := Ancestor(prevNode, wantHeight);
    }

    /** Whether enough headers of the prior interval have at least the given stake version. */
    method IsStakeMajorityVersion(minVer: nat, prevNode: BlockNode) returns (result: bool)
      requires Coherent() && Identified(nodeOf, prevNode)
      modifies this`isStakeMajorityVersionCache
      ensures Coherent() && result == IsStakeMajority(p, minVer, prevNode)
    {
      hide HeaderMajority, VoteMajority, IsStakeVersionAt, CountAtLeast, LastNodes, CalcWantHeight, Identified;
      var found := FindStakeVersionPriorNode(prevNode);
      if found.None? {
        return 0 >= minVer;
      }
      var node := found.value;
      PriorIdentified(prevNode);
      var key := (minVer, node.hash);
      if key in isStakeMajorityVersionCache {
        return isStakeMajorityVersionCache[key];
      }
      var versionCount := TallyAtLeast(node, minVer);
      var numRequired := p.NumRequired(p.stakeVersionInterval);
      result := versionCount >= numRequired;
      isStakeMajorityVersionCache := isStakeMajorityVersionCache[key := result];
    }

    lemma PriorIdentified(prevNode: BlockNode)
      requires p.Ok() && Identified(nodeOf, prevNode)
      ensures Prior(p, prevNode).Some? ==>
        Identified(nodeOf, Prior(p, prevNode).value)
          && nodeOf(Prior(p, prevNode).value.hash) == Prior(p, prevNode).value
    {
      IdentifiedAt(nodeOf, prevNode,
                   CalcWantHeight(p.stakeValidationHeight, p.stakeVersionInterval, prevNode.Height() + 1));
    }

    method TallyAtLeast(node: BlockNode, minVer: nat) returns (versionCount: nat)
      ensures versionCount == CountAtLeast(Interval(p, node), minVer)
    {
      versionCount := 0;
      var iterNode, i := Some(node), 0;
      while i < p.stakeVersionInterval && iterNode.Some?
        invariant 0 <= i <= p.stakeVersionInterval
        invariant versionCount + CountAtLeast(LastNodes(iterNode, p.stakeVersionInterval - i), minVer) ==
          CountAtLeast(Interval(p, node), minVer)
      {
        if iterNode.value.stakeVersion >= minVer {
          versionCount := versionCount + 1;
        }
        iterNode := iterNode.value.parent;
        i := i + 1;
      }
    }

    method TallyHeaders(node: BlockNode) returns (versions: map<nat, nat>)
      ensures IsTally(versions, HeaderVersions(Interval(p, node)))
    {
      hide IsTally, Plus;
      versions := map[];
      ghost var done, all: seq<nat> := [], HeaderVersions(Interval(p, node));
      TallyNothing();
      var iterNode, i := Some(node), 0;
      while i < p.stakeVersionInterval && iterNode.Some?
        invariant 0 <= i <= p.stakeVersionInterval && IsTally(versions, done)
        invariant done + HeaderVersions(LastNodes(iterNode, p.stakeVersionInterval - i)) == all
      {
        TallyOne(versions, done, iterNode.value.stakeVersion);
        versions := Plus(versions, iterNode.value.stakeVersion);
        done := done + [iterNode.value.stakeVersion];
        iterNode := iterNode.value.parent;
        i := i + 1;
      }
      assert done == all;
    }

    /** The version most headers of the prior interval have. */
    method CalcPriorStakeVersion(prevNode: BlockNode) returns (r: Option<nat>)
      requires Coherent() && Identified(nodeOf, prevNode)
      modifies this`priorStakeVersionCache
      ensures Coherent() && IsPriorVersion(p, prevNode, r)
    {
      hide VoteMajority, IsStakeVersionAt, MajorityOfHeaders, Interval, CalcWantHeight, Identified, IsTally, Reaches,
           HeaderVersions;
      var found := FindStakeVersionPriorNode(prevNode);
      if found.None? {
        return Some(0);
      }
      var node := found.value;
      PriorIdentified(prevNode);
      if node.hash in priorStakeVersionCache {
        return Some(priorStakeVersionCache[node.hash]);
      }
      var versions := TallyHeaders(node);
      var numRequired := p.NumRequired(p.stakeVersionInterval);
      TallyReaches(versions, HeaderVersions(Interval(p, node)), numRequired);
      r := ScanTally(versions, numRequired);
      if r.Some? {
        priorStakeVersionCache := priorStakeVersionCache[node.hash := r.value];
      }
    }

    method TallyVotes(node: BlockNode) returns (versions: map<nat, nat>, totalVotesFound: nat)
      ensures IsTally(versions, VoteVersions(Interval(p, node)))
      ensures totalVotesFound == |VoteVersions(Interval(p, node))|
    {
      hide IsTally, Plus;
      versions, totalVotesFound := map[], 0;
      ghost var done, all: seq<nat> := [], VoteVersions(Interval(p, node));
      TallyNothing();
      var iterNode, i := Some(node), 0;
      while i < p.stakeVersionInterval && iterNode.Some?
        invariant 0 <= i <= p.stakeVersionInterval && IsTally(versions, done) && totalVotesFound == |done|
        invariant done + VoteVersions(LastNodes(iterNode, p.stakeVersionInterval - i)) == all
      {
        totalVotesFound := totalVotesFound + |iterNode.value.votes|;
        versions := TallyBlock(versions, iterNode.value.votes, done);
        done := done + VersionsOf(iterNode.value.votes);
        iterNode := iterNode.value.parent;
        i := i + 1;
      }
      assert done == all;
    }

    method TallyBlock(start: map<nat, nat>, votes: seq<Vote>, ghost done: seq<nat>) returns (versions: map<nat, nat>)
      requires IsTally(start, done)
      ensures IsTally(versions, done + VersionsOf(votes))
    {
      hide IsTally, Plus;
      versions := start;
      assert done + VersionsOf([]) == done;
      for k := 0 to |votes|
        invariant IsTally(versions, done + VersionsOf(votes[..k]))
      {
        TallyOne(versions, done + VersionsOf(votes[..k]), votes[k].version);
        VersionsSnoc(votes[..k], votes[k]);
        assert votes[..k] + [votes[k]] == votes[..k + 1];
        assert done + VersionsOf(votes[..k]) + [votes[k].version] == done + VersionsOf(votes[..k + 1]);
        versions := Plus(versions, votes[k].version);
      }
      assert votes[..|votes|] == votes;
    }

    /** The version most votes of an interval have; it must be given the end of an interval. */
    method CalcVoterVersionInterval(prevNode: BlockNode) returns (r: Result<nat, VersionError>)
      requires Coherent() && Identified(nodeOf, prevNode)
      modifies this`voterVersionIntervalCache
      ensures Coherent()
      ensures var want := CalcWantHeight(p.stakeValidationHeight, p.stakeVersionInterval, prevNode.Height() + 1);
        if prevNode.Height() != want || want < p.stakeValidationHeight then r == Err(Misuse)
        else if r.Ok? then VoteMajority(p, prevNode, r.value) else r == Err(NotFound) && !HasVoteMajority(p, prevNode)
    {
      hide HeaderMajority, IsStakeVersionAt, MajorityOfHeaders, Interval, CalcWantHeight, Identified, IsTally,
           Reaches, VoteVersions;
      var expectedHeight := CalcWantHeight(p.stakeValidationHeight, p.stakeVersionInterval, prevNode.Height() + 1);
      if prevNode.Height() != expectedHeight || expectedHeight < p.stakeValidationHeight {
        return Err(Misuse);
      }
      NodeIdentified(nodeOf, prevNode);
      if prevNode.hash in voterVersionIntervalCache {
        return Ok(voterVersionIntervalCache[prevNode.hash]);
      }
      var versions, totalVotesFound := TallyVotes(prevNode);
      var numRequired := p.NumRequired(totalVotesFound);
      TallyReaches(versions, VoteVersions(Interval(p, prevNode)), numRequired);
      var found := ScanTally(versions, numRequired);
      if found.Some? {
        voterVersionIntervalCache := voterVersionIntervalCache[prevNode.hash := found.value];
        return Ok(found.value);
      }
      r := Err(NotFound);
    }

    /** The latest majority among votes, going back interval by interval. */
    method CalcVoterVersion(prevNode: BlockNode) returns (version: nat, at: Option<BlockNode>)
      requires Coherent() && Identified(nodeOf, prevNode)
      modifies this`voterVersionIntervalCache
      ensures Coherent() && IsVoterVersion(p, prevNode, version, at)
    {
      hide HeaderMajority, IsStakeVersionAt, MajorityOfHeaders, Interval, CalcWantHeight, Identified, VoteMajority,
           HasVoteMajority, LatestMajority;
      var node := FindStakeVersionPriorNode(prevNode);
      PriorIdentified(prevNode);
      PriorIsEnd(p, prevNode);
      while node.Some? && node.value.Height() >= p.stakeValidationHeight
        invariant Coherent() && (node.Some? ==> Identified(nodeOf, node.value))
        invariant LatestMajority(p, node) == LatestMajority(p, Prior(p, prevNode))
        invariant node.Some? && node.value.Height() >= p.stakeValidationHeight ==>
          CalcWantHeight(p.stakeValidationHeight, p.stakeVersionInterval, node.value.Height() + 1) ==
            node.value.Height()
        decreases if node.Some? then node.value.Height() else -1
      {
        var found := CalcVoterVersionInterval(node.value);
        LatestStep(p, node.value);
        if found.Ok? {
          MajorityFound(p, node.value, found.value);
          return found.value, node;
        }
        if found != Err(NotFound) {
          assert false;
        }
        var distance := p.stakeVersionInterval;
        EndBefore(p, node.value);
        IdentifiedAt(nodeOf, node.value, node.value.Height() - distance);
        node := RelativeAncestor(node.value, distance);
      }
      LatestNone(p, node);
      version, at := 0, None;
    }

    method IsMajorityVersion(minVer: int, startNode: Option<BlockNode>, numRequired: nat) returns (r: bool)
      ensures r == IsMajority(p, minVer, startNode, numRequired)
    {
      var numFound := 0;
      var iterNode, i := startNode, 0;
      while i < p.blockUpgradeNumToCheck && numFound < numRequired && iterNode.Some?
        invariant 0 <= i <= p.blockUpgradeNumToCheck
        invariant numFound + CountBlockVersion(LastNodes(iterNode, p.blockUpgradeNumToCheck - i), minVer)
          == CountBlockVersion(LastNodes(startNode, p.blockUpgradeNumToCheck), minVer)
      {
        if iterNode.value.blockVersion >= minVer {
          numFound := numFound + 1;
        }
        iterNode := iterNode.value.parent;
        i := i + 1;
      }
      r := numFound >= numRequired;
    }

    /** The expected stake version of the next block. */
    method CalcStakeVersion(prevNode: BlockNode) returns (version: nat)
      requires Coherent() && Identified(nodeOf, prevNode)
      modifies this
      ensures Coherent() && IsStakeVersion(p, prevNode, version)
    {
      hide HeaderMajority, MajorityOfHeaders, Interval, CalcWantHeight, Identified, VoteMajority, LatestMajority,
           Prior, IsMajority, IsStakeMajority, IsPriorVersion, IsStakeVersionAt;
      var found;
      version, found := CalcVoterVersion(prevNode);
      if version == 0 || found.None? {
        return 0;
      }
      var node := found.value;
      LatestIsEnd(p, prevNode);
      LatestIdentified(prevNode);
      NodeIdentified(nodeOf, node);
      if node.hash in stakeVersionCache {
        return stakeVersionCache[node.hash];
      }
      ghost var voterVersion := version;
      var startIntervalHeight := CalcWantHeight(p.stakeValidationHeight, p.stakeVersionInterval, node.Height()) + 1;
      var startNode := Ancestor(node, startIntervalHeight);
      if startNode.None? {
        assert false;
      }
      var enforced := IsMajorityVersion(3, startNode, p.blockRejectNumRequired);
      if !enforced {
        StakeVersionFound(p, node, voterVersion, 0);
        stakeVersionCache := stakeVersionCache[node.hash := 0];
        return 0;
      }
      var locked := IsStakeMajorityVersion(version, node);
      if locked {
        var prior := CalcPriorStakeVersion(node);
        PriorFound(p, node, voterVersion, prior);
        var priorVersion := if prior.Some? then prior.value else 0;
        if priorVersion > version {
          version := priorVersion;
        }
      }
      StakeVersionFound(p, node, voterVersion, version);
      stakeVersionCache := stakeVersionCache[node.hash := version];
    }

    lemma LatestIdentified(prevNode: BlockNode)
      requires p.Ok() && Identified(nodeOf, prevNode) && LatestMajority(p, Prior(p, prevNode)).Some?
      ensures Identified(nodeOf, LatestMajority(p, Prior(p, prevNode)).value)
    {
      hide Prior, HasVoteMajority, Identified;
      SourceInterval(p, prevNode);
      var end := LatestMajority(p, Prior(p, prevNode)).value;
      IdentifiedBelow(nodeOf, prevNode, end);
    }
  }

  lemma EndWanted(p: Params, node: BlockNode)
    requires p.Ok() && node.Height() >= p.stakeValidationHeight
      && IsIntervalEnd(p.stakeValidationHeight, p.stakeVersionInterval, node.Height())
    ensures CalcWantHeight(p.stakeValidationHeight, p.stakeVersionInterval, node.Height() + 1) == node.Height()
  {
    ModAtMost(p.stakeValidationHeight, p.stakeVersionInterval);
    NextIntervalEnd(p.stakeValidationHeight, p.stakeVersionInterval, node.Height(), node.Height() + 1);
  }

  lemma ModAtMost(a: nat, m: int)
    requires m > 0
    ensures 0 <= a % m <= a
  {
    if a < m {
      SmallMod(a, m);
    }
  }

  /** The prior node ends an interval of votes. */
  lemma PriorIsEnd(p: Params, node: BlockNode)
    requires p.Ok()
    ensures Prior(p, node).Some? ==>
      Prior(p, node).value.Height() >= p.stakeValidationHeight + p.stakeVersionInterval - 1
      && IsIntervalEnd(p.stakeValidationHeight, p.stakeVersionInterval, Prior(p, node).value.Height())
      && CalcWantHeight(p.stakeValidationHeight, p.stakeVersionInterval, Prior(p, node).value.Height() + 1) ==
         Prior(p, node).value.Height()
  {
    var svh, svi, h := p.stakeValidationHeight, p.stakeVersionInterval, node.Height() + 1;
    if h >= svh + svi {
      WantHeightIsIntervalEnd(svh, svi, h);
      ModAtMost(svh, svi);
      var want := CalcWantHeight(svh, svi, h);
      AtLeastOneInterval(svh, svi, want);
      AncestorHeight(node, want);
      EndWanted(p, Prior(p, node).value);
    }
  }

  /** An interval end at or after the start of voting is at least one interval after it. */
  lemma AtLeastOneInterval(svh: nat, interval: nat, h: int)
    requires interval > 0 && IsIntervalEnd(svh, interval, h) && h >= svh
    ensures h >= svh + interval - 1
  {
    var m: int := interval;
    DivMod(h + 1, m);
    DivMod(svh, m);
    var d := (h + 1) / m - svh / m;
    assert h + 1 - svh == d * m;
    MulMono(d, 0, m);
    MulMono(1, d, m);
  }

  /** One interval earlier there is another interval end, or none in the time of voting. */
  lemma EndBefore(p: Params, node: BlockNode)
    requires p.Ok() && node.Height() >= p.stakeValidationHeight
    requires CalcWantHeight(p.stakeValidationHeight, p.stakeVersionInterval, node.Height() + 1) == node.Height()
    ensures var svi := p.stakeVersionInterval; var before := node.AncestorAt(node.Height() - svi);
            && node.Height() >= p.stakeValidationHeight + svi - 1
            && IsIntervalEnd(p.stakeValidationHeight, svi, node.Height())
            && (before.Some? ==> before.value.Height() == node.Height() - svi)
            && (before.Some? && before.value.Height() >= p.stakeValidationHeight ==>
                  CalcWantHeight(p.stakeValidationHeight, svi, before.value.Height() + 1) == before.value.Height())
  {
    var svh, svi, h := p.stakeValidationHeight, p.stakeVersionInterval, node.Height();
    WantHeightIsIntervalEnd(svh, svi, h + 1);
    AtLeastOneInterval(svh, svi, h);
    if h >= svi {
      AncestorHeight(node, h - svi);
      var m: int := svi;
      DivMod(h + 1, m);
      ModUnique(h + 1 - m, m, (h + 1) / m - 1, (h + 1) % m);
      if h - svi >= svh {
        EndWanted(p, node.AncestorAt(h - svi).value);
      }
    }
  }

  lemma LatestStep(p: Params, node: BlockNode)
    requires p.Ok() && node.Height() >= p.stakeValidationHeight
    ensures LatestMajority(p, Some(node)) ==
            if HasVoteMajority(p, node) then Some(node)
               else LatestMajority(p, node.AncestorAt(node.Height() - p.stakeVersionInterval))
  {
    hide HasVoteMajority;
  }

  lemma LatestNone(p: Params, node: Option<BlockNode>)
    requires p.Ok() && (node.None? || node.value.Height() < p.stakeValidationHeight)
    ensures LatestMajority(p, node) == None
  {}

  lemma MajorityFound(p: Params, node: BlockNode, v: nat)
    requires p.Ok() && VoteMajority(p, node, v)
    ensures HasVoteMajority(p, node)
  {}

  /** The latest majority is found at the end of an interval that has a first block. */
  lemma LatestIsEnd(p: Params, prevNode: BlockNode)
    requires p.Ok()
    ensures LatestMajority(p, Prior(p, prevNode)).Some? ==>
      IntervalStart(p, LatestMajority(p, Prior(p, prevNode)).value).Some?
  {
    hide Prior, CalcWantHeight, IsIntervalEnd, LatestMajority;
    PriorIsEnd(p, prevNode);
    if Prior(p, prevNode).Some? {
      LatestHasStart(p, Prior(p, prevNode).value);
    } else {
      LatestNone(p, None);
    }
  }

  lemma {:induction false} LatestHasStart(p: Params, node: BlockNode)
    requires p.Ok() && (node.Height() >= p.stakeValidationHeight ==>
               CalcWantHeight(p.stakeValidationHeight, p.stakeVersionInterval, node.Height() + 1) == node.Height())
    ensures LatestMajority(p, Some(node)).Some? ==> IntervalStart(p, LatestMajority(p, Some(node)).value).Some?
    decreases node.Height()
  {
    hide HasVoteMajority, CalcWantHeight, LatestMajority;
    if node.Height() >= p.stakeValidationHeight {
      LatestStep(p, node);
      EndBefore(p, node);
      if HasVoteMajority(p, node) {
        EndHasStart(p, node);
      } else {
        var before := node.AncestorAt(node.Height() - p.stakeVersionInterval);
        if before.Some? {
          LatestHasStart(p, before.value);
        } else {
          LatestNone(p, before);
        }
      }
    } else {
      LatestNone(p, Some(node));
    }
  }

  lemma EndHasStart(p: Params, node: BlockNode)
    requires p.Ok() && node.Height() >= p.stakeValidationHeight + p.stakeVersionInterval - 1
    requires IsIntervalEnd(p.stakeValidationHeight, p.stakeVersionInterval, node.Height())
    ensures IntervalStart(p, node).Some?
      && IntervalStart(p, node).value.Height() == node.Height() - p.stakeVersionInterval + 1
  {
    var svh, svi, h := p.stakeValidationHeight, p.stakeVersionInterval, node.Height();
    var m: int := svi;
    ModAtMost(svh, svi);
    DivMod(h + 1, m);
    ModUnique(h - svi + 1, m, (h + 1) / m - 1, (h + 1) % m);
    NextIntervalEnd(svh, svi, h - svi, h);
    AncestorHeight(node, h - svi + 1);
  }

  lemma StakeVersionFound(p: Params, end: BlockNode, voterVersion: nat, r: nat)
    requires p.Ok() && voterVersion != 0 && VoteMajority(p, end, voterVersion)
      && IsStakeVersionFrom(p, end, voterVersion, r)
    ensures IsStakeVersionAt(p, end, r)
  {}

  lemma PriorFound(p: Params, end: BlockNode, voterVersion: nat, prior: Option<nat>)
    requires p.Ok() && IsPriorVersion(p, end, prior)
    ensures IsLocked(p, end, voterVersion, NotBelow(prior, voterVersion))
  {}

  lemma NodeIdentified(nodeOf: Hash -> BlockNode, n: BlockNode)
    requires Identified(nodeOf, n)
    ensures nodeOf(n.hash) == n
  {}

  lemma TallyNothing()
    ensures IsTally(map[], [])
  {}
}
