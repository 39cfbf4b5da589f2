/** The state machine that decides agendas window by window, with its cache
    (blockchain/thresholdstate.go). */
module Thresholds {
  import opened Wrappers
  import opened Transactions
  import opened BlockNodes
  import opened GoArithmetic
  import opened StakeVersions
  import opened VoteBits
  import opened Counting
  import opened MedianTime

  datatype ThresholdState = Defined | Started | LockedIn | Active | Failed

  const INVALID_CHOICE := 0xffff_ffff

  datatype StateTuple = StateTuple(state: ThresholdState, choice: nat)

  // The votes of a window.

  function VotesIn(nodes: seq<BlockNode>): seq<Vote> {
    if nodes == [] then [] else nodes[0].votes + VotesIn(nodes[1..])
  }

  /** The votes for those of the first k choices that `which` picks. */
  function CountWhere(d: Agenda, votes: seq<Vote>, version: nat, which: Choice -> bool, k: nat): nat
    requires d.mask != 0 && k <= |d.choices|
  {
    if k == 0 then 0 else
    CountWhere(d, votes, version, which,
               k - 1) + (if which(d.choices[k - 1]) then CountFor(votes, version, d.mask, k - 1) else 0)
  }

  lemma {:induction false} CountWhereAppend(d: Agenda, a: seq<Vote>, b: seq<Vote>, version: nat, which: Choice -> bool,
                                            k: nat)
    requires d.mask != 0 && k <= |d.choices|
    ensures CountWhere(d, a + b, version, which, k) ==
      CountWhere(d, a, version, which, k) + CountWhere(d, b, version, which, k)
  {
    hide CountFor;
    if k > 0 {
      CountWhereAppend(d, a, b, version, which, k - 1);
      CountForAppend(a, b, version, d.mask, k - 1);
    }
  }

  const Counted: Choice -> bool := (c: Choice) => !c.isAbstain
  const NonAbstain: Choice -> bool := (c: Choice) => !(c.isAbstain && !c.isNo)

  /** The first choice from k on that reaches the threshold, abstaining aside. */
  function FirstOver(d: Agenda, votes: seq<Vote>, version: nat, threshold: nat, k: nat): (r: Option<nat>)
    requires d.mask != 0 && k <= |d.choices|
    ensures r.Some? ==> k <= r.value < |d.choices|
    decreases |d.choices| - k
  {
    if k == |d.choices| then None
    else if Uint32(CountFor(votes, version, d.mask, k)) >= threshold && NonAbstain(d.choices[k]) then Some(k)
    else FirstOver(d, votes, version, threshold, k + 1)
  }

  /** How the votes of a window decide a started agenda: not at all without a quorum, otherwise by the
      first choice over the threshold. */
  function Decide(d: Agenda, votes: seq<Vote>, version: nat, prev: StateTuple): StateTuple
    requires d.Ok() && d.mask != 0
  {
    if Uint32(CountWhere(d, votes, version, NonAbstain, |d.choices|)) < d.quorum then prev else
    match FirstOver(d, votes, version,
                    d.ActivationThreshold(Uint32(CountWhere(d, votes, version, Counted, |d.choices|))), 0)
    case None => prev
    case Some(k) =>
      StateTuple(if !d.choices[k].isAbstain && !d.choices[k].isNo then LockedIn else Failed, Uint32(k))
  }

  /** The tallies of some votes, each in 32 bits. */
  ghost predicate AreCounts(counts: seq<ConditionTally>, d: Agenda, votes: seq<Vote>, version: nat)
    requires d.mask != 0
  {
    && |counts| == |d.choices|
    && forall k :: 0 <= k < |counts| ==>
         counts[k] == ConditionTally(Uint32(CountFor(votes, version, d.mask, k)), d.choices[k].isAbstain,
                                     d.choices[k].isNo)
  }

  lemma Uint32Add(a: int, b: int)
    ensures Uint32(Uint32(a) + b) == Uint32(a + b)
  {}

  /** Add the tally of one more block. */
  method AddTally(d: Agenda, version: nat, c: seq<ConditionTally>, counts0: seq<ConditionTally>, totalVotes0: nat,
                  ghost done: seq<Vote>, ghost more: seq<Vote>)
    returns (counts: seq<ConditionTally>, totalVotes: nat)
    requires d.mask != 0 && IsTallyOf(c, d, more, version) && AreCounts(counts0, d, done, version)
    requires totalVotes0 == Uint32(CountWhere(d, done, version, Counted, |d.choices|))
    ensures AreCounts(counts, d, done + more, version)
    ensures totalVotes == Uint32(CountWhere(d, done + more, version, Counted, |d.choices|))
  {
    hide CountFor, Uint32;
    counts, totalVotes := counts0, totalVotes0;
    ghost var before := CountWhere(d, done, version, Counted, |d.choices|);
    for k := 0 to |c|
      invariant |counts| == |c|
      invariant forall j :: k <= j < |c| ==> counts[j] == counts0[j]
      invariant forall j :: 0 <= j < k ==>
        counts[j] == ConditionTally(Uint32(CountFor(done + more, version, d.mask, j)), d.choices[j].isAbstain,
                                    d.choices[j].isNo)
      invariant totalVotes == Uint32(before + CountWhere(d, more, version, Counted, k))
    {
      CountForAppend(done, more, version, d.mask, k);
      Uint32Add(CountFor(done, version, d.mask, k), c[k].count);
      counts := counts[k := ConditionTally(Uint32(counts[k].count + c[k].count), c[k].isAbstain, c[k].isNo)];
      if !c[k].isAbstain {
        Uint32Add(before + CountWhere(d, more, version, Counted, k), c[k].count);
        totalVotes := Uint32(totalVotes + c[k].count);
      }
    }
    CountWhereAppend(d, done, more, version, Counted, |d.choices|);
  }

  /** Walk back through the window and count all its votes. */
  method CountWindow(d: Agenda, prevNode: BlockNode, version: nat)
    returns (r: Result<(seq<ConditionTally>, nat), VoteError>)
    requires d.Ok() && d.interval <= prevNode.Height() + 1
    ensures d.mask == 0 ==> r == Err(InvalidMask)
    ensures d.mask != 0 ==> var votes := VotesIn(LastNodes(Some(prevNode), d.interval));
      r.Ok? && AreCounts(r.value.0, d, votes, version)
      && r.value.1 == Uint32(CountWhere(d, votes, version, Counted, |d.choices|))
  {
    hide CountFor, CountWhere, IsTallyOf, AreCounts;
    var counts, totalVotes := [], 0;
    ghost var done, all: seq<Vote> := [], VotesIn(LastNodes(Some(prevNode), d.interval));
    var countNode, i := Some(prevNode), 0;
    while i < d.interval
      invariant 0 <= i <= d.interval
      invariant d.mask == 0 ==> i == 0
      invariant i < d.interval ==> countNode.Some? && countNode.value.Height() + 1 >= d.interval - i
      invariant d.mask != 0 && i > 0 ==> AreCounts(counts, d, done, version)
      invariant d.mask != 0 && i > 0 ==> totalVotes == Uint32(CountWhere(d, done, version, Counted, |d.choices|))
      invariant i == 0 ==> done == [] && counts == [] && totalVotes == 0
      invariant done + VotesIn(LastNodes(countNode, d.interval - i)) == all
    {
      var c := Condition(d, countNode.value, version);
      if c.Err? {
        return Err(c.error);
      }
      if i == 0 {
        counts := EmptyCounts(d, version);
      }
      counts, totalVotes := AddTally(d, version, c.value, counts, totalVotes, done, countNode.value.votes);
      done := done + countNode.value.votes;
      countNode := countNode.value.parent;
      i := i + 1;
    }
    assert done == all;
    r := Ok((counts, totalVotes));
  }

  method EmptyCounts(d: Agenda, version: nat) returns (counts: seq<ConditionTally>)
    requires d.mask != 0
    ensures AreCounts(counts, d, [], version) && CountWhere(d, [], version, Counted, |d.choices|) == 0
  {
    counts := seq(|d.choices|,
                  i requires 0 <= i < |d.choices| => ConditionTally(0, d.choices[i].isAbstain, d.choices[i].isNo));
    NothingCounted(d, version, |d.choices|);
  }

  lemma {:induction false} NothingCounted(d: Agenda, version: nat, k: nat)
    requires d.mask != 0 && k <= |d.choices|
    ensures CountWhere(d, [], version, Counted, k) == 0
  {
    if k > 0 {
      NothingCounted(d, version, k - 1);
    }
  }

  /** Quorum and threshold over the counted votes. */
  method DecideByCounts(d: Agenda, counts: seq<ConditionTally>, totalVotes: nat, prev: StateTuple,
                        ghost votes: seq<Vote>, ghost version: nat)
    returns (next: StateTuple)
    requires d.Ok() && d.mask != 0 && AreCounts(counts, d, votes, version)
    requires totalVotes == Uint32(CountWhere(d, votes, version, Counted, |d.choices|))
    ensures next == Decide(d, votes, version, prev)
  {
    hide CountFor, Uint32;
    next := prev;
    var totalNonAbstainVotes := 0;
    NothingWhere(d, votes, version);
    for k := 0 to |counts|
      invariant totalNonAbstainVotes == Uint32(CountWhere(d, votes, version, NonAbstain, k))
    {
      if counts[k].isAbstain && !counts[k].isNo {
        continue;
      }
      Uint32Twice(CountWhere(d, votes, version, NonAbstain, k), CountFor(votes, version, d.mask, k));
      totalNonAbstainVotes := Uint32(totalNonAbstainVotes + counts[k].count);
    }
    if totalNonAbstainVotes < d.quorum {
      return;
    }
    var threshold := d.ActivationThreshold(totalVotes);
    for k := 0 to |counts|
      invariant next == prev
      invariant FirstOver(d, votes, version, threshold, 0) == FirstOver(d, votes, version, threshold, k)
    {
      var v := counts[k];
      if v.count < threshold {
        continue;
      }
      if !v.isAbstain && !v.isNo {
        next := StateTuple(LockedIn, Uint32(k));
      } else if !v.isAbstain && v.isNo {
        next := StateTuple(Failed, Uint32(k));
      } else if v.isAbstain && !v.isNo {
        continue;
      } else {
        next := StateTuple(Failed, Uint32(k));
      }
      return;
    }
  }

  lemma NothingWhere(d: Agenda, votes: seq<Vote>, version: nat)
    requires d.mask != 0
    ensures Uint32(CountWhere(d, votes, version, NonAbstain, 0)) == 0
  {}

  lemma Uint32Twice(a: int, b: int)
    ensures Uint32(Uint32(a) + Uint32(b)) == Uint32(a + b)
  {
    Uint32Add(a, b);
    Uint32Add(b, Uint32(a));
  }

  // The state of a window, without a cache.

  datatype Env = Env(p: Params, d: Agenda, version: nat)
  {
    predicate Ok() {
      p.Ok() && d.Ok() && d.stakeValidationHeight == p.stakeValidationHeight
    }
  }

  /** From defined, the voting on the agenda starts when the stake version and the block version that
      it needs are in force. */
  function FromDefined(e: Env, prev: StateTuple, n: BlockNode, stakeVersion: nat): StateTuple
    requires e.Ok()
  {
    if stakeVersion >= e.version && IsMajority(e.p, Int32(e.version), Some(n), e.p.blockRejectNumRequired)
       && PastMedianTime(n) >= e.d.beginTime
    then prev.(state := Started) else prev
  }

  /** The state after one more window, which ends with n, when the agenda's time has come.  Where two
      stake versions can be expected, either may decide. */
  ghost predicate IsTransition(e: Env, prev: StateTuple, n: BlockNode, r: Result<StateTuple, VoteError>)
    requires e.Ok()
  {
    match prev.state
    case Defined =>
      if n.Height() < e.d.stakeValidationHeight then r == Ok(prev)
      else if PastMedianTime(n) >= e.d.endTime then r == Ok(prev.(state := Failed))
      else exists v: nat :: IsStakeVersion(e.p, n, v) && r == Ok(FromDefined(e, prev, n, v))
    case Started =>
      if PastMedianTime(n) >= e.d.endTime then r == Ok(prev.(state := Failed))
      else if e.d.mask == 0 then r == Err(InvalidMask)
      else r == Ok(Decide(e.d, VotesIn(LastNodes(Some(n), e.d.interval)), e.version, prev))
    case LockedIn => r == Ok(prev.(state := Active))
    case Active => r == Ok(prev)
    case Failed => r == Ok(prev)
  }

  const DEFINED := StateTuple(Defined, INVALID_CHOICE)

  function Before(e: Env, n: BlockNode): Option<BlockNode> {
    n.AncestorAt(n.Height() - e.d.interval)
  }

  /** A state the uncached recursion gives for the window after the one that ends with `end`. */
  ghost predicate IsStateAfter(e: Env, end: Option<BlockNode>, r: Result<StateTuple, VoteError>)
    requires e.Ok()
    decreases if end.Some? then end.value.Height() + 1 else 0
  {
    if end.None? || PastMedianTime(end.value) < e.d.beginTime then r == Ok(DEFINED)
    else
      BeforeLower(e, end.value);
      exists b :: IsStateAfter(e, Before(e, end.value), b) && Continues(e, b, end.value, r)
  }

  /** An error stays, a state makes its transition. */
  ghost predicate Continues(e: Env, b: Result<StateTuple, VoteError>, n: BlockNode, r: Result<StateTuple, VoteError>)
    requires e.Ok()
  {
    if b.Err? then r == b else IsTransition(e, b.value, n, r)
  }

  lemma BeforeLower(e: Env, n: BlockNode)
    requires e.Ok()
    ensures Before(e, n).Some? ==>
      n.Height() >= e.d.interval && Before(e, n).value.Height() == n.Height() - e.d.interval
    ensures Before(e, n).Some? ==> n.Extends(Before(e, n).value)
    ensures Before(e, n).None? ==> n.Height() < e.d.interval
  {
    if n.Height() >= e.d.interval {
      AncestorHeight(n, n.Height() - e.d.interval);
    }
  }

  /** The end of the window before that of the block after a node; none before the first full window. */
  function TargetOf(e: Env, prevNode: Option<BlockNode>): Option<BlockNode>
    requires e.Ok()
  {
    if prevNode.None? || prevNode.value.Height() + 1 < e.d.stakeValidationHeight + e.d.interval then None
    else prevNode.value.AncestorAt(CalcWantHeight(e.d.stakeValidationHeight, e.d.interval, prevNode.value.Height() + 1))
  }

  /** A state for the block after a node. */
  ghost predicate IsNextState(e: Env, prevNode: Option<BlockNode>, r: Result<StateTuple, VoteError>)
    requires e.Ok()
  {
    IsStateAfter(e, TargetOf(e, prevNode), r)
  }

  /** A started window is never counted past genesis: the window before it exists. */
  lemma StartedIsHigh(e: Env, n: BlockNode, prev: StateTuple)
    requires e.Ok() && IsStateAfter(e, Before(e, n), Ok(prev)) && prev.state != Defined
    ensures n.Height() >= e.d.interval
  {
    BeforeLower(e, n);
  }

  // Where the stake version is determined there is one state.

  lemma TransitionUnique(e: Env, prev: StateTuple, n: BlockNode, a: Result<StateTuple, VoteError>,
                         b: Result<StateTuple, VoteError>)
    requires e.Ok() && Determined(e.p, n) && IsTransition(e, prev, n, a) && IsTransition(e, prev, n, b)
    ensures a == b
  {
    hide Determined, IsStakeVersion, FromDefined, PastMedianTime, Decide;
    forall v: nat, w: nat | IsStakeVersion(e.p, n, v) && IsStakeVersion(e.p, n, w) ensures v == w {
      StakeVersionUnique(e.p, n, v, w);
    }
  }

  /** Without ambiguous intervals the uncached recursion gives one state. */
  lemma {:induction false} StateUnique(e: Env, end: Option<BlockNode>, a: Result<StateTuple, VoteError>,
                                       b: Result<StateTuple, VoteError>)
    requires e.Ok() && (end.Some? ==> Determined(e.p, end.value)) && IsStateAfter(e, end, a) && IsStateAfter(e, end, b)
    ensures a == b
    decreases if end.Some? then end.value.Height() + 1 else 0
  {
    hide Determined, IsTransition, PastMedianTime, Before;
    if end.Some? && PastMedianTime(end.value) >= e.d.beginTime {
      var n := end.value;
      BeforeLower(e, n);
      if Before(e, n).Some? {
        DeterminedBelow(e.p, n, Before(e, n).value);
      }
      var x :| IsStateAfter(e, Before(e, n), x) && Continues(e, x, n, a);
      var y :| IsStateAfter(e, Before(e, n), y) && Continues(e, y, n, b);
      StateUnique(e, Before(e, n), x, y);
      if x.Ok? {
        TransitionUnique(e, x.value, n, a, b);
      }
    }
  }

  /** So then there is one state for the block after a node. */
  lemma NextStateUnique(e: Env, prevNode: Option<BlockNode>, a: Result<StateTuple, VoteError>,
                        b: Result<StateTuple, VoteError>)
    requires e.Ok() && (prevNode.Some? ==> Determined(e.p, prevNode.value))
    requires IsNextState(e, prevNode, a) && IsNextState(e, prevNode, b)
    ensures a == b
  {
    hide Determined, IsStateAfter, CalcWantHeight;
    var target := TargetOf(e, prevNode);
    if target.Some? {
      var n, want := prevNode.value,
        CalcWantHeight(e.d.stakeValidationHeight, e.d.interval, prevNode.value.Height() + 1);
      AncestorHeight(n, want);
      DeterminedBelow(e.p, n, target.value);
    }
    StateUnique(e, target, a, b);
  }

  class ThresholdStateCache {
    var dbUpdates: map<Hash, StateTuple>
    var entries: map<Hash, StateTuple>
    // What has been written to the database.
    ghost var stored: map<Hash, StateTuple>

    /** What is not in the database yet is among the updates to write. */
    ghost predicate Valid()
      reads this
    {
      entries == stored + dbUpdates
    }

    constructor ()
      ensures Valid() && entries == map[]
    {
      dbUpdates, entries, stored := map[], map[], map[];
    }

    function Lookup(hash: Hash): (r: Option<StateTuple>)
      reads this
      ensures r.Some? <==> hash in entries
      ensures r.Some? ==> r.value == entries[hash]
    {
      if hash in entries then Some(entries[hash]) else None
    }

    method Update(hash: Hash, state: StateTuple)
      requires Valid()
      modifies this`dbUpdates, this`entries
      ensures Valid() && entries == old(entries)[hash := state]
    {
      if hash in entries && entries[hash] == state {
        assert entries == entries[hash := state];
        return;
      }
      dbUpdates := dbUpdates[hash := state];
      entries := entries[hash := state];
    }

    /** The updates have been written. */
    method MarkFlushed()
      requires Valid()
      modifies this
      ensures Valid() && entries == old(entries) == stored && dbUpdates == map[]
    {
      stored := stored + dbUpdates;
      dbUpdates := map[];
    }
  }

  /** Whatever is cached is a state the uncached recursion gives. */
  ghost predicate CacheOk(e: Env, nodeOf: Hash -> BlockNode, entries: map<Hash, StateTuple>)
    requires e.Ok()
  {
    forall h :: h in entries ==> IsStateAfter(e, Some(nodeOf(h)), Ok(entries[h]))
  }

  /** One step of the state machine. */
  method Advance(e: Env, prev: StateTuple, n: BlockNode, versions: StakeVersionCaches)
    returns (r: Result<StateTuple, VoteError>)
    requires e.Ok() && versions.p == e.p && versions.Coherent() && Identified(versions.nodeOf, n)
    requires prev.state == Started ==> e.d.interval <= n.Height()
    modifies versions
    ensures versions.Coherent() && IsTransition(e, prev, n, r)
  {
    hide Identified, IsStakeVersion, PastMedianTime, Decide, IsMajority, AreCounts, CountWhere, CountFor;
    var state := prev;
    match prev.state {
      case Defined =>
        if n.Height() < e.d.stakeValidationHeight {
          return Ok(state);
        }
        var medianTime := CalcPastMedianTime(n);
        if medianTime >= e.d.endTime {
          return Ok(state.(state := Failed));
        }
        var stakeVersion := versions.CalcStakeVersion(n);
        if stakeVersion < e.version {
          return Ok(state);
        }
        var upgraded := versions.IsMajorityVersion(Int32(e.version), Some(n), e.p.blockRejectNumRequired);
        if !upgraded {
          return Ok(state);
        }
        if medianTime >= e.d.beginTime {
          state := state.(state := Started);
        }
      case Started =>
        var medianTime := CalcPastMedianTime(n);
        if medianTime >= e.d.endTime {
          return Ok(state.(state := Failed));
        }
        var counted := CountWindow(e.d, n, e.version);
        if counted.Err? {
          return Err(counted.error);
        }
        state := DecideByCounts(e.d, counted.value.0, counted.value.1, state, VotesIn(LastNodes(Some(n), e.d.interval)),
                                e.version);
      case LockedIn =>
        state := state.(state := Active);
      case Active =>
      case Failed =>
    }
    r := Ok(state);
  }

  lemma IdentifiedHash(nodeOf: Hash -> BlockNode, n: BlockNode)
    requires Identified(nodeOf, n)
    ensures nodeOf(n.hash) == n
  {}

  /** The j-th needed window end, counting from the newest, or what lies before all of them. */
  function RestOf(needed: seq<BlockNode>, rest: Option<BlockNode>, j: nat): Option<BlockNode> {
    if j < |needed| then Some(needed[j]) else rest
  }

  /** Window ends from `target` back to before `rest`, newest first, whose state must be worked out. */
  ghost predicate Needed(e: Env, nodeOf: Hash -> BlockNode, target: Option<BlockNode>, needed: seq<BlockNode>,
                         rest: Option<BlockNode>)
    requires e.Ok()
  {
    && target == (if needed == [] then rest else Some(needed[0]))
    && (rest.Some? ==> Identified(nodeOf, rest.value))
    && (forall j :: 0 <= j < |needed| ==> NeedsState(e, nodeOf, needed[j], RestOf(needed, rest, j + 1)))
  }

  ghost predicate NeedsState(e: Env, nodeOf: Hash -> BlockNode, n: BlockNode, before: Option<BlockNode>)
    requires e.Ok()
  {
    Identified(nodeOf, n) && PastMedianTime(n) >= e.d.beginTime && Before(e, n) == before
  }

  lemma NeededMore(e: Env, nodeOf: Hash -> BlockNode, target: Option<BlockNode>, needed: seq<BlockNode>, n: BlockNode)
    requires e.Ok() && Needed(e, nodeOf, target, needed, Some(n)) && PastMedianTime(n) >= e.d.beginTime
    ensures Needed(e, nodeOf, target, needed + [n], Before(e, n))
  {
    hide Identified, PastMedianTime;
    IdentifiedAt(nodeOf, n, n.Height() - e.d.interval);
    var more := needed + [n];
    forall j | 0 <= j < |more| ensures NeedsState(e, nodeOf, more[j], RestOf(more, Before(e, n), j + 1)) {
      if j < |needed| {
        assert NeedsState(e, nodeOf, needed[j], RestOf(needed, Some(n), j + 1));
      }
    }
  }

  lemma NeededAt(e: Env, nodeOf: Hash -> BlockNode, target: Option<BlockNode>, needed: seq<BlockNode>,
                 rest: Option<BlockNode>, j: nat)
    requires e.Ok() && Needed(e, nodeOf, target, needed, rest) && j < |needed|
    ensures Identified(nodeOf, needed[j]) && PastMedianTime(needed[j]) >= e.d.beginTime
    ensures Before(e, needed[j]) == RestOf(needed, rest, j + 1) && RestOf(needed, rest, j) == Some(needed[j])
  {}

  lemma NeededTarget(e: Env, nodeOf: Hash -> BlockNode, target: Option<BlockNode>, needed: seq<BlockNode>,
                     rest: Option<BlockNode>)
    requires e.Ok() && Needed(e, nodeOf, target, needed, rest)
    ensures RestOf(needed, rest, 0) == target && RestOf(needed, rest, |needed|) == rest
    ensures rest.Some? ==> Identified(nodeOf, rest.value)
  {}

  lemma StateStep(e: Env, n: BlockNode, prev: StateTuple, r: Result<StateTuple, VoteError>)
    requires e.Ok() && PastMedianTime(n) >= e.d.beginTime && IsStateAfter(e, Before(e, n), Ok(prev))
      && IsTransition(e, prev, n, r)
    ensures IsStateAfter(e, Some(n), r)
  {
    hide IsTransition, PastMedianTime;
    BeforeLower(e, n);
    assert Continues(e, Ok(prev), n, r);
  }

  lemma StateFails(e: Env, nodeOf: Hash -> BlockNode, target: Option<BlockNode>, needed: seq<BlockNode>,
                   rest: Option<BlockNode>,
                   j: nat, error: VoteError)
    requires e.Ok() && Needed(e, nodeOf, target, needed, rest) && j < |needed|
    requires IsStateAfter(e, Some(needed[j]), Err(error))
    ensures IsStateAfter(e, target, Err(error))
  {
    hide IsTransition, PastMedianTime, Identified, Needed;
    if j > 0 {
      NeededAt(e, nodeOf, target, needed, rest, j - 1);
      BeforeLower(e, needed[j - 1]);
      assert Continues(e, Err(error), needed[j - 1], Err(error));
      StateFails(e, nodeOf, target, needed, rest, j - 1, error);
    } else {
      NeededTarget(e, nodeOf, target, needed, rest);
    }
  }

  lemma CacheMore(e: Env, nodeOf: Hash -> BlockNode, entries: map<Hash, StateTuple>, n: BlockNode, state: StateTuple)
    requires e.Ok() && CacheOk(e, nodeOf, entries) && nodeOf(n.hash) == n && IsStateAfter(e, Some(n), Ok(state))
    ensures CacheOk(e, nodeOf, entries[n.hash := state])
  {
    hide IsStateAfter;
  }

  lemma CacheAt(e: Env, nodeOf: Hash -> BlockNode, entries: map<Hash, StateTuple>, n: BlockNode)
    requires e.Ok() && CacheOk(e, nodeOf, entries) && nodeOf(n.hash) == n && n.hash in entries
    ensures IsStateAfter(e, Some(n), Ok(entries[n.hash]))
  {
    hide IsStateAfter;
  }

  /** What the cache remembers of a window. */
  predicate Remembers(entries: map<Hash, StateTuple>, end: Option<BlockNode>, state: StateTuple) {
    if end.None? then state == DEFINED else end.value.hash in entries && entries[end.value.hash] == state
  }

  lemma NotBegun(e: Env, n: BlockNode)
    requires e.Ok() && PastMedianTime(n) < e.d.beginTime
    ensures IsStateAfter(e, Some(n), Ok(DEFINED))
    ensures forall r :: IsStateAfter(e, Some(n), r) ==> r == Ok(DEFINED)
  {
    hide PastMedianTime;
  }

  lemma NoWindow(e: Env)
    requires e.Ok()
    ensures forall r :: IsStateAfter(e, None, r) <==> r == Ok(DEFINED)
  {}

  /** Go back window by window to the latest one whose state is known. */
  method FindKnownState(e: Env, target: Option<BlockNode>, cache: ThresholdStateCache, ghost nodeOf: Hash -> BlockNode)
    returns (neededStates: seq<BlockNode>, known: Option<BlockNode>)
    requires e.Ok() && cache.Valid() && CacheOk(e, nodeOf, cache.entries)
    requires target.Some? ==> Identified(nodeOf, target.value)
    modifies cache`dbUpdates, cache`entries
    ensures cache.Valid() && CacheOk(e, nodeOf, cache.entries)
    ensures Needed(e, nodeOf, target, neededStates, known)
    ensures known.Some? ==> known.value.hash in cache.entries
    ensures target.Some? && target.value.hash in old(cache.entries) ==>
      neededStates == [] && known == target && cache.entries == old(cache.entries)
  {
    hide Identified, PastMedianTime, IsStateAfter, CacheOk, Needed, Before;
    neededStates, known := [], target;
    NeededNothing(e, nodeOf, target);
    while known.Some?
      invariant cache.Valid() && CacheOk(e, nodeOf, cache.entries)
      invariant Needed(e, nodeOf, target, neededStates, known)
      invariant target.Some? && target.value.hash in old(cache.entries) ==>
        neededStates == [] && known == target && cache.entries == old(cache.entries)
      decreases if known.Some? then known.value.Height() + 1 else 0
    {
      var prevNode := known.value;
      NeededTarget(e, nodeOf, target, neededStates, known);
      IdentifiedHash(nodeOf, prevNode);
      if cache.Lookup(prevNode.hash).Some? {
        break;
      }
      var medianTime := CalcPastMedianTime(prevNode);
      if medianTime < e.d.beginTime {
        NotBegun(e, prevNode);
        CacheMore(e, nodeOf, cache.entries, prevNode, DEFINED);
        cache.Update(prevNode.hash, DEFINED);
        break;
      }
      NeededMore(e, nodeOf, target, neededStates, prevNode);
      BeforeLower(e, prevNode);
      BeforeIs(e, prevNode);
      neededStates := neededStates + [prevNode];
      known := RelativeAncestor(prevNode, e.d.interval);
    }
  }

  lemma BeforeIs(e: Env, n: BlockNode)
    ensures Before(e, n) == n.AncestorAt(n.Height() - e.d.interval)
  {}

  lemma NeededNothing(e: Env, nodeOf: Hash -> BlockNode, target: Option<BlockNode>)
    requires e.Ok() && (target.Some? ==> Identified(nodeOf, target.value))
    ensures Needed(e, nodeOf, target, [], target)
  {
    hide Identified;
  }

  /** The state for the block after a node, with a cache: whatever coherent cache it starts from, it
      gives an answer of the uncached recursion and leaves a coherent cache. */
  method NextThresholdState(e: Env, prevNode: Option<BlockNode>, cache: ThresholdStateCache,
                            versions: StakeVersionCaches)
    returns (r: Result<StateTuple, VoteError>)
    requires e.Ok() && versions.p == e.p && versions.Coherent()
    requires cache.Valid() && CacheOk(e, versions.nodeOf, cache.entries)
    requires prevNode.Some? ==> Identified(versions.nodeOf, prevNode.value)
    modifies cache`dbUpdates, cache`entries, versions
    ensures cache.Valid() && CacheOk(e, versions.nodeOf, cache.entries) && versions.Coherent()
    ensures IsNextState(e, prevNode, r)
    ensures r.Ok? ==> Remembers(cache.entries, TargetOf(e, prevNode), r.value)
    ensures forall s :: Remembers(old(cache.entries), TargetOf(e, prevNode), s) ==> r == Ok(s)
    ensures (prevNode.Some? ==> Determined(e.p, prevNode.value)) ==> forall s :: IsNextState(e, prevNode, s) <==> s == r
  {
    hide PastMedianTime, IsStateAfter, CacheOk, Needed, Before, IsTransition, CalcWantHeight, Identified, Determined,
         IsNextState, Remembers, BlockNode.Height, BlockNode.AncestorAt;
    Undisputed(e, prevNode);
    AnswerAfter(e, prevNode);
    RemembersOne(old(cache.entries), TargetOf(e, prevNode));
    NoWindow(e);
    if prevNode.None? || prevNode.value.Height() + 1 < e.d.stakeValidationHeight + e.d.interval {
      NothingToRemember(cache.entries);
      return Ok(DEFINED);
    }
    var wantHeight := CalcWantHeight(e.d.stakeValidationHeight, e.d.interval, prevNode.value.Height() + 1);
    var target := Ancestor(prevNode.value, wantHeight);
    IdentifiedAt(versions.nodeOf, prevNode.value, wantHeight);
    var neededStates, known := FindKnownState(e, target, cache, versions.nodeOf);
    r := WorkOutStates(e, target, neededStates, known, cache, versions);
  }

  /** From the known state on, work out the states of the windows after it and cache them. */
  method WorkOutStates(e: Env, ghost target: Option<BlockNode>, neededStates: seq<BlockNode>, known: Option<BlockNode>,
                       cache: ThresholdStateCache, versions: StakeVersionCaches)
    returns (r: Result<StateTuple, VoteError>)
    requires e.Ok() && versions.p == e.p && versions.Coherent()
    requires cache.Valid() && CacheOk(e, versions.nodeOf, cache.entries)
    requires Needed(e, versions.nodeOf, target, neededStates, known)
    requires known.Some? ==> known.value.hash in cache.entries
    modifies cache`dbUpdates, cache`entries, versions
    ensures cache.Valid() && CacheOk(e, versions.nodeOf, cache.entries) && versions.Coherent()
    ensures IsStateAfter(e, target, r)
    ensures r.Ok? ==> Remembers(cache.entries, target, r.value)
    ensures neededStates == [] && target.Some? ==> r == Ok(old(cache.entries)[target.value.hash])
  {
    hide PastMedianTime, IsStateAfter, CacheOk, Needed, Before, IsTransition, Identified, Remembers;
    NoWindow(e);
    NothingToRemember(cache.entries);
    NeededTarget(e, versions.nodeOf, target, neededStates, known);
    var stateTuple := DEFINED;
    if known.Some? {
      var cached := cache.Lookup(known.value.hash);
      if cached.None? {
        assert false;
      }
      IdentifiedHash(versions.nodeOf, known.value);
      CacheAt(e, versions.nodeOf, cache.entries, known.value);
      stateTuple := cached.value;
      RemembersThis(cache.entries, known.value);
    }
    var neededNum := |neededStates|;
    while neededNum > 0
      invariant 0 <= neededNum <= |neededStates|
      invariant cache.Valid() && CacheOk(e, versions.nodeOf, cache.entries) && versions.Coherent()
      invariant IsStateAfter(e, RestOf(neededStates, known, neededNum), Ok(stateTuple))
      invariant Remembers(cache.entries, RestOf(neededStates, known, neededNum), stateTuple)
      invariant neededNum == |neededStates| && known.Some? ==> stateTuple == old(cache.entries)[known.value.hash]
    {
      neededNum := neededNum - 1;
      var n := neededStates[neededNum];
      NeededAt(e, versions.nodeOf, target, neededStates, known, neededNum);
      IdentifiedHash(versions.nodeOf, n);
      var next := AdvanceOk(e, stateTuple, n, versions);
      if next.Err? {
        StateFails(e, versions.nodeOf, target, neededStates, known, neededNum, next.error);
        return next;
      }
      stateTuple := next.value;
      CacheMore(e, versions.nodeOf, cache.entries, n, stateTuple);
      cache.Update(n.hash, stateTuple);
      RemembersThis(cache.entries, n);
    }
    r := Ok(stateTuple);
  }

  lemma NothingToRemember(entries: map<Hash, StateTuple>)
    ensures Remembers(entries, None, DEFINED)
  {}

  lemma RemembersThis(entries: map<Hash, StateTuple>, n: BlockNode)
    requires n.hash in entries
    ensures Remembers(entries, Some(n), entries[n.hash])
  {}

  lemma RemembersOne(entries: map<Hash, StateTuple>, end: Option<BlockNode>)
    ensures forall s :: Remembers(entries, end, s) ==>
      if end.None? then s == DEFINED else end.value.hash in entries && s == entries[end.value.hash]
  {}

  lemma AnswerAfter(e: Env, prevNode: Option<BlockNode>)
    requires e.Ok()
    ensures forall r :: IsNextState(e, prevNode, r) <==> IsStateAfter(e, TargetOf(e, prevNode), r)
  {
    hide IsStateAfter, TargetOf;
  }

  lemma Undisputed(e: Env, prevNode: Option<BlockNode>)
    requires e.Ok()
    ensures (prevNode.Some? ==> Determined(e.p, prevNode.value)) ==>
      forall r, s :: IsNextState(e, prevNode, r) && IsNextState(e, prevNode, s) ==> r == s
  {
    hide Determined, IsNextState;
    if prevNode.Some? ==> Determined(e.p, prevNode.value) {
      forall r, s | IsNextState(e, prevNode, r) && IsNextState(e, prevNode, s) ensures r == s {
        NextStateUnique(e, prevNode, r, s);
      }
    }
  }

  /** One step, from the state of the window before. */
  method AdvanceOk(e: Env, prev: StateTuple, n: BlockNode, versions: StakeVersionCaches)
    returns (r: Result<StateTuple, VoteError>)
    requires e.Ok() && versions.p == e.p && versions.Coherent() && Identified(versions.nodeOf, n)
    requires PastMedianTime(n) >= e.d.beginTime && IsStateAfter(e, Before(e, n), Ok(prev))
    modifies versions
    ensures versions.Coherent() && IsStateAfter(e, Some(n), r)
  {
    hide PastMedianTime, IsStateAfter, Before, IsTransition, Identified;
    if prev.state == Started {
      StartedIsHigh(e, n, prev);
    }
    r := Advance(e, prev, n, versions);
    StateStep(e, n, prev, r);
  }

  // What the states do over time.

  /** The answer is the same for every block of a window. */
  lemma SameWindow(e: Env, a: BlockNode, b: BlockNode)
    requires e.Ok() && b.Extends(a)
    requires CalcWantHeight(e.d.stakeValidationHeight, e.d.interval, a.Height() + 1)
          == CalcWantHeight(e.d.stakeValidationHeight, e.d.interval, b.Height() + 1)
    ensures TargetOf(e, Some(a)) == TargetOf(e, Some(b))
    ensures forall r :: IsNextState(e, Some(a), r) <==> IsNextState(e, Some(b), r)
  {
    hide IsStateAfter, CalcWantHeight, BlockNode.Height, BlockNode.AncestorAt, BlockNode.Extends;
    ExtendsIffAncestorAt(b, a);
    WindowHeights(e.d.stakeValidationHeight, e.d.interval, a.Height(), b.Height());
    if b.Height() + 1 >= e.d.stakeValidationHeight + e.d.interval {
      AncestorCompose(b, a.Height(), CalcWantHeight(e.d.stakeValidationHeight, e.d.interval, a.Height() + 1));
    }
  }

  /** Two heights of one window are both before or both behind the first full window. */
  lemma WindowHeights(svh: nat, interval: nat, a: nat, b: nat)
    requires interval > 0 && a <= b && CalcWantHeight(svh, interval, a + 1) == CalcWantHeight(svh, interval, b + 1)
    ensures a + 1 < svh + interval <==> b + 1 < svh + interval
    ensures b + 1 >= svh + interval ==> 0 <= CalcWantHeight(svh, interval, a + 1) <= a
  {
    hide CalcWantHeight, IsIntervalEnd;
    ModAtMost(svh, interval);
    RemainderBelow(svh, interval);
    WantHeightIsIntervalEnd(svh, interval, a + 1);
    WantHeightIsIntervalEnd(svh, interval, b + 1);
    if b + 1 >= svh + interval {
      AtLeastOneInterval(svh, interval, CalcWantHeight(svh, interval, a + 1));
    }
  }

  lemma RemainderBelow(a: nat, m: int)
    requires m > 0
    ensures a % m < m
  {}

  /** A block of the branch that ends a full window, the first of which starts at the stake validation
      height. */
  predicate EndsWindow(e: Env, n: BlockNode, m: BlockNode)
    requires e.Ok()
  {
    && n.Extends(m) && m.Height() + 1 >= e.d.stakeValidationHeight + e.d.interval
    && IsIntervalEnd(e.d.stakeValidationHeight, e.d.interval, m.Height())
  }

  /** The state of a block is that after the last full window its branch has completed. */
  lemma TargetIs(e: Env, n: BlockNode)
    requires e.Ok()
    ensures TargetOf(e, Some(n)).None? ==> forall m :: !EndsWindow(e, n, m)
    ensures TargetOf(e, Some(n)).Some? ==>
      && EndsWindow(e, n, TargetOf(e, Some(n)).value)
      && forall m :: EndsWindow(e, n, m) ==> m.Height() <= TargetOf(e, Some(n)).value.Height()
  {
    hide CalcWantHeight, IsIntervalEnd, BlockNode.AncestorAt, BlockNode.Height, BlockNode.Extends;
    var svh, interval, h: int := e.d.stakeValidationHeight, e.d.interval, n.Height() + 1;
    forall m | n.Extends(m) ensures m.Height() <= n.Height() {
      ExtendsIffAncestorAt(n, m);
    }
    if h >= svh + interval {
      var w := CalcWantHeight(svh, interval, h);
      ModAtMost(svh, interval);
      WantHeightIsIntervalEnd(svh, interval, h);
      AtLeastOneInterval(svh, interval, w);
      AncestorHeight(n, w);
      forall m | EndsWindow(e, n, m) ensures m.Height() <= w {
        if m.Height() > w {
          NoEndBetween(svh, interval, m.Height(), w);
        }
      }
    }
  }

  /** What may follow a state: defined and started may last or fail, started may lock in a choice,
      locked in becomes active with its choice, active and failed are final. */
  predicate Follows(a: StateTuple, b: StateTuple) {
    match a.state
    case Defined => b.choice == a.choice && b.state in {Defined, Started, Failed}
    case Started => b == a || b.state in {LockedIn, Failed}
    case LockedIn => b == a.(state := Active)
    case Active => b == a
    case Failed => b == a
  }

  lemma TransitionFollows(e: Env, prev: StateTuple, n: BlockNode, next: StateTuple)
    requires e.Ok() && IsTransition(e, prev, n, Ok(next))
    ensures Follows(prev, next)
  {
    hide PastMedianTime, IsStakeVersion, IsMajority, CountWhere, FirstOver;
  }

  /** When block timestamps obey the rule of the past median, the state of a window follows that of the
      window before: the shortcut for windows before the start time loses nothing. */
  lemma WindowFollows(e: Env, n: BlockNode, next: StateTuple) returns (prev: StateTuple)
    requires e.Ok() && TimestampRule(n) && IsStateAfter(e, Some(n), Ok(next))
    ensures IsStateAfter(e, Before(e, n), Ok(prev)) && Follows(prev, next)
  {
    hide PastMedianTime, IsTransition, TimestampRule;
    BeforeLower(e, n);
    prev := DEFINED;
    if PastMedianTime(n) < e.d.beginTime {
      NotBegun(e, n);
      if Before(e, n).Some? {
        MedianMonotone(n, Before(e, n).value);
        NotBegun(e, Before(e, n).value);
      }
    } else {
      var b :| IsStateAfter(e, Before(e, n), b) && Continues(e, b, n, Ok(next));
      prev := b.value;
      TransitionFollows(e, prev, n, next);
    }
  }

  // What the votes of a window decide, by counting votes.

  lemma {:induction false} VotesInSnoc(w: seq<BlockNode>, b: BlockNode)
    ensures VotesIn(w + [b]) == VotesIn(w) + b.votes
  {
    if w == [] {
      assert [] + [b] == [b] && [b][1..] == [];
      assert VotesIn([b]) == b.votes + [];
    } else {
      VotesInSnoc(w[1..], b);
      assert (w + [b])[1..] == w[1..] + [b];
    }
  }

  lemma NoVotesIn()
    ensures VotesIn([]) == []
  {}

  lemma {:induction false} FlatCount(w: seq<BlockNode>, kind: Vote -> bool)
    ensures CountVotes(w, kind) == CountIf(VotesIn(w), kind)
  {
    hide CountVotes, CountIf, VotesIn;
    if w == [] {
      NoPlaces(kind);
      NoVotesIn();
      CountNone(kind);
    } else {
      var init, last := w[..|w| - 1], w[|w| - 1];
      FlatCount(init, kind);
      CountVotesSnoc(init, last, kind);
      VotesInSnoc(init, last);
      CountIfAppend(VotesIn(init), last.votes, kind);
      assert init + [last] == w;
    }
  }

  /** Votes for one of the first K choices that `which` picks. */
  ghost predicate IsForSome(v: Vote, d: Agenda, version: nat, which: Choice -> bool, K: nat) {
    exists k :: 0 <= k < K <= |d.choices| && which(d.choices[k]) && IsVoteFor(v, version, d.mask, k)
  }

  lemma OneMoreChoice(v: Vote, d: Agenda, version: nat, which: Choice -> bool, K: nat)
    requires d.mask != 0 && 0 < K <= |d.choices|
    ensures IsForSome(v, d, version, which, K) <==>
      IsForSome(v, d, version, which, K - 1) || (which(d.choices[K - 1]) && IsVoteFor(v, version, d.mask, K - 1))
    ensures !(IsForSome(v, d, version, which, K - 1) && IsVoteFor(v, version, d.mask, K - 1))
  {
    hide IsVoteFor, Selected;
    forall k: nat
      ensures IsVoteFor(v, version, d.mask, k) <==> v.version == version && Selected(d.mask, v.bits) as nat == k
    {
      VoteForIs(v, version, d.mask, k);
    }
  }

  lemma {:induction false} CountWhereIs(d: Agenda, votes: seq<Vote>, version: nat, which: Choice -> bool, K: nat)
    requires d.mask != 0 && K <= |d.choices|
    ensures CountWhere(d, votes, version, which, K) == CountIf(votes, (v: Vote) => IsForSome(v, d, version, which, K))
  {
    hide CountFor, CountIf, IsVoteFor, IsForSome;
    var all := (v: Vote) => IsForSome(v, d, version, which, K);
    if K == 0 {
      NoChoice(d, votes, version, which);
    } else {
      var before := (v: Vote) => IsForSome(v, d, version, which, K - 1);
      var last := (v: Vote) => which(d.choices[K - 1]) && IsVoteFor(v, version, d.mask, K - 1);
      forall v ensures !(before(v) && last(v)) && (all(v) <==> before(v) || last(v)) {
        OneMoreChoice(v, d, version, which, K);
      }
      CountWhereIs(d, votes, version, which, K - 1);
      CountEither(votes, before, last, all);
      LastChoice(d, votes, version, which, K - 1);
    }
  }

  lemma NoChoice(d: Agenda, votes: seq<Vote>, version: nat, which: Choice -> bool)
    ensures CountIf(votes, (v: Vote) => IsForSome(v, d, version, which, 0)) == 0
  {
    assert (set i | 0 <= i < |votes| && IsForSome(votes[i], d, version, which, 0)) == {};
  }

  lemma LastChoice(d: Agenda, votes: seq<Vote>, version: nat, which: Choice -> bool, k: nat)
    requires d.mask != 0 && k < |d.choices|
    ensures CountIf(votes, (v: Vote) => which(d.choices[k]) && IsVoteFor(v, version, d.mask, k))
         == if which(d.choices[k]) then CountFor(votes, version, d.mask, k) else 0
  {
    hide IsVoteFor, CountFor;
    CountForIs(votes, version, d.mask, k);
    var kind := (v: Vote) => which(d.choices[k]) && IsVoteFor(v, version, d.mask, k);
    var own := (v: Vote) => IsVoteFor(v, version, d.mask, k);
    if which(d.choices[k]) {
      CountSame(votes, kind, own);
    } else {
      assert (set i | 0 <= i < |votes| && kind(votes[i])) == {};
    }
  }

  /** How many votes of the window are for choice k, in 32 bits. */
  ghost function VotesFor(d: Agenda, version: nat, w: seq<BlockNode>, k: nat): nat {
    Uint32(CountVotes(w, (v: Vote) => IsVoteFor(v, version, d.mask, k)))
  }

  /** Abstaining and nothing else. */
  predicate Abstains(c: Choice) {
    c.isAbstain && !c.isNo
  }

  /** Enough votes of the window are for choices other than abstaining. */
  ghost predicate HasQuorum(d: Agenda, version: nat, w: seq<BlockNode>) {
    Uint32(CountVotes(w, (v: Vote) => exists k ::
      0 <= k < |d.choices| && !Abstains(d.choices[k]) && IsVoteFor(v, version, d.mask, k))) >= d.quorum
  }

  /** The share of the votes for choices that are not marked as abstaining that a choice must reach. */
  ghost function Needs(d: Agenda, version: nat, w: seq<BlockNode>): nat
    requires d.Ok()
  {
    var counted := Uint32(CountVotes(w, (v: Vote) => exists k ::
      0 <= k < |d.choices| && !d.choices[k].isAbstain && IsVoteFor(v, version, d.mask, k)));
    Uint32(counted * d.multiplier) / d.divisor
  }

  /** Choice k is the first other than abstaining that reaches its share. */
  ghost predicate IsFirst(d: Agenda, version: nat, w: seq<BlockNode>, k: nat)
    requires d.Ok()
  {
    && k < |d.choices| && !Abstains(d.choices[k]) && VotesFor(d, version, w, k) >= Needs(d, version, w)
    && forall j :: 0 <= j < k && !Abstains(d.choices[j]) ==> VotesFor(d, version, w, j) < Needs(d, version, w)
  }

  lemma WindowCounts(d: Agenda, version: nat, w: seq<BlockNode>)
    requires d.Ok() && d.mask != 0
    ensures forall k :: 0 <= k < |d.choices| ==>
      VotesFor(d, version, w, k) == Uint32(CountFor(VotesIn(w), version, d.mask, k))
    ensures HasQuorum(d, version, w) <==>
      Uint32(CountWhere(d, VotesIn(w), version, NonAbstain, |d.choices|)) >= d.quorum
    ensures Needs(d, version, w) ==
      d.ActivationThreshold(Uint32(CountWhere(d, VotesIn(w), version, Counted, |d.choices|)))
  {
    hide IsVoteFor, CountFor, CountVotes, CountIf, CountWhere, Uint32, VotesIn;
    var votes := VotesIn(w);
    forall k | 0 <= k < |d.choices| ensures VotesFor(d, version, w, k) == Uint32(CountFor(votes, version, d.mask, k)) {
      FlatCount(w, (v: Vote) => IsVoteFor(v, version, d.mask, k));
      CountForIs(votes, version, d.mask, k);
    }
    SomeCount(d, version, w, NonAbstain, (v: Vote) => exists k ::
      0 <= k < |d.choices| && !Abstains(d.choices[k]) && IsVoteFor(v, version, d.mask, k));
    SomeCount(d, version, w, Counted, (v: Vote) => exists k ::
      0 <= k < |d.choices| && !d.choices[k].isAbstain && IsVoteFor(v, version, d.mask, k));
  }

  lemma SomeCount(d: Agenda, version: nat, w: seq<BlockNode>, which: Choice -> bool, kind: Vote -> bool)
    requires d.mask != 0
    requires forall v :: kind(v) <==>
      exists k :: 0 <= k < |d.choices| && which(d.choices[k]) && IsVoteFor(v, version, d.mask, k)
    ensures CountVotes(w, kind) == CountWhere(d, VotesIn(w), version, which, |d.choices|)
  {
    hide IsVoteFor, CountVotes, CountIf, CountWhere, VotesIn;
    FlatCount(w, kind);
    CountWhereIs(d, VotesIn(w), version, which, |d.choices|);
    CountSame(VotesIn(w), kind, (v: Vote) => IsForSome(v, d, version, which, |d.choices|));
  }

  lemma {:induction false} FirstOverIs(d: Agenda, votes: seq<Vote>, version: nat, threshold: nat, k: nat)
    requires d.mask != 0 && k <= |d.choices|
    ensures var r := FirstOver(d, votes, version, threshold, k);
            && (r.Some? ==>
               Uint32(CountFor(votes, version, d.mask, r.value)) >= threshold && !Abstains(d.choices[r.value]))
            && forall j :: k <= j < (if r.Some? then r.value else |d.choices|) && !Abstains(d.choices[j]) ==>
                 Uint32(CountFor(votes, version, d.mask, j)) < threshold
    decreases |d.choices| - k
  {
    hide CountFor, Uint32;
    if k < |d.choices| {
      FirstOverIs(d, votes, version, threshold, k + 1);
    }
  }

  lemma FirstIs(d: Agenda, version: nat, w: seq<BlockNode>)
    requires d.Ok() && d.mask != 0
    ensures var r := FirstOver(d, VotesIn(w), version, Needs(d, version, w), 0);
            forall k: nat :: IsFirst(d, version, w, k) <==> r == Some(k)
  {
    hide CountFor, VotesFor, Needs, FirstOver, Uint32, VotesIn;
    WindowCounts(d, version, w);
    FirstOverIs(d, VotesIn(w), version, Needs(d, version, w), 0);
  }

  /** A started agenda before its end time is decided by the votes of its window: without a quorum, or
      when no choice reaches its share, it stays as it is; otherwise the first choice that does, abstaining
      aside, locks it in when it is a choice for the change and fails it when it is not. */
  lemma DecidedByVotes(e: Env, prev: StateTuple, n: BlockNode, next: StateTuple) returns (w: seq<BlockNode>)
    requires e.Ok() && prev.state == Started && e.d.interval <= n.Height() + 1
    requires IsTransition(e, prev, n, Ok(next)) && PastMedianTime(n) < e.d.endTime
    ensures IsWindow(w, n, e.d.interval)
    ensures !HasQuorum(e.d, e.version, w) ==> next == prev
    ensures HasQuorum(e.d, e.version, w) && (forall k: nat :: !IsFirst(e.d, e.version, w, k)) ==> next == prev
    ensures forall k: nat :: HasQuorum(e.d, e.version, w) && IsFirst(e.d, e.version, w, k) ==>
      next.choice == Uint32(k)
      && next.state == if !e.d.choices[k].isAbstain && !e.d.choices[k].isNo then LockedIn else Failed
  {
    hide PastMedianTime, CountFor, CountWhere, HasQuorum, Needs, FirstOver, Uint32, LastNodes, VotesIn, IsFirst,
         IsWindow;
    w := LastNodes(Some(n), e.d.interval);
    LastNodesAre(n, e.d.interval);
    WindowCounts(e.d, e.version, w);
    FirstIs(e.d, e.version, w);
    FirstInRange(e.d, e.version, w);
  }

  lemma FirstInRange(d: Agenda, version: nat, w: seq<BlockNode>)
    requires d.Ok()
    ensures forall k: nat :: IsFirst(d, version, w, k) ==> k < |d.choices|
  {}

  /** The first choice other than abstaining to reach its share in the window is against the change. */
  ghost predicate WasVotedDown(e: Env, n: BlockNode)
    requires e.Ok()
  {
    exists w, k: nat :: IsVotedDown(e, n, w, k)
  }

  ghost predicate IsVotedDown(e: Env, n: BlockNode, w: seq<BlockNode>, k: nat)
    requires e.Ok()
  {
    && IsWindow(w, n, e.d.interval) && HasQuorum(e.d, e.version, w) && IsFirst(e.d, e.version, w, k)
    && (e.d.choices[k].isAbstain || e.d.choices[k].isNo)
  }

  /** A started agenda fails exactly when its end time has come or its window votes it down. */
  lemma FailsWhen(e: Env, prev: StateTuple, n: BlockNode, next: StateTuple)
    requires e.Ok() && prev.state == Started && e.d.interval <= n.Height() + 1 && IsTransition(e, prev, n, Ok(next))
    ensures next.state == Failed <==> PastMedianTime(n) >= e.d.endTime || WasVotedDown(e, n)
  {
    hide PastMedianTime, HasQuorum, IsFirst, IsWindow, Decide, IsStakeVersion;
    if PastMedianTime(n) < e.d.endTime {
      var w := DecidedByVotes(e, prev, n, next);
      FirstInRange(e.d, e.version, w);
      if u, k: nat :| IsVotedDown(e, n, u, k) {
        OneWindow(u, w, n, e.d.interval);
      }
      if next.state == Failed {
        var k: nat :| IsFirst(e.d, e.version, w, k);
        assert IsVotedDown(e, n, w, k);
      }
    }
  }

  /** A defined agenda fails when its end time has come, from the height on at which votes count; it starts
      when its time has come, the stake version it needs is expected and enough blocks have the version;
      otherwise it stays defined. */
  lemma StartsWhen(e: Env, prev: StateTuple, n: BlockNode, next: StateTuple)
    requires e.Ok() && prev.state == Defined && IsTransition(e, prev, n, Ok(next))
    ensures next.choice == prev.choice && next.state in {Defined, Started, Failed}
    ensures next.state == Failed <==> n.Height() >= e.d.stakeValidationHeight && PastMedianTime(n) >= e.d.endTime
    ensures next.state == Started ==>
      && n.Height() >= e.d.stakeValidationHeight && e.d.beginTime <= PastMedianTime(n) < e.d.endTime
      && HaveUpgraded(e.p, Int32(e.version), n, e.p.blockRejectNumRequired)
      && exists v: nat :: IsStakeVersion(e.p, n, v) && v >= e.version
    ensures next.state == Defined && n.Height() >= e.d.stakeValidationHeight && PastMedianTime(n) >= e.d.beginTime ==>
      !HaveUpgraded(e.p, Int32(e.version), n, e.p.blockRejectNumRequired)
      || exists v: nat :: IsStakeVersion(e.p, n, v) && v < e.version
  {
    hide PastMedianTime, IsStakeVersion, IsMajority, HaveUpgraded;
    HaveUpgradedIs(e.p, Int32(e.version), n, e.p.blockRejectNumRequired);
  }

  /** The votes of the window that ends with the block locked the choice in. */
  ghost predicate WasVotedIn(e: Env, n: BlockNode, choice: nat)
    requires e.Ok()
  {
    exists w, k: nat :: IsWindow(w, n, e.d.interval) && HasQuorum(e.d, e.version, w) && IsFirst(e.d, e.version, w, k)
      && !e.d.choices[k].isAbstain && !e.d.choices[k].isNo && choice == Uint32(k)
  }

  /** Only the votes of the window lock an agenda in. */
  lemma LockedInByVotes(e: Env, n: BlockNode, t: StateTuple)
    requires e.Ok() && IsStateAfter(e, Some(n), Ok(t)) && t.state == LockedIn
    ensures WasVotedIn(e, n, t.choice)
  {
    hide PastMedianTime, HasQuorum, IsFirst, IsWindow, Decide, IsMajority, IsStakeVersion;
    BeforeLower(e, n);
    var b :| IsStateAfter(e, Before(e, n), b) && Continues(e, b, n, Ok(t));
    var prev := b.value;
    FromStarted(e, prev, n, t);
    StartedIsHigh(e, n, prev);
    var w := DecidedByVotes(e, prev, n, t);
    assert exists k: nat :: IsFirst(e.d, e.version, w, k);
  }

  lemma FromStarted(e: Env, prev: StateTuple, n: BlockNode, t: StateTuple)
    requires e.Ok() && IsTransition(e, prev, n, Ok(t)) && t.state == LockedIn
    ensures prev.state == Started && PastMedianTime(n) < e.d.endTime
  {
    hide PastMedianTime, Decide, IsMajority, IsStakeVersion;
  }

  /** The end of the window k windows earlier. */
  function WindowsBack(e: Env, n: BlockNode, k: nat): Option<BlockNode>
    decreases k
  {
    if k == 0 then Some(n)
    else if Before(e, n).None? then None
    else WindowsBack(e, Before(e, n).value, k - 1)
  }

  function Rank(state: ThresholdState): nat {
    match state
    case Defined => 0
    case Started => 1
    case LockedIn => 2
    case Active => 3
    case Failed => 3
  }

  /** The states k windows apart. */
  predicate Later(x: StateTuple, y: StateTuple, k: nat) {
    && Rank(x.state) <= Rank(y.state)
    && (x.state == Active || x.state == Failed ==> y == x)
    && (x.state == LockedIn ==> y == if k == 0 then x else x.(state := Active))
    && (k > 0 && y.state == LockedIn ==> x.state in {Defined, Started})
  }

  /** Defined, then started, then either locked in for exactly one window and active forever with the
      choice kept, or failed forever. */
  lemma {:induction false} History(e: Env, n: BlockNode, k: nat, last: StateTuple) returns (first: StateTuple)
    requires e.Ok() && TimestampRule(n) && IsStateAfter(e, Some(n), Ok(last)) && WindowsBack(e, n, k).Some?
    ensures IsStateAfter(e, WindowsBack(e, n, k), Ok(first)) && Later(first, last, k)
    decreases k
  {
    hide IsStateAfter, TimestampRule;
    first := last;
    if k > 0 {
      var prev := WindowFollows(e, n, last);
      BeforeLower(e, n);
      MedianMonotone(n, Before(e, n).value);
      first := History(e, Before(e, n).value, k - 1, prev);
    }
  }

  /** So an agenda that is locked in or active was voted in by the votes of some window before, with that
      choice. */
  lemma {:induction false} ActiveWasVotedIn(e: Env, n: BlockNode, t: StateTuple) returns (end: BlockNode)
    requires e.Ok() && TimestampRule(n) && IsStateAfter(e, Some(n), Ok(t)) && t.state in {LockedIn, Active}
    ensures n.Extends(end) && WasVotedIn(e, end, t.choice)
    decreases n.Height()
  {
    hide IsStateAfter, TimestampRule, WasVotedIn;
    if t.state == LockedIn {
      LockedInByVotes(e, n, t);
      end := n;
    } else {
      var prev := WindowFollows(e, n, t);
      NoWindow(e);
      BeforeLower(e, n);
      MedianMonotone(n, Before(e, n).value);
      end := ActiveWasVotedIn(e, Before(e, n).value, prev);
      ExtendsTransitive(n, Before(e, n).value, end);
    }
  }

  // When the state last changed.

  /** The first block of the window k windows before that of a block. */
  function WindowStart(e: Env, n: BlockNode, k: nat): Option<BlockNode>
    requires e.Ok()
    decreases k
  {
    if k == 0 then n.AncestorAt(CalcWantHeight(e.d.stakeValidationHeight, e.d.interval, n.Height()) + 1)
    else if WindowStart(e, n, k - 1).None? then None
    else Before(e, WindowStart(e, n, k - 1).value)
  }

  /** The k-th window back starts above genesis. */
  predicate HasWindow(e: Env, n: BlockNode, k: nat)
    requires e.Ok()
  {
    WindowStart(e, n, k).Some? && WindowStart(e, n, k).value.parent.Some?
  }

  /** The block after the node can have the state. */
  ghost predicate CanBe(e: Env, prevNode: Option<BlockNode>, state: ThresholdState)
    requires e.Ok()
  {
    exists r :: IsNextState(e, prevNode, r) && r.Ok? && r.value.state == state
  }

  /** The k-th window back can have the state. */
  ghost predicate HasStateBack(e: Env, n: BlockNode, k: nat, state: ThresholdState)
    requires e.Ok()
  {
    HasWindow(e, n, k) && CanBe(e, WindowStart(e, n, k).value.parent, state)
  }

  ghost predicate HasOther(e: Env, n: BlockNode, k: nat, state: ThresholdState)
    requires e.Ok()
  {
    exists other :: other != state && HasStateBack(e, n, k, other)
  }

  /** All windows since the k-th back, which starts with `first`, have the state; the one before has
      another. */
  ghost predicate ChangedAt(e: Env, n: BlockNode, k: nat, state: ThresholdState, first: BlockNode)
    requires e.Ok()
  {
    && WindowStart(e, n, k) == Some(first) && (forall j: nat :: j <= k ==> HasStateBack(e, n, j, state))
    && HasOther(e, n, k + 1, state)
  }

  /** Where the stake version is determined, having another state is not having this one. */
  lemma OneStateBack(e: Env, n: BlockNode, k: nat, state: ThresholdState, other: ThresholdState)
    requires e.Ok() && Determined(e.p, n) && HasStateBack(e, n, k, state) && HasStateBack(e, n, k, other)
    ensures state == other
  {
    hide Determined, IsNextState, WindowStart;
    WindowBelow(e, n, k);
    var start := WindowStart(e, n, k).value;
    assert start.Extends(start.parent.value);
    ExtendsTransitive(n, start, start.parent.value);
    DeterminedBelow(e.p, n, start.parent.value);
    Undisputed(e, start.parent);
  }

  lemma {:induction false} WindowBelow(e: Env, n: BlockNode, k: nat)
    requires e.Ok() && WindowStart(e, n, k).Some?
    ensures n.Extends(WindowStart(e, n, k).value)
    decreases k
  {
    hide CalcWantHeight;
    if k == 0 {
      AncestorHeight(n, CalcWantHeight(e.d.stakeValidationHeight, e.d.interval, n.Height()) + 1);
    } else {
      WindowBelow(e, n, k - 1);
      var m := WindowStart(e, n, k - 1).value;
      BeforeLower(e, m);
      ExtendsTransitive(n, m, WindowStart(e, n, k).value);
    }
  }

  lemma WindowStartOk(e: Env, nodeOf: Hash -> BlockNode, n: BlockNode, k: nat)
    requires e.Ok() && Identified(nodeOf, n)
    ensures WindowStart(e, n, k).Some? ==> Identified(nodeOf, WindowStart(e, n, k).value)
    ensures WindowStart(e, n, k).Some? && WindowStart(e, n, k).value.parent.Some? ==>
              Identified(nodeOf, WindowStart(e, n, k).value.parent.value)
    decreases k
  {
    hide Identified, CalcWantHeight;
    if k == 0 {
      IdentifiedAt(nodeOf, n, CalcWantHeight(e.d.stakeValidationHeight, e.d.interval, n.Height()) + 1);
    } else {
      WindowStartOk(e, nodeOf, n, k - 1);
      if WindowStart(e, n, k - 1).Some? {
        var m := WindowStart(e, n, k - 1).value;
        IdentifiedAt(nodeOf, m, m.Height() - e.d.interval);
      }
    }
    if WindowStart(e, n, k).Some? {
      ParentOk(e, nodeOf, WindowStart(e, n, k).value);
    }
  }

  lemma ParentOk(e: Env, nodeOf: Hash -> BlockNode, n: BlockNode)
    requires e.Ok() && Identified(nodeOf, n)
    ensures n.parent.Some? ==> Identified(nodeOf, n.parent.value)
  {
    hide Identified;
    IdentifiedAt(nodeOf, n, n.Height() - 1);
    if n.parent.Some? {
      assert n.AncestorAt(n.Height() - 1) == n.parent;
    }
  }

  /** The change that led to the state, if there was one. */
  ghost predicate IsLastChange(e: Env, n: BlockNode, state: ThresholdState, change: Option<BlockNode>)
    requires e.Ok()
  {
    match change
    case Some(first) => exists k: nat :: ChangedAt(e, n, k, state, first)
    case None => forall j: nat :: HasWindow(e, n, j) ==> HasStateBack(e, n, j, state)
  }

  /** The first block of the window in which the state of the block's window was first reached: that
      window and all since have this state, and the window before it does not. */
  method StateLastChanged(e: Env, node: Option<BlockNode>, cache: ThresholdStateCache, versions: StakeVersionCaches)
    returns (r: Result<Option<BlockNode>, VoteError>)
    requires e.Ok() && versions.p == e.p && versions.Coherent()
    requires cache.Valid() && CacheOk(e, versions.nodeOf, cache.entries)
    requires node.Some? ==> Identified(versions.nodeOf, node.value)
    modifies cache`dbUpdates, cache`entries, versions
    ensures cache.Valid() && CacheOk(e, versions.nodeOf, cache.entries) && versions.Coherent()
    ensures node.None? || node.value.Height() < e.d.stakeValidationHeight + e.d.interval ==> r == Ok(None)
    ensures node.Some? && node.value.Height() >= e.d.stakeValidationHeight + e.d.interval && r.Ok? ==>
      exists state :: CanBe(e, node.value.parent, state) && IsLastChange(e, node.value, state, r.value)
  {
    hide Identified, IsNextState, CacheOk, CalcWantHeight, WindowStart, TargetOf, Remembers, CanBe, HasStateBack,
         HasOther, ChangedAt, IsLastChange, BlockNode.AncestorAt, BlockNode.Height;
    if node.None? || node.value.Height() < e.d.stakeValidationHeight + e.d.interval {
      return Ok(None);
    }
    var n := node.value;
    ParentOk(e, versions.nodeOf, n);
    var curState := StateBefore(e, n.parent, cache, versions);
    if curState.Err? {
      return Err(curState.error);
    }
    var state := curState.value.state;
    CanBeThis(e, n.parent, curState);
    var finalNodeHeight := CalcWantHeight(e.d.stakeValidationHeight, e.d.interval, n.Height());
    var start := Ancestor(n, finalNodeHeight + 1);
    FirstWindow(e, n, state);
    var priorStateChangeNode := start;
    ghost var k: nat := 0;
    while start.Some? && start.value.parent.Some?
      invariant cache.Valid() && CacheOk(e, versions.nodeOf, cache.entries) && versions.Coherent()
      invariant start == WindowStart(e, n, k) && priorStateChangeNode == WindowStart(e, n, if k == 0 then 0 else k - 1)
      invariant HasStateBack(e, n, 0, state) && (k > 0 ==> priorStateChangeNode.Some?)
      invariant k == 0 ==> Remembers(cache.entries, TargetOf(e, n.parent), curState.value)
      invariant forall j: nat :: j < k ==> HasStateBack(e, n, j, state)
      decreases if start.Some? then start.value.Height() + 1 else 0
    {
      WindowStartOk(e, versions.nodeOf, n, k);
      var found := StateBefore(e, start.value.parent, cache, versions);
      if found.Err? {
        return Err(found.error);
      }
      CanBeThis(e, start.value.parent, found);
      WindowCanBe(e, n, k, found.value.state);
      if found.value.state != state {
        ChangeFound(e, n, k, state, found.value.state);
        return Ok(priorStateChangeNode);
      }
      priorStateChangeNode := start;
      NextWindow(e, n, k);
      BeforeLower(e, start.value);
      start := RelativeAncestor(start.value, e.d.interval);
      k := k + 1;
    }
    NoMoreWindows(e, n, k);
    NoChange(e, n, k, state);
    r := Ok(None);
  }

  lemma CanBeThis(e: Env, prevNode: Option<BlockNode>, r: Result<StateTuple, VoteError>)
    requires e.Ok() && IsNextState(e, prevNode, r) && r.Ok?
    ensures CanBe(e, prevNode, r.value.state)
  {
    hide IsNextState;
  }

  lemma WindowCanBe(e: Env, n: BlockNode, k: nat, state: ThresholdState)
    requires e.Ok() && HasWindow(e, n, k) && CanBe(e, WindowStart(e, n, k).value.parent, state)
    ensures HasStateBack(e, n, k, state)
  {
    hide CanBe, WindowStart;
  }

  lemma ChangeFound(e: Env, n: BlockNode, k: nat, state: ThresholdState, other: ThresholdState)
    requires e.Ok() && k > 0 && WindowStart(e, n, k - 1).Some? && other != state && HasStateBack(e, n, k, other)
    requires forall j: nat :: j < k ==> HasStateBack(e, n, j, state)
    ensures IsLastChange(e, n, state, WindowStart(e, n, k - 1))
  {
    hide HasStateBack, WindowStart;
    assert ChangedAt(e, n, k - 1, state, WindowStart(e, n, k - 1).value);
  }

  lemma NoChange(e: Env, n: BlockNode, k: nat, state: ThresholdState)
    requires e.Ok() && forall j: nat :: j < k ==> HasStateBack(e, n, j, state)
    requires forall j: nat :: j >= k ==> !HasWindow(e, n, j)
    ensures IsLastChange(e, n, state, None)
  {
    hide HasStateBack, HasWindow;
  }

  /** The state of a block, from its parent. */
  method StateBefore(e: Env, parent: Option<BlockNode>, cache: ThresholdStateCache, versions: StakeVersionCaches)
    returns (r: Result<StateTuple, VoteError>)
    requires e.Ok() && versions.p == e.p && versions.Coherent()
    requires cache.Valid() && CacheOk(e, versions.nodeOf, cache.entries)
    requires parent.Some? ==> Identified(versions.nodeOf, parent.value)
    modifies cache`dbUpdates, cache`entries, versions
    ensures cache.Valid() && CacheOk(e, versions.nodeOf, cache.entries) && versions.Coherent()
    ensures IsNextState(e, parent, r)
    ensures r.Ok? ==> Remembers(cache.entries, TargetOf(e, parent), r.value)
    ensures forall s :: Remembers(old(cache.entries), TargetOf(e, parent), s) ==> r == Ok(s)
  {
    hide IsNextState, CacheOk, Identified, Determined;
    r := NextThresholdState(e, parent, cache, versions);
  }

  /** A block is in the same window as the first block of its window. */
  lemma FirstWindow(e: Env, n: BlockNode, state: ThresholdState)
    requires e.Ok() && n.Height() >= e.d.stakeValidationHeight + e.d.interval
    requires CanBe(e, n.parent, state)
    ensures HasStateBack(e, n, 0, state)
    ensures WindowStart(e, n, 0) ==
      n.AncestorAt(CalcWantHeight(e.d.stakeValidationHeight, e.d.interval, n.Height()) + 1)
    ensures TargetOf(e, WindowStart(e, n, 0).value.parent) == TargetOf(e, n.parent)
  {
    hide IsNextState, CalcWantHeight, IsIntervalEnd;
    var svh, interval, h := e.d.stakeValidationHeight, e.d.interval, n.Height();
    var want := CalcWantHeight(svh, interval, h);
    ModAtMost(svh, interval);
    WantHeightIsIntervalEnd(svh, interval, h);
    AtLeastOneInterval(svh, interval, want);
    AncestorHeight(n, want + 1);
    var first := n.AncestorAt(want + 1).value;
    NextIntervalEnd(svh, interval, want, want + 1);
    if first != n {
      ExtendsParents(n, first);
      SameWindow(e, first.parent.value, n.parent.value);
    }
  }

  lemma ExtendsParents(n: BlockNode, first: BlockNode)
    requires n.Extends(first) && first != n && first.parent.Some?
    ensures n.parent.Some? && n.parent.value.Extends(first.parent.value)
  {
    assert first.Extends(first.parent.value);
    ExtendsTransitive(n.parent.value, first, first.parent.value);
  }

  lemma NextWindow(e: Env, n: BlockNode, k: nat)
    requires e.Ok() && WindowStart(e, n, k).Some?
    ensures WindowStart(e, n, k + 1) ==
            WindowStart(e, n, k).value.AncestorAt(WindowStart(e, n, k).value.Height() - e.d.interval)
  {}

  /** Before the last window with a parent there is none. */
  lemma {:induction false} NoMoreWindows(e: Env, n: BlockNode, k: nat)
    requires e.Ok() && !HasWindow(e, n, k)
    ensures forall j: nat :: j >= k ==> !HasWindow(e, n, j)
  {
    hide IsNextState, CalcWantHeight;
    forall j: nat | j >= k ensures !HasWindow(e, n, j) {
      NoneAfter(e, n, k, j);
    }
  }

  lemma {:induction false} NoneAfter(e: Env, n: BlockNode, k: nat, j: nat)
    requires e.Ok() && !HasWindow(e, n, k) && j >= k
    ensures !HasWindow(e, n, j)
    decreases j
  {
    hide IsNextState, CalcWantHeight;
    if j > k {
      NoneAfter(e, n, k, j - 1);
      if WindowStart(e, n, j - 1).Some? {
        BeforeLower(e, WindowStart(e, n, j - 1).value);
      }
    }
  }
}
