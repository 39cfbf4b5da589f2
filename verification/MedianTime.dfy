/** Past median time (blockIndex.CalcPastMedianTime) and why it never runs backwards. */
module MedianTime {
  import opened Wrappers
  import opened BlockNodes

  const MEDIAN_TIME_BLOCKS: nat := 11

  function Insert(x: int, s: seq<int>): seq<int> {
    if s == [] || x <= s[0] then [x] + s else [s[0]] + Insert(x, s[1..])
  }

  function Sort(s: seq<int>): (r: seq<int>)
    ensures |r| == |s|
  {
    if s == [] then [] else
    var r := Sort(s[1..]);
    InsertLength(s[0], r);
    Insert(s[0], r)
  }

  lemma {:induction false} InsertLength(x: int, s: seq<int>)
    ensures |Insert(x, s)| == |s| + 1
  {
    if s != [] && x > s[0] {
      InsertLength(x, s[1..]);
    }
  }

  predicate IsSorted(s: seq<int>) {
    forall i, j :: 0 <= i < j < |s| ==> s[i] <= s[j]
  }

  function CountBelow(s: seq<int>, m: int): nat {
    if s == [] then 0 else (if s[0] < m then 1 else 0) + CountBelow(s[1..], m)
  }

  lemma {:induction false} InsertContents(x: int, s: seq<int>)
    ensures multiset(Insert(x, s)) == multiset(s) + multiset{x}
  {
    if s != [] && x > s[0] {
      InsertContents(x, s[1..]);
      assert s == [s[0]] + s[1..];
    }
  }

  lemma {:induction false} InsertSorted(x: int, s: seq<int>)
    requires IsSorted(s)
    ensures IsSorted(Insert(x, s))
  {
    if s != [] && x > s[0] {
      InsertSorted(x, s[1..]);
      InsertContents(x, s[1..]);
      var t := Insert(x, s[1..]);
      forall k | 0 <= k < |t| ensures s[0] <= t[k] {
        assert t[k] in multiset(t);
        assert t[k] == x || t[k] in s[1..];
      }
    }
  }

  lemma {:induction false} InsertCount(x: int, s: seq<int>, m: int)
    ensures CountBelow(Insert(x, s), m) == (if x < m then 1 else 0) + CountBelow(s, m)
  {
    if s != [] && x > s[0] {
      InsertCount(x, s[1..], m);
      assert Insert(x, s)[1..] == Insert(x, s[1..]);
    } else {
      assert Insert(x, s)[1..] == s;
    }
  }

  lemma {:induction false} SortKeeps(s: seq<int>, m: int)
    ensures IsSorted(Sort(s)) && multiset(Sort(s)) == multiset(s)
    ensures CountBelow(Sort(s), m) == CountBelow(s, m)
  {
    if s != [] {
      SortKeeps(s[1..], m);
      InsertContents(s[0], Sort(s[1..]));
      InsertSorted(s[0], Sort(s[1..]));
      InsertCount(s[0], Sort(s[1..]), m);
      assert s == [s[0]] + s[1..];
    }
  }

  /** In a sorted sequence, position j is at least m exactly when at most j elements are below m. */
  lemma {:induction false} RankInSorted(s: seq<int>, j: nat, m: int)
    requires IsSorted(s) && j < |s|
    ensures s[j] >= m <==> CountBelow(s, m) <= j
  {
    if s[0] >= m {
      NoneBelow(s, m);
    } else if j > 0 {
      RankInSorted(s[1..], j - 1, m);
    }
  }

  lemma {:induction false} NoneBelow(s: seq<int>, m: int)
    requires forall i :: 0 <= i < |s| ==> s[i] >= m
    ensures CountBelow(s, m) == 0
  {
    if s != [] {
      NoneBelow(s[1..], m);
    }
  }

  /** The timestamps of the node and its predecessors, newest first, at most k of them. */
  function LastTimestamps(node: Option<BlockNode>, k: nat): seq<int>
    decreases k
  {
    if k == 0 || node.None? then []
    else [node.value.timestamp] + LastTimestamps(node.value.parent, k - 1)
  }

  function PastMedianTime(node: BlockNode): int {
    var ts := LastTimestamps(Some(node), MEDIAN_TIME_BLOCKS);
    Sort(ts)[|ts| / 2]
  }

  /** Collect the newest timestamps into a slice of fixed size. */
  method CollectTimestamps(node: BlockNode, maxBlocks: nat) returns (timestamps: array<int>, numNodes: nat)
    ensures numNodes <= timestamps.Length
    ensures timestamps[..numNodes] == LastTimestamps(Some(node), maxBlocks)
  {
    timestamps := new int[maxBlocks];
    numNodes := 0;
    var iterNode := Some(node);
    ghost var all := LastTimestamps(iterNode, maxBlocks);
    while numNodes < maxBlocks && iterNode.Some?
      invariant numNodes <= maxBlocks
      invariant timestamps[..numNodes] + LastTimestamps(iterNode, maxBlocks - numNodes) == all
      decreases maxBlocks - numNodes
    {
      timestamps[numNodes] := iterNode.value.timestamp;
      numNodes := numNodes + 1;
      iterNode := iterNode.value.parent;
    }
  }

  method CalcPastMedianTime(node: BlockNode) returns (median: int)
    ensures median == PastMedianTime(node)
  {
    var timestamps, numNodes := CollectTimestamps(node, MEDIAN_TIME_BLOCKS);
    assert numNodes == |LastTimestamps(Some(node), MEDIAN_TIME_BLOCKS)|;
    var sorted := Sort(timestamps[..numNodes]);
    median := sorted[numNodes / 2];
  }

  /** The rule the header checks enforce: a block is newer than its parent's past median time. */
  predicate TimestampRule(node: BlockNode) {
    match node.parent
    case None => true
    case Some(p) => node.timestamp > PastMedianTime(p) && TimestampRule(p)
  }

  /** The window of a child is the child's timestamp followed by the newest of its parent's window. */
  lemma {:induction false} WindowShift(node: Option<BlockNode>, k: nat, m: int)
    ensures var long := LastTimestamps(node, k + 1);
            var short := LastTimestamps(node, k);
            short <= long && |long| <= |short| + 1 && |short| <= k
            && CountBelow(short, m) <= CountBelow(long, m)
            && (|short| < k ==> short == long)
  {
    if k > 0 && node.Some? {
      WindowShift(node.value.parent, k - 1, m);
    }
  }

  /** Past median time never decreases from parent to child, also in the first few blocks where the
      window is short and an even length picks the upper of the two middle timestamps. */
  lemma {:induction false} MedianStep(node: BlockNode)
    requires node.parent.Some? && node.timestamp > PastMedianTime(node.parent.value)
    ensures PastMedianTime(node) >= PastMedianTime(node.parent.value)
  {
    var p := node.parent;
    var m := PastMedianTime(p.value);
    var before := LastTimestamps(p, MEDIAN_TIME_BLOCKS);
    var after := LastTimestamps(Some(node), MEDIAN_TIME_BLOCKS);
    SortKeeps(before, m);
    RankInSorted(Sort(before), |before| / 2, m);
    WindowShift(p, MEDIAN_TIME_BLOCKS - 1, m);
    var shifted := LastTimestamps(p, MEDIAN_TIME_BLOCKS - 1);
    assert after == [node.timestamp] + shifted;
    assert after[1..] == shifted;
    SortKeeps(after, m);
    RankInSorted(Sort(after), |after| / 2, m);
  }

  lemma {:induction false} MedianMonotone(node: BlockNode, a: BlockNode)
    requires TimestampRule(node) && node.Extends(a)
    ensures PastMedianTime(a) <= PastMedianTime(node) && TimestampRule(a)
  {
    if node != a {
      MedianMonotone(node.parent.value, a);
      MedianStep(node);
    }
  }

  // What the median is.

  lemma {:induction false} LastTimestampsAre(n: BlockNode, k: nat, j: nat)
    ensures |LastTimestamps(Some(n), k)| == if k <= n.Height() then k else n.Height() + 1
    ensures j < |LastTimestamps(Some(n), k)| ==>
      n.AncestorAt(n.Height() - j).Some?
        && LastTimestamps(Some(n), k)[j] == n.AncestorAt(n.Height() - j).value.timestamp
  {
    if k > 0 && n.parent.Some? {
      LastTimestampsAre(n.parent.value, k - 1, if j > 0 then j - 1 else 0);
    }
  }

  /** The timestamps of the last blocks up to a node, at most eleven. */
  ghost predicate AreLastTimes(times: seq<int>, n: BlockNode) {
    && |times| == (if n.Height() >= 10 then 11 else n.Height() + 1)
    && forall j :: 0 <= j < |times| ==> IsTimeOf(times[j], n.AncestorAt(n.Height() - j))
  }

  predicate IsTimeOf(time: int, node: Option<BlockNode>) {
    node.Some? && time == node.value.timestamp
  }

  /** How many of them are below a time. */
  ghost function Below(times: seq<int>, m: int): nat {
    |set j | 0 <= j < |times| && times[j] < m|
  }

  lemma {:induction false} CountBelowIs(times: seq<int>, m: int)
    ensures CountBelow(times, m) == Below(times, m)
  {
    if times == [] {
      NothingBelow(m);
    } else {
      var init, last := times[..|times| - 1], times[|times| - 1];
      CountBelowIs(init, m);
      CountBelowSnoc(init, last, m);
      assert init + [last] == times;
      var before := set j | 0 <= j < |init| && init[j] < m;
      assert (set j | 0 <= j < |times| && times[j] < m) == if last < m then before + {|init|} else before;
    }
  }

  lemma NothingBelow(m: int)
    ensures Below([], m) == 0
  {
    var none: seq<int> := [];
    assert (set j | 0 <= j < |none| && none[j] < m) == {};
  }

  lemma {:induction false} CountBelowSnoc(times: seq<int>, x: int, m: int)
    ensures CountBelow(times + [x], m) == CountBelow(times, m) + (if x < m then 1 else 0)
  {
    if times == [] {
      assert [] + [x] == [x] && [x][1..] == [];
    } else {
      CountBelowSnoc(times[1..], x, m);
      assert (times + [x])[1..] == times[1..] + [x];
    }
  }

  /** The past median time is one of the last timestamps; at most half of them, rounded down, are below it,
      and more than half, rounded down, are not above it. */
  lemma MedianIsMiddle(n: BlockNode) returns (times: seq<int>)
    ensures AreLastTimes(times, n) && PastMedianTime(n) in times
    ensures Below(times, PastMedianTime(n)) <= |times| / 2 < Below(times, PastMedianTime(n) + 1)
  {
    hide LastTimestamps, Sort, Below, BlockNode.AncestorAt, BlockNode.Height;
    times := LastTimestamps(Some(n), MEDIAN_TIME_BLOCKS);
    LastTimestampsAre(n, MEDIAN_TIME_BLOCKS, 0);
    forall j | 0 <= j < |times| ensures IsTimeOf(times[j], n.AncestorAt(n.Height() - j)) {
      LastTimestampsAre(n, MEDIAN_TIME_BLOCKS, j);
    }
    assert AreLastTimes(times, n);
    var m, half := PastMedianTime(n), |times| / 2;
    SortKeeps(times, m);
    SortKeeps(times, m + 1);
    RankInSorted(Sort(times), half, m);
    RankInSorted(Sort(times), half, m + 1);
    CountBelowIs(times, m);
    CountBelowIs(times, m + 1);
    assert m == Sort(times)[half];
    assert m in multiset(Sort(times));
    assert m in multiset(times);
  }
}
