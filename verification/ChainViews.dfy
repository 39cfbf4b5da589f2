/** The flat view of one branch of the block chain (blockchain/chainview.go) and the inventory
    queries answered from it (locateInventory and locateBlocks in blockchain/chain.go). */
module ChainViews {
  import opened Wrappers
  import opened Transactions
  import opened BlockNodes
  import opened GoArithmetic

  const APPROX_NODES_PER_WEEK: nat := 12 * 24 * 7

  /** Mask i selects the bits from exponent e up to 2e; a mask test asks for a bit among those. */
  const LOG2_EXPONENTS: seq<nat> := [16, 8, 4, 2, 1]

  /** All values before step i are below this bound. */
  function MaskBound(i: nat): nat
    requires i <= 5
  {
    if i == 0 then 0x1_0000_0000 else Pow2(LOG2_EXPONENTS[i - 1])
  }

  lemma MaskTable(i: nat)
    requires i < 5
    ensures MaskBound(i) == Pow2(LOG2_EXPONENTS[i]) * Pow2(LOG2_EXPONENTS[i])
    ensures MaskBound(i + 1) == Pow2(LOG2_EXPONENTS[i])
    ensures MaskBound(5) == 2
  {
    assert Pow2(1) == 2;
    Pow2Sum(1, 1);
    Pow2Sum(2, 2);
    Pow2Sum(4, 4);
    Pow2Sum(8, 8);
    Pow2Sum(16, 16);
  }

  lemma DivTimes(n: nat, p: nat)
    requires p > 0
    ensures n / p >= 0 && (n / p) * p <= n < (n / p) * p + p
  {}

  lemma ModSmall(q: nat, p: nat)
    requires q < p
    ensures q % p == q
  {}

  lemma FactorBelow(q: int, p: nat)
    requires q >= p
    ensures q * p >= p * p
  {}

  /** For a value below p * p the mask test asks whether its upper half is non-zero. */
  lemma MaskTest(n: nat, p: nat)
    requires p > 0 && n < p * p
    ensures 0 <= n / p < p && ((n / p) % p == 0 <==> n / p == 0) && (n / p == 0 ==> n < p)
  {
    DivTimes(n, p);
    var q := n / p;
    if q >= p {
      FactorBelow(q, p);
    }
    assert q < p;
    ModSmall(q, p);
  }

  /** `n0` shifted right so that its top bits are `n`; p is the power of two shifted by. */
  ghost predicate Shifted(n0: nat, n: nat, p: nat) {
    n * p <= n0 < (n + 1) * p
  }

  /** Shifting by e and later by r in all shifts by e + r. */
  lemma ShiftStep(n0: nat, n: nat, p: nat, q: nat)
    requires q > 0 && Shifted(n0, n, p)
    ensures n / q >= 0 && Shifted(n0, n / q, p * q)
  {
    var m := n / q;
    DivTimes(n, q);
    Scaled(m * q, n, p);
    Scaled(n + 1, (m + 1) * q, p);
    Reorder(m, q, p);
    Reorder(m + 1, q, p);
  }

  lemma Scaled(a: nat, b: nat, c: nat)
    requires a <= b
    ensures a * c <= b * c
  {}

  lemma Reorder(a: nat, b: nat, c: nat)
    ensures (a * b) * c == a * (c * b)
  {}

  /** floor(log2(n)) of a 32-bit value in five steps. */
  method FastLog2Floor(n0: nat) returns (rv: nat)
    requires n0 < 0x1_0000_0000
    ensures n0 == 0 ==> rv == 0
    ensures n0 > 0 ==> Pow2(rv) <= n0 < Pow2(rv + 1)
  {
    hide MaskBound, Pow2, Shifted;
    var n: nat := n0;
    rv := 0;
    Log2Start(n0);
    for i := 0 to 5
      invariant Shifted(n0, n, Pow2(rv))
      invariant n0 == 0 ==> n == 0 && rv == 0
      invariant n0 > 0 ==> n > 0
      invariant n < MaskBound(i)
    {
      var e := LOG2_EXPONENTS[i];
      var p := Pow2(e);
      MaskTable(i);
      MaskTest(n, p);
      if (n / p) % p != 0 {
        ShiftStep(n0, n, Pow2(rv), p);
        Pow2Sum(rv, e);
        rv := rv + e;
        n := n / p;
      }
    }
    MaskTable(0);
    Log2End(n0, rv);
  }

  lemma Log2Start(n0: nat)
    ensures Shifted(n0, n0, Pow2(0)) && MaskBound(0) == 0x1_0000_0000
  {}

  lemma Log2End(n0: nat, r: nat)
    ensures Shifted(n0, 1, Pow2(r)) ==> Pow2(r) <= n0 < Pow2(r + 1)
  {}

  ghost function Log2Floor(n: nat): (r: nat)
    requires n > 0
    ensures Pow2(r) <= n < Pow2(r + 1)
  {
    if n == 1 then 0 else 1 + Log2Floor(n / 2)
  }

  lemma Log2FloorUnique(n: nat, r: nat)
    requires n > 0 && Pow2(r) <= n < Pow2(r + 1)
    ensures r == Log2Floor(n)
  {
    var s := Log2Floor(n);
    if r < s { Pow2Monotone(r + 1, s); }
    if s < r { Pow2Monotone(s + 1, r); }
  }

  /** What the backing slice must hold: each slot is the ancestor of the last one at that height. */
  ghost predicate IsView(s: seq<Option<BlockNode>>) {
    |s| > 0 ==>
      && s[|s| - 1].Some?
      && s[|s| - 1].value.Height() == |s| - 1
      && forall i :: 0 <= i < |s| ==> s[i] == s[|s| - 1].value.AncestorAt(i)
  }

  class ChainView {
    // The backing array; only the first `len` slots belong to the view.
    var nodes: array<Option<BlockNode>>
    var len: nat

    ghost predicate Valid()
      reads this, nodes
    {
      len <= nodes.Length && IsView(nodes[..len])
    }

    function Tip(): Option<BlockNode>
      requires Valid()
      reads this, nodes
    {
      if len == 0 then None else nodes[len - 1]
    }

    constructor (tip: Option<BlockNode>)
      ensures Valid() && Tip() == tip && fresh(nodes)
    {
      nodes := new Option<BlockNode>[0](_ => None);
      len := 0;
      new;
      SetTip(tip);
    }

    /** Grow or shrink the slice, reusing the backing array when it is large enough. */
    method Resize(needed: nat)
      requires len <= nodes.Length
      modifies this, nodes
      ensures nodes == old(nodes) || fresh(nodes)
      ensures len == needed <= nodes.Length
      ensures forall i :: 0 <= i < needed ==> nodes[i] == if i < old(len) then old(nodes[i]) else None
    {
      if nodes.Length < needed {
        var bigger := new Option<BlockNode>[needed + APPROX_NODES_PER_WEEK](_ => None);
        forall i | 0 <= i < len {
          bigger[i] := nodes[i];
        }
        nodes := bigger;
        len := needed;
      } else {
        var i, prevLen := len, len;
        len := needed;
        while i < needed
          invariant prevLen <= i && nodes == old(nodes) && len == needed
          invariant forall k :: 0 <= k < nodes.Length ==>
            nodes[k] == if prevLen <= k < i then None else old(nodes[k])
        {
          nodes[i] := None;
          i := i + 1;
        }
      }
    }

    /** Whatever the view was before, afterwards it is the branch ending in `node`. */
    method SetTip(node: Option<BlockNode>)
      requires Valid()
      modifies this, nodes
      ensures Valid() && Tip() == node
      ensures nodes == old(nodes) || fresh(nodes)
    {
      hide BlockNode.AncestorAt, BlockNode.Height, IsView;
      if node.None? {
        len := 0;
        EmptyView();
        assert nodes[..len] == [];
        return;
      }
      var tip := node.value;
      ghost var before := nodes[..len];
      Resize(tip.Height() + 1);
      Relink(tip, before);
      ViewOf(nodes[..len], tip);
    }

    /** Walk back from the tip and put every node in its slot; the walk may stop at the first slot that
        already holds the right node because everything below it is already right too. */
    method Relink(tip: BlockNode, ghost before: seq<Option<BlockNode>>)
      requires IsView(before) && len == tip.Height() + 1 <= nodes.Length
      requires forall i :: 0 <= i < len ==> nodes[i] == if i < |before| then before[i] else None
      modifies nodes
      ensures forall i :: 0 <= i < len ==> nodes[i] == tip.AncestorAt(i)
    {
      hide BlockNode.AncestorAt, BlockNode.Height, IsView;
      var n := Some(tip);
      ghost var todo := len;
      TipAtHeight(tip);
      while n.Some? && nodes[n.value.Height()] != n
        invariant todo == if n.Some? then n.value.Height() + 1 else 0
        invariant todo <= len && n == tip.AncestorAt(todo - 1)
        invariant forall i :: todo <= i < len ==> nodes[i] == tip.AncestorAt(i)
        invariant forall i :: 0 <= i < todo ==> nodes[i] == if i < |before| then before[i] else None
        decreases n
      {
        nodes[n.value.Height()] := n;
        AncestorParent(tip, n.value.Height());
        HeightOf(n.value);
        n := n.value.parent;
        todo := todo - 1;
      }
      if n.Some? {
        SharedBelow(before, tip, n.value.Height());
      }
    }

    function NodeByHeight(height: int): (r: Option<BlockNode>)
      requires Valid()
      reads this, nodes
      ensures Tip().Some? ==> r == Tip().value.AncestorAt(height)
      ensures Tip().None? ==> r == None
    {
      if height < 0 || height >= len then None else nodes[..len][height]
    }

    /** Membership is exactly being the tip or one of its ancestors. */
    function Contains(node: BlockNode): (r: bool)
      requires Valid()
      reads this, nodes
      ensures r <==> Tip().Some? && Tip().value.Extends(node)
    {
      if Tip().Some? then
        ExtendsIffAncestorAt(Tip().value, node);
        NodeByHeight(node.Height()) == Some(node)
      else
        NodeByHeight(node.Height()) == Some(node)
    }

    function Next(node: Option<BlockNode>): (r: Option<BlockNode>)
      requires Valid()
      reads this, nodes
      ensures r.Some? ==> node.Some? && r.value.parent == node
      ensures r.Some? <==> node.Some? && Tip().Some? && Tip().value.Extends(node.value) && node != Tip()
      ensures r.Some? ==> r == Tip().value.AncestorAt(node.value.Height() + 1)
    {
      if node.None? || !Contains(node.value) then None else
      ExtendsIffAncestorAt(Tip().value, node.value);
      NextOnBranch(Tip().value, node.value);
      NodeByHeight(node.value.Height() + 1)
    }

    /** The last block of `node`'s branch in the view. */
    method FindFork(node: Option<BlockNode>) returns (fork: Option<BlockNode>)
      requires Valid()
      ensures node.None? || Tip().None? ==> fork.None?
      ensures node.Some? && Tip().Some? ==> fork == ForkPoint(Tip().value, node.value)
    {
      if node.None? {
        return None;
      }
      fork := node;
      var chainHeight := len - 1;
      if node.value.Height() > chainHeight {
        fork := Ancestor(node.value, chainHeight);
        if Tip().Some? {
          ForkPointBelow(Tip().value, node.value);
        }
      }
      while fork.Some? && !Contains(fork.value)
        invariant Tip().Some? && fork.Some? ==>
          ForkPoint(Tip().value, fork.value) == ForkPoint(Tip().value, node.value)
        invariant Tip().Some? && fork.None? ==> ForkPoint(Tip().value, node.value) == None
        decreases fork
      {
        fork := fork.value.parent;
      }
    }

    /** The ancestor at a height: looked up when the node is in the view, walked to otherwise. */
    method AncestorByView(node: BlockNode, height: nat) returns (r: Option<BlockNode>)
      requires Valid() && height <= node.Height()
      ensures r == node.AncestorAt(height)
    {
      if Contains(node) {
        ExtendsIffAncestorAt(Tip().value, node);
        AncestorCompose(Tip().value, node.Height(), height);
        r := nodes[..len][height];
      } else {
        r := Ancestor(node, height);
      }
    }

    /** The locator of `from`, or of the tip when no node is given, and the capacity it was made with:
        at heights that fit 32 bits nothing is reallocated and nothing wasted. */
    method BlockLocator(from: Option<BlockNode>) returns (locator: seq<Hash>, maxEntries: nat)
      requires Valid()
      ensures from.None? && Tip().None? ==> locator == []
      ensures var start := if from.Some? then from else Tip();
              start.Some? ==>
                IsLocatorOf(locator, start.value) && (start.value.Height() < 0x1_0000_0000 ==> |locator| == maxEntries)
    {
      var node := from;
      if node.None? {
        node := Tip();
        if node.None? {
          return [], 0;
        }
      }
      hide Pow2, Log2Floor, LocatorOffset, LocatorHeight, LocatorCount, LocatorStep, IsLocatorPrefix,
           BlockNode.AncestorAt, BlockNode.Height;
      ghost var n := node.value;
      ghost var H := n.Height();
      LocatorStart(H);
      TipAtHeight(n);
      maxEntries := MaxLocatorEntries(node.value.Height());
      locator := [];
      var step := 1;
      NoLocator(n);
      while node.Some?
        invariant node.Some? && |locator| < LocatorCount(H)
        invariant node == n.AncestorAt(LocatorHeight(H, |locator|))
        invariant step == LocatorStep(|locator|)
        invariant IsLocatorPrefix(locator, n)
        decreases LocatorCount(H) - |locator|
      {
        ghost var k := |locator|;
        AncestorHeight(n, LocatorHeight(H, k));
        LocatorEnds(H, k);
        LocatorMore(locator, n);
        locator := locator + [node.value.hash];
        if node.value.Height() == 0 {
          break;
        }
        var height := if node.value.Height() - step < 0 then 0 else node.value.Height() - step;
        LocatorNext(H, k);
        AncestorCompose(n, LocatorHeight(H, k), height);
        AncestorHeight(n, height);
        node := AncestorByView(node.value, height);
        if |locator| > 10 {
          step := step * 2;
        }
      }
    }

    /** Where a peer with this locator should continue, and for how many blocks. */
    method LocateInventory(index: map<Hash, BlockNode>, locator: seq<Hash>, hashStop: Hash, maxEntries: nat)
      returns (start: Option<BlockNode>, total: nat)
      requires Valid() && Tip().Some?
      ensures locator == [] ==> start == Lookup(index, hashStop) && total == (if start.Some? then 1 else 0)
      ensures locator != [] ==>
        var tip := Tip().value;
        var known := FirstKnown(index, tip, locator);
        && start == (if known == tip then None else tip.AncestorAt(known.Height() + 1))
        && total == InventoryCount(tip, known, Lookup(index, hashStop), maxEntries)
    {
      hide BlockNode.AncestorAt, BlockNode.Height, BlockNode.Extends, BlockNode.Genesis;
      var stopNode := Lookup(index, hashStop);
      if locator == [] {
        return stopNode, if stopNode.None? then 0 else 1;
      }
      var tip := Tip().value;
      ExtendsGenesis(tip);
      start := NodeByHeight(0);
      var i := 0;
      while i < |locator|
        invariant 0 <= i <= |locator|
        invariant start == Some(tip.Genesis())
        invariant FirstKnown(index, tip, locator) == FirstKnown(index, tip, locator[i..])
      {
        var node := Lookup(index, locator[i]);
        if node.Some? && Contains(node.value) {
          start := node;
          break;
        }
        i := i + 1;
      }
      ghost var known := FirstKnown(index, tip, locator);
      assert start == Some(known) && tip.Extends(known);
      start := Next(start);
      ExtendsIffAncestorAt(tip, known);
      if start.None? {
        return None, 0;
      }
      NextOnBranch(tip, known);
      AncestorHeight(tip, known.Height() + 1);
      total := tip.Height() - start.value.Height() + 1;
      if stopNode.Some? && Contains(stopNode.value) && stopNode.value.Height() >= start.value.Height() {
        ExtendsIffAncestorAt(tip, stopNode.value);
        total := stopNode.value.Height() - start.value.Height() + 1;
      }
      if total > maxEntries {
        total := maxEntries;
      }
    }

    /** The hashes of the blocks that follow the first known locator entry on the main chain, in
        order and without gaps. */
    method LocateBlocks(index: map<Hash, BlockNode>, locator: seq<Hash>, hashStop: Hash, maxHashes: nat)
      returns (hashes: seq<Hash>)
      requires Valid() && Tip().Some?
      ensures locator == [] ==>
        hashes == if Lookup(index, hashStop).Some? then [Lookup(index, hashStop).value.hash] else []
      ensures locator != [] ==>
        var tip := Tip().value;
        var known := FirstKnown(index, tip, locator);
        && |hashes| == InventoryCount(tip, known, Lookup(index, hashStop), maxHashes)
        && IsRun(hashes, tip, known.Height() + 1)
    {
      hide BlockNode.AncestorAt, BlockNode.Height, BlockNode.Extends, FirstKnown;
      var node, total := LocateInventory(index, locator, hashStop, maxHashes);
      hashes := [];
      if total == 0 {
        return;
      }
      ghost var tip := Tip().value;
      if locator != [] {
        FirstKnownOnBranch(index, tip, locator);
        AncestorHeight(tip, FirstKnown(index, tip, locator).Height() + 1);
      }
      ghost var base := node.value.Height();
      assert locator != [] ==> base == FirstKnown(index, tip, locator).Height() + 1;
      for i := 0 to total
        invariant |hashes| == i
        invariant locator == [] ==> total == 1 && (i == 0 ==> node == Lookup(index, hashStop) && node.Some?)
        invariant locator == [] && i == 1 ==> hashes == [Lookup(index, hashStop).value.hash]
        invariant locator != [] ==> base + total <= tip.Height() + 1
        invariant locator != [] ==> node == tip.AncestorAt(base + i)
        invariant locator != [] ==> IsRun(hashes, tip, base)
      {
        if locator != [] {
          AncestorHeight(tip, base + i);
          NextOnBranch(tip, node.value);
        }
        if locator != [] {
          IsRunExtend(hashes, tip, base, node.value.hash);
        }
        hashes := hashes + [node.value.hash];
        node := Next(node);
      }
    }
  }

  lemma EmptyView()
    ensures IsView([])
  {}

  lemma TipAtHeight(tip: BlockNode)
    ensures tip.AncestorAt(tip.Height()) == Some(tip)
  {}

  lemma ViewOf(s: seq<Option<BlockNode>>, tip: BlockNode)
    requires |s| == tip.Height() + 1 && forall i :: 0 <= i < |s| ==> s[i] == tip.AncestorAt(i)
    ensures IsView(s) && s[|s| - 1] == Some(tip)
  {
    hide BlockNode.Height;
    TipAtHeight(tip);
  }

  lemma AncestorParent(tip: BlockNode, h: nat)
    requires h <= tip.Height()
    ensures tip.AncestorAt(h).Some? && tip.AncestorAt(h).value.parent == tip.AncestorAt(h - 1)
  {
    AncestorHeight(tip, h);
    AncestorCompose(tip, h, h - 1);
  }

  /** Two branches that agree at one height agree everywhere below it. */
  lemma SharedBelow(view: seq<Option<BlockNode>>, tip: BlockNode, h: nat)
    requires IsView(view) && h < |view| && h <= tip.Height() && view[h] == tip.AncestorAt(h)
    ensures forall i :: 0 <= i <= h ==> view[i] == tip.AncestorAt(i)
  {
    forall i | 0 <= i <= h ensures view[i] == tip.AncestorAt(i) {
      AncestorCompose(view[|view| - 1].value, h, i);
      AncestorCompose(tip, h, i);
    }
  }

  /** `hashes` are those of the blocks of the branch from height `base` upwards, without gaps. */
  ghost predicate IsRun(hashes: seq<Hash>, tip: BlockNode, base: nat) {
    forall i :: 0 <= i < |hashes| ==> HashAt(tip, base + i) == Some(hashes[i])
  }

  function HashAt(tip: BlockNode, height: int): Option<Hash> {
    match tip.AncestorAt(height)
    case None => None
    case Some(a) => Some(a.hash)
  }

  lemma IsRunExtend(hashes: seq<Hash>, tip: BlockNode, base: nat, h: Hash)
    requires IsRun(hashes, tip, base) && HashAt(tip, base + |hashes|) == Some(h)
    ensures IsRun(hashes + [h], tip, base)
  {}

  lemma NextOnBranch(tip: BlockNode, node: BlockNode)
    requires tip.Extends(node)
    ensures node.Height() < tip.Height() ==>
              var r := tip.AncestorAt(node.Height() + 1);
              r.Some? && r.value.parent == Some(node)
    ensures node.Height() < tip.Height() <==> node != tip
    ensures node == tip ==> tip.AncestorAt(node.Height() + 1) == None
  {
    ExtendsIffAncestorAt(tip, node);
    ExtendsIffAncestorAt(node, tip);
    if node.Height() < tip.Height() {
      AncestorHeight(tip, node.Height() + 1);
      AncestorCompose(tip, node.Height() + 1, node.Height());
    } else {
      AncestorHeight(tip, tip.Height());
    }
  }

  /** Blocks above the tip's height cannot be common. */
  lemma {:induction false} ForkPointBelow(tip: BlockNode, node: BlockNode)
    requires node.Height() > tip.Height()
    ensures node.AncestorAt(tip.Height()).Some?
    ensures ForkPoint(tip, node.AncestorAt(tip.Height()).value) == ForkPoint(tip, node)
  {
    ExtendsIffAncestorAt(tip, node);
    if node.Height() > tip.Height() + 1 {
      ForkPointBelow(tip, node.parent.value);
    }
  }

  function Lookup(index: map<Hash, BlockNode>, h: Hash): Option<BlockNode> {
    if h in index then Some(index[h]) else None
  }

  /** The first locator entry on the main chain, or the genesis block when there is none. */
  function FirstKnown(index: map<Hash, BlockNode>, tip: BlockNode, locator: seq<Hash>): BlockNode {
    if locator == [] then tip.Genesis()
    else if locator[0] in index && tip.Extends(index[locator[0]]) then index[locator[0]]
    else FirstKnown(index, tip, locator[1..])
  }

  lemma {:induction false} FirstKnownOnBranch(index: map<Hash, BlockNode>, tip: BlockNode, locator: seq<Hash>)
    ensures tip.Extends(FirstKnown(index, tip, locator))
    ensures FirstKnown(index, tip, locator) == tip || FirstKnown(index, tip, locator).Height() < tip.Height()
  {
    if locator == [] {
      ExtendsGenesis(tip);
    } else if !(locator[0] in index && tip.Extends(index[locator[0]])) {
      FirstKnownOnBranch(index, tip, locator[1..]);
    }
    NextOnBranch(tip, FirstKnown(index, tip, locator));
  }

  /** It is the entry that is found on the main chain and has none such before it. */
  lemma {:induction false} FirstKnownIs(index: map<Hash, BlockNode>, tip: BlockNode, locator: seq<Hash>)
    ensures (exists i :: IsFirstOnBranch(index, tip, locator, i))
      || (forall i :: 0 <= i < |locator| ==> !OnBranch(index, tip, locator[i]))
    ensures forall i :: IsFirstOnBranch(index, tip, locator, i) ==>
      FirstKnown(index, tip, locator) == index[locator[i]]
    ensures (forall i :: 0 <= i < |locator| ==> !OnBranch(index, tip, locator[i])) ==>
      Some(FirstKnown(index, tip, locator)) == tip.AncestorAt(0)
  {
    if locator == [] {
      ExtendsGenesis(tip);
    } else {
      var rest := locator[1..];
      FirstKnownIs(index, tip, rest);
      if OnBranch(index, tip, locator[0]) {
        assert IsFirstOnBranch(index, tip, locator, 0);
      } else {
        forall i | IsFirstOnBranch(index, tip, rest, i) ensures IsFirstOnBranch(index, tip, locator, i + 1) {
          forall j | 0 <= j < i + 1 ensures !OnBranch(index, tip, locator[j]) {
            assert j > 0 ==> locator[j] == rest[j - 1];
          }
        }
        forall i | IsFirstOnBranch(index, tip, locator, i) ensures IsFirstOnBranch(index, tip, rest, i - 1) {
          forall j | 0 <= j < i - 1 ensures !OnBranch(index, tip, rest[j]) {
            assert rest[j] == locator[j + 1];
          }
        }
        if forall i :: 0 <= i < |rest| ==> !OnBranch(index, tip, rest[i]) {
          forall i | 0 <= i < |locator| ensures !OnBranch(index, tip, locator[i]) {
            assert i > 0 ==> locator[i] == rest[i - 1];
          }
        }
        if forall i :: 0 <= i < |locator| ==> !OnBranch(index, tip, locator[i]) {
          forall i | 0 <= i < |rest| ensures !OnBranch(index, tip, rest[i]) {
            assert rest[i] == locator[i + 1];
          }
        }
      }
    }
  }

  predicate OnBranch(index: map<Hash, BlockNode>, tip: BlockNode, h: Hash) {
    h in index && tip.Extends(index[h])
  }

  ghost predicate IsFirstOnBranch(index: map<Hash, BlockNode>, tip: BlockNode, locator: seq<Hash>, i: int) {
    && 0 <= i < |locator| && OnBranch(index, tip, locator[i])
    && forall j :: 0 <= j < i ==> !OnBranch(index, tip, locator[j])
  }

  function InventoryCount(tip: BlockNode, known: BlockNode, stop: Option<BlockNode>, maxEntries: nat): nat {
    if known == tip || known.Height() >= tip.Height() then 0 else
    var last := if stop.Some? && tip.Extends(stop.value) && known.Height() < stop.value.Height() <= tip.Height()
                then stop.value.Height() else tip.Height();
    if last - known.Height() > maxEntries then maxEntries else last - known.Height()
  }

  /** The located blocks end with the stop block when it comes after the known one on the main chain and
      with the tip otherwise, unless there would be too many. */
  lemma LocatedRange(tip: BlockNode, known: BlockNode, stop: Option<BlockNode>, maxEntries: nat)
    requires tip.Extends(known)
    ensures var last := known.Height() + InventoryCount(tip, known, stop, maxEntries);
            && known.Height() <= last <= tip.Height() && last - known.Height() <= maxEntries
            && (last - known.Height() < maxEntries ==>
                  if stop.Some? && tip.Extends(stop.value) && stop.value != known && stop.value.Extends(known)
                  then tip.AncestorAt(last) == stop else last == tip.Height())
            && (stop.Some? && tip.Extends(stop.value) && stop.value != known && stop.value.Extends(known) ==>
                  last <= stop.value.Height())
  {
    ExtendsIffAncestorAt(tip, known);
    if known.Height() == tip.Height() {
      AncestorHeight(tip, tip.Height());
    }
    if stop.Some? && tip.Extends(stop.value) {
      ExtendsIffAncestorAt(tip, stop.value);
      ExtendsIffAncestorAt(stop.value, known);
      if known.Height() < stop.value.Height() {
        ExtendsLinear(tip, known, stop.value);
      }
    }
  }

  // The shape of a block locator.

  /** How far below the head entry k lies, before stopping at the genesis block. */
  function LocatorOffset(k: nat): nat {
    if k <= 10 then k else 9 + Pow2(k - 10)
  }

  function LocatorHeight(height: nat, k: nat): nat {
    if LocatorOffset(k) >= height then 0 else height - LocatorOffset(k)
  }

  /** One entry per block up to height 12, logarithmically many above. */
  ghost function LocatorCount(height: nat): nat {
    if height <= 12 then height + 1 else 12 + Log2Floor(height - 10)
  }

  /** The number of entries a locator will have, from the 32-bit height. */
  method MaxLocatorEntries(height: nat) returns (maxEntries: nat)
    ensures height < 0x1_0000_0000 ==> maxEntries == LocatorCount(height)
  {
    hide Pow2, Log2Floor;
    if height <= 12 {
      maxEntries := height + 1;
    } else {
      var adjustedHeight := (height % 0x1_0000_0000 - 10) % 0x1_0000_0000;
      var log := FastLog2Floor(adjustedHeight);
      if height < 0x1_0000_0000 {
        Log2FloorUnique(height - 10, log);
      }
      maxEntries := 12 + log;
    }
  }

  /** Distance between entries k and k + 1. */
  function LocatorStep(k: nat): nat {
    if k <= 10 then 1 else Pow2(k - 10)
  }

  ghost predicate IsLocatorPrefix(locator: seq<Hash>, node: BlockNode) {
    forall k :: 0 <= k < |locator| ==>
      var a := node.AncestorAt(LocatorHeight(node.Height(), k));
      a.Some? && locator[k] == a.value.hash
  }

  /** The locator has exactly the promised number of entries, at the promised heights. */
  ghost predicate IsLocatorOf(locator: seq<Hash>, node: BlockNode) {
    |locator| == LocatorCount(node.Height()) && IsLocatorPrefix(locator, node)
  }

  lemma NoLocator(node: BlockNode)
    ensures IsLocatorPrefix([], node)
  {}

  lemma LocatorMore(locator: seq<Hash>, node: BlockNode)
    requires IsLocatorPrefix(locator, node)
    requires node.AncestorAt(LocatorHeight(node.Height(), |locator|)).Some?
    ensures IsLocatorPrefix(locator + [node.AncestorAt(LocatorHeight(node.Height(), |locator|)).value.hash], node)
  {
    hide BlockNode.AncestorAt, BlockNode.Height, LocatorHeight;
  }

  lemma LocatorEnds(height: nat, k: nat)
    requires k < LocatorCount(height)
    ensures LocatorHeight(height, k) == 0 <==> k == LocatorCount(height) - 1
  {
    hide LocatorHeight, LocatorCount;
    LocatorReachesGenesis(height);
  }

  lemma LocatorStart(height: nat)
    ensures LocatorHeight(height, 0) == height && LocatorStep(0) == 1 && LocatorCount(height) > 0
  {}

  lemma LocatorNext(height: nat, k: nat)
    requires LocatorHeight(height, k) > 0
    ensures LocatorOffset(k + 1) == LocatorOffset(k) + LocatorStep(k)
    ensures LocatorStep(k + 1) == if k + 1 > 10 then 2 * LocatorStep(k) else LocatorStep(k)
    ensures LocatorHeight(height, k + 1)
         == if LocatorHeight(height, k) - LocatorStep(k) < 0 then 0 else LocatorHeight(height, k) - LocatorStep(k)
  {
    assert Pow2(0) == 1 && Pow2(1) == 2;
  }

  /** The first twelve entries are neighbours; from then on each distance is twice the one before. */
  lemma LocatorDistances(k: nat)
    ensures LocatorOffset(0) == 0
    ensures k < 11 ==> LocatorOffset(k + 1) == LocatorOffset(k) + 1
    ensures k >= 11 ==> LocatorOffset(k + 1) - LocatorOffset(k) == 2 * (LocatorOffset(k) - LocatorOffset(k - 1))
  {
    assert Pow2(0) == 1 && Pow2(1) == 2;
  }

  /** The locator the documentation gives for a block at height 17. */
  lemma DocumentedLocator()
    ensures LocatorCount(17) == 14
    ensures seq(14, k requires k >= 0 => LocatorHeight(17, k)) == [17, 16, 15, 14, 13, 12, 11, 10, 9, 8, 7, 6, 4, 0]
  {
    assert Pow2(1) == 2 && Pow2(2) == 4 && Pow2(3) == 8;
    Log2FloorUnique(7, 2);
  }

  lemma {:induction false} OffsetMonotone(j: nat, k: nat)
    requires j < k
    ensures LocatorOffset(j) < LocatorOffset(k)
  {
    if j + 1 < k {
      OffsetMonotone(j, k - 1);
    }
  }

  /** The heights in a locator fall strictly, and only the last entry is the genesis block. */
  lemma LocatorReachesGenesis(height: nat)
    ensures LocatorHeight(height, LocatorCount(height) - 1) == 0
    ensures forall k :: 0 <= k < LocatorCount(height) - 1 ==> LocatorHeight(height, k) > 0
    ensures forall j, k :: 0 <= j < k < LocatorCount(height) ==> LocatorHeight(height, j) > LocatorHeight(height, k)
  {
    var last := LocatorCount(height) - 1;
    if height > 12 {
      var r := Log2Floor(height - 10);
      assert Pow2(1) == 2;
      assert LocatorOffset(last) == 9 + Pow2(r + 1);
      assert LocatorOffset(last - 1) == 9 + Pow2(r);
    } else if height == 12 {
      assert Pow2(2) == 4 && Pow2(1) == 2;
    }
    forall k | 0 <= k < last ensures LocatorOffset(k) < height {
      if k < last - 1 { OffsetMonotone(k, last - 1); }
    }
    forall j, k | 0 <= j < k <= last ensures LocatorHeight(height, j) > LocatorHeight(height, k) {
      OffsetMonotone(j, k);
    }
  }

  /** When the fork with a peer is d blocks below its locator head, the first entry at or below the
      fork is at most 2d below the head. */
  lemma FirstEntryWithinTwice(height: nat, d: nat) returns (k: nat)
    requires d <= height
    ensures k < LocatorCount(height)
    ensures d <= height - LocatorHeight(height, k) <= 2 * d
    ensures forall j :: 0 <= j < k ==> height - LocatorHeight(height, j) < d
  {
    LocatorReachesGenesis(height);
    k := 0;
    while height - LocatorHeight(height, k) < d
      invariant k < LocatorCount(height)
      invariant forall j :: 0 <= j < k ==> height - LocatorHeight(height, j) < d
      decreases LocatorCount(height) - k
    {
      k := k + 1;
    }
    if k > 0 {
      assert height - LocatorHeight(height, k - 1) < d;
    }
  }

  /** A node asking with a locator of `peer` restarts at most twice as far back as necessary: the
      first known entry is an ancestor of the fork block at most 2d below the peer's head. */
  lemma LocatorRestart(index: map<Hash, BlockNode>, tip: BlockNode, peer: BlockNode, locator: seq<Hash>)
    requires IsLocatorOf(locator, peer) && tip.Genesis() == peer.Genesis()
    requires forall a: BlockNode :: tip.Extends(a) ==> a.hash in index && index[a.hash] == a
    requires forall a: BlockNode :: peer.Extends(a) && a.hash in index ==> index[a.hash] == a
    ensures ForkPoint(tip, peer).Some?
    ensures var fork := ForkPoint(tip, peer).value;
            var known := FirstKnown(index, tip, locator);
            && fork.Extends(known)
            && peer.Height() - known.Height() <= 2 * (peer.Height() - fork.Height())
  {
    ForkPointIsHighest(tip, peer);
    var fork := ForkPoint(tip, peer).value;
    ExtendsIffAncestorAt(peer, fork);
    var k := FirstEntryWithinTwice(peer.Height(), peer.Height() - fork.Height());
    forall j | 0 <= j <= k
      ensures var a := peer.AncestorAt(LocatorHeight(peer.Height(), j)).value;
              peer.Extends(a) && a.Height() == LocatorHeight(peer.Height(), j) && (tip.Extends(a) <==> j == k)
    {
      var h := LocatorHeight(peer.Height(), j);
      AncestorHeight(peer, h);
      var a := peer.AncestorAt(h).value;
      if j == k {
        ExtendsLinear(peer, a, fork);
        ExtendsTransitive(tip, fork, a);
      } else if tip.Extends(a) {
        assert fork.Extends(a);
        ExtendsIffAncestorAt(fork, a);
      }
    }
    var a := peer.AncestorAt(LocatorHeight(peer.Height(), k)).value;
    FirstKnownAt(index, tip, locator, k);
    assert FirstKnown(index, tip, locator) == a;
  }

  lemma {:induction false} FirstKnownAt(index: map<Hash, BlockNode>, tip: BlockNode, locator: seq<Hash>, k: nat)
    requires k < |locator|
    requires locator[k] in index && tip.Extends(index[locator[k]])
    requires forall j :: 0 <= j < k ==> !(locator[j] in index && tip.Extends(index[locator[j]]))
    ensures FirstKnown(index, tip, locator) == index[locator[k]]
  {
    if k > 0 {
      FirstKnownAt(index, tip, locator[1..], k - 1);
    }
  }
}
