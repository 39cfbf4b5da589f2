/** The block index (blockchain/blockindex.go): all known nodes by hash, their validation status and
    the tips of all branches. */
module BlockIndexes {
  import opened Wrappers
  import opened Transactions
  import opened BlockNodes
  import opened UtxoState

  datatype Status = Status(dataStored: bool, valid: bool, validateFailed: bool, invalidAncestor: bool)
  {
    predicate KnownInvalid() {
      validateFailed || invalidAncestor
    }

    /** Setting flags never clears one. */
    function With(flags: Status): Status {
      Status(dataStored || flags.dataStored, valid || flags.valid,
             validateFailed || flags.validateFailed, invalidAncestor || flags.invalidAncestor)
    }
  }

  const DATA_STORED := Status(true, false, false, false)
  const VALID := Status(false, true, false, false)
  const VALIDATE_FAILED := Status(false, false, true, false)
  const INVALID_ANCESTOR := Status(false, false, false, true)

  type Statuses = map<BlockNode, Status>
  type ChainTips = map<nat, seq<BlockNode>>

  // The tree of nodes.

  predicate Known(index: map<Hash, BlockNode>, n: BlockNode) {
    n.hash in index && index[n.hash] == n
  }

  /** Nodes are filed under their hash together with all their ancestors, down to one genesis block. */
  ghost predicate TreeOk(index: map<Hash, BlockNode>, genesis: BlockNode) {
    && genesis.parent.None? && Known(index, genesis)
    && forall h :: h in index ==>
         index[h].hash == h
           && (if index[h].parent.None? then index[h] == genesis else Known(index, index[h].parent.value))
  }

  lemma {:induction false} AncestorsKnown(index: map<Hash, BlockNode>, genesis: BlockNode, n: BlockNode, a: BlockNode)
    requires TreeOk(index, genesis) && Known(index, n) && n.Extends(a)
    ensures Known(index, a) && n.Genesis() == genesis
  {
    if n != a {
      AncestorsKnown(index, genesis, n.parent.value, a);
    } else if n.parent.Some? {
      ExtendsGenesis(n.parent.value);
      AncestorsKnown(index, genesis, n.parent.value, n.parent.value);
    }
  }

  // Chain tips.

  ghost predicate Childless(index: map<Hash, BlockNode>, n: BlockNode) {
    forall h :: h in index ==> index[h].parent != Some(n)
  }

  predicate Distinct(s: seq<BlockNode>) {
    forall i, j :: 0 <= i < j < |s| ==> s[i] != s[j]
  }

  ghost predicate IsTip(index: map<Hash, BlockNode>, n: BlockNode) {
    Known(index, n) && Childless(index, n)
  }

  ghost predicate TipList(index: map<Hash, BlockNode>, height: nat, list: seq<BlockNode>, except: set<BlockNode>) {
    && list != [] && Distinct(list)
    && forall n :: n in list ==> n.Height() == height && (n in except || IsTip(index, n))
  }

  predicate Listed(tips: ChainTips, n: BlockNode) {
    n.Height() in tips && n in tips[n.Height()]
  }

  /** The chain tips by height, apart from `except`: exactly the known nodes without children, each
      once, and no empty lists. */
  ghost predicate TipsAre(index: map<Hash, BlockNode>, tips: ChainTips, except: set<BlockNode>) {
    && (forall h :: h in tips ==> TipList(index, h, tips[h], except))
    && (forall n :: IsTip(index, n) && n !in except ==> Listed(tips, n))
  }

  lemma ChildlessAfter(index: map<Hash, BlockNode>, genesis: BlockNode, node: BlockNode, n: BlockNode)
    requires TreeOk(index, genesis) && node.hash !in index && node.parent.Some?
    ensures Childless(index[node.hash := node], n) <==> Childless(index, n) && Some(n) != node.parent
    ensures Childless(index[node.hash := node], node)
  {
    var after := index[node.hash := node];
    assert after[node.hash] == node;
    assert forall h :: h in index ==> after[h] == index[h];
    if !Childless(index, n) {
      var h :| h in index && index[h].parent == Some(n);
      assert after[h].parent == Some(n);
    }
    forall h | h in after ensures after[h].parent != Some(node) {
      if h != node.hash {
        assert after[h] == index[h] && (index[h].parent.Some? ==> Known(index, index[h].parent.value));
      }
    }
  }

  // Validation status.

  /** Exactly the known nodes have a status. */
  ghost predicate StatusFor(index: map<Hash, BlockNode>, status: Statuses) {
    forall n :: n in status <==> Known(index, n)
  }

  /** The node or one of its ancestors has failed validation. */
  ghost predicate HasFailed(status: Statuses, n: BlockNode) {
    exists a :: a in status && status[a].validateFailed && n.Extends(a)
  }

  ghost predicate NodeFlagsOk(status: Statuses, n: BlockNode)
    requires n in status
  {
    && status[n].dataStored
    && (n.parent.None? ==> status[n].valid)
    && (n.parent.Some? ==> n.parent.value in status)
    && (status[n].valid ==> ValidChain(n) && !status[n].KnownInvalid())
    && (status[n].valid && n.parent.Some? ==> status[n.parent.value].valid)
    && (status[n].invalidAncestor ==> n.parent.Some? && HasFailed(status, n.parent.value))
  }

  /** A block marked valid is valid with all its ancestors and not marked invalid; a block is only
      marked as having an invalid ancestor when an ancestor has failed validation. */
  ghost predicate FlagsOk(status: Statuses) {
    forall n :: n in status ==> NodeFlagsOk(status, n)
  }

  lemma {:induction false} ValidAncestors(status: Statuses, n: BlockNode, a: BlockNode)
    requires FlagsOk(status) && n in status && n.Extends(a)
    ensures a in status && (status[n].valid ==> status[a].valid)
  {
    hide ValidChain, HasFailed;
    assert NodeFlagsOk(status, n);
    if n != a {
      ValidAncestors(status, n.parent.value, a);
    }
  }

  /** What has a failed ancestor is not marked valid. */
  lemma FailedIsNotValid(status: Statuses, n: BlockNode)
    requires FlagsOk(status) && n in status && HasFailed(status, n)
    ensures !status[n].valid
  {
    var a :| a in status && status[a].validateFailed && n.Extends(a);
    ValidAncestors(status, n, a);
    assert NodeFlagsOk(status, a);
  }

  lemma HasFailedBelow(status: Statuses, n: BlockNode, a: BlockNode)
    requires n.Extends(a) && HasFailed(status, a)
    ensures HasFailed(status, n)
  {
    var f :| f in status && status[f].validateFailed && a.Extends(f);
    ExtendsTransitive(n, a, f);
  }

  /** What is known to be invalid has failed itself or has a failed ancestor. */
  lemma InvalidHasFailed(status: Statuses, n: BlockNode)
    requires FlagsOk(status) && n in status && status[n].KnownInvalid()
    ensures HasFailed(status, n)
  {
    assert NodeFlagsOk(status, n);
    if !status[n].validateFailed {
      HasFailedBelow(status, n, n.parent.value);
    }
  }

  /** Flags are only ever added. */
  ghost predicate Grows(before: Statuses, after: Statuses) {
    && before.Keys == after.Keys
    && forall n :: n in before ==> after[n] == before[n].With(after[n])
  }

  lemma FailedGrows(before: Statuses, after: Statuses, n: BlockNode)
    requires Grows(before, after) && HasFailed(before, n)
    ensures HasFailed(after, n)
  {
    var a :| a in before && before[a].validateFailed && n.Extends(a);
    assert after[a] == before[a].With(after[a]);
  }

  lemma GrowsTwice(a: Statuses, b: Statuses, c: Statuses)
    requires Grows(a, b) && Grows(b, c)
    ensures Grows(a, c)
  {
    forall n | n in a ensures c[n] == a[n].With(c[n]) {
      assert b[n] == a[n].With(b[n]) && c[n] == b[n].With(c[n]);
    }
  }

  /** Which flags may be set on which nodes. */
  ghost predicate MayMark(status: Statuses, n: BlockNode, flags: Status)
    requires n in status
  {
    || (flags == VALID && !status[n].KnownInvalid() && ValidChain(n)
        && n.parent.Some? && n.parent.value in status && status[n.parent.value].valid)
    || (flags == VALIDATE_FAILED && !status[n].valid)
    || (flags == INVALID_ANCESTOR && n.parent.Some? && HasFailed(status, n.parent.value))
  }

  lemma MarkKeepsFlags(status: Statuses, n: BlockNode, flags: Status)
    requires FlagsOk(status) && n in status && MayMark(status, n, flags)
    ensures FlagsOk(status[n := status[n].With(flags)])
    ensures Grows(status, status[n := status[n].With(flags)])
  {
    hide ValidChain, HasFailed;
    var after := status[n := status[n].With(flags)];
    assert Grows(status, after);
    assert NodeFlagsOk(status, n);
    if flags == INVALID_ANCESTOR {
      HasFailedBelow(status, n, n.parent.value);
      FailedIsNotValid(status, n);
    }
    forall m | m in after ensures NodeFlagsOk(after, m) {
      assert NodeFlagsOk(status, m);
      if after[m].invalidAncestor {
        FailedGrows(status, after, m.parent.value);
      }
    }
  }

  /** No known block without a failed block on its branch has more work than the tip. */
  ghost predicate BestIs(status: Statuses, tip: BlockNode) {
    forall n :: n in status && !HasFailed(status, n) ==> n.WorkSum() <= tip.WorkSum()
  }

  class BlockIndex {
    const genesis: BlockNode
    var index: map<Hash, BlockNode>
    var status: Statuses
    var chainTips: ChainTips

    ghost predicate Valid()
      reads this
    {
      && TreeOk(index, genesis) && TipsAre(index, chainTips, {})
      && StatusFor(index, status)
      && FlagsOk(status)
    }

    /** A new chain starts with its genesis block, stored and valid. */
    constructor (genesis: BlockNode)
      requires genesis.parent.None?
      ensures Valid() && this.genesis == genesis
      ensures index == map[genesis.hash := genesis] && status == map[genesis := DATA_STORED.With(VALID)]
    {
      this.genesis := genesis;
      index := map[genesis.hash := genesis];
      status := map[genesis := DATA_STORED.With(VALID)];
      chainTips := map[0 := [genesis]];
    }

    method LookupNode(hash: Hash) returns (node: Option<BlockNode>)
      ensures node == if hash in index then Some(index[hash]) else None
    {
      node := if hash in index then Some(index[hash]) else None;
    }

    method HaveBlock(hash: Hash) returns (have: bool)
      requires Valid()
      ensures have <==> hash in index
    {
      hide TreeOk, TipsAre, HasFailed, ValidChain;
      have := false;
      if hash in index {
        KnownStatus(hash);
        assert NodeFlagsOk(status, index[hash]);
        have := status[index[hash]].dataStored;
      }
    }

    lemma KnownStatus(hash: Hash)
      requires Valid() && hash in index
      ensures index[hash] in status && FlagsOk(status)
    {
      hide TipsAre, FlagsOk;
      assert Known(index, index[hash]);
    }

    method AddChainTip(tip: BlockNode)
      modifies this`chainTips
      ensures chainTips == WithTip(old(chainTips), tip)
    {
      var h := tip.Height();
      chainTips := chainTips[h := (if h in chainTips then chainTips[h] else []) + [tip]];
    }

    /** Take one occurrence of the node off its list, and the list with it when it was the last. */
    method RemoveChainTip(tip: BlockNode)
      requires tip.Height() in chainTips ==> Distinct(chainTips[tip.Height()])
      modifies this`chainTips
      ensures TipTaken(old(chainTips), chainTips, tip)
    {
      var h := tip.Height();
      var nodes := if h in chainTips then chainTips[h] else [];
      ghost var before := nodes;
      var i := 0;
      while i < |nodes|
        invariant 0 <= i <= |nodes| && nodes == before
        invariant forall k :: 0 <= k < i ==> nodes[k] != tip
      {
        if nodes[i] == tip {
          nodes := nodes[..i] + nodes[i + 1..];
          RemovedAt(before, i);
          break;
        }
        i := i + 1;
      }
      if |nodes| == 0 {
        chainTips := chainTips - {h};
      } else {
        chainTips := chainTips[h := nodes];
      }
    }

    /** File a new node; its parent is no longer a tip. */
    method AddNode(node: BlockNode)
      requires Valid() && node.hash !in index && node.parent.Some? && Known(index, node.parent.value)
      modifies this
      ensures Valid() && index == old(index)[node.hash := node]
      ensures status == old(status)[node := DATA_STORED]
    {
      hide FlagsOk, TreeOk, TipsAre, Known, Childless, TipTaken, WithTip, Distinct;
      ghost var before := index;
      TreeGrows(index, genesis, node);
      AddedTip(index, genesis, chainTips, node);
      index := index[node.hash := node];
      AddChainTip(node);
      ghost var tips := chainTips;
      TipDistinct(index, chainTips, {node.parent.value}, node.parent.value.Height());
      RemoveChainTip(node.parent.value);
      RemovedTip(index, tips, chainTips, node.parent.value);
      StatusGrows(before, status, node);
      status := status[node := DATA_STORED];
    }

    method SetStatusFlags(node: BlockNode, flags: Status)
      requires Valid() && node in status && MayMark(status, node, flags)
      modifies this`status
      ensures Valid() && status == old(status)[node := old(status)[node].With(flags)]
      ensures Grows(old(status), status)
    {
      hide FlagsOk, TreeOk, TipsAre, Known, MayMark, Grows;
      MarkKeepsFlags(status, node, flags);
      status := status[node := status[node].With(flags)];
    }
  }

  lemma RemovedAt(s: seq<BlockNode>, i: nat)
    requires Distinct(s) && i < |s|
    ensures var r := s[..i] + s[i + 1..];
            Distinct(r) && forall n :: n in r <==> n in s && n != s[i]
  {
    var r := s[..i] + s[i + 1..];
    assert forall k :: 0 <= k < |r| ==> r[k] == if k < i then s[k] else s[k + 1];
    forall n | n in s && n != s[i] ensures n in r {
      var k :| 0 <= k < |s| && s[k] == n;
      assert r[if k < i then k else k - 1] == n;
    }
  }

  lemma TreeGrows(index: map<Hash, BlockNode>, genesis: BlockNode, node: BlockNode)
    requires TreeOk(index, genesis) && node.hash !in index && node.parent.Some? && Known(index, node.parent.value)
    ensures TreeOk(index[node.hash := node], genesis)
    ensures forall n :: Known(index[node.hash := node], n) <==> Known(index, n) || n == node
  {}

  lemma NewNode(index: map<Hash, BlockNode>, tips: ChainTips, node: BlockNode)
    requires TipsAre(index, tips, {}) && node.hash !in index
    ensures node.Height() in tips ==> node !in tips[node.Height()]
  {
    hide Childless, Distinct;
    if node.Height() in tips {
      assert TipList(index, node.Height(), tips[node.Height()], {});
      assert !IsTip(index, node);
    }
  }

  function WithTip(tips: ChainTips, n: BlockNode): ChainTips {
    tips[n.Height() := (if n.Height() in tips then tips[n.Height()] else []) + [n]]
  }

  /** With the new node among the tips, only its parent may be out of place. */
  lemma AddedTip(index: map<Hash, BlockNode>, genesis: BlockNode, tips: ChainTips, node: BlockNode)
    requires TreeOk(index, genesis) && TipsAre(index, tips, {}) && node.hash !in index
    requires node.parent.Some? && Known(index, node.parent.value)
    ensures TipsAre(index[node.hash := node], WithTip(tips, node), {node.parent.value})
    ensures !Childless(index[node.hash := node], node.parent.value)
  {
    hide Childless, TreeOk, Distinct;
    var after, p := index[node.hash := node], node.parent.value;
    TreeGrows(index, genesis, node);
    NewNode(index, tips, node);
    forall n ensures IsTip(after, n) <==> (IsTip(index, n) && n != p) || n == node {
      ChildlessAfter(index, genesis, node, n);
    }
    ParentHasChild(after, node);
    forall h | h in WithTip(tips, node) ensures TipList(after, h, WithTip(tips, node)[h], {p}) {
      if h in tips {
        assert TipList(index, h, tips[h], {});
      }
      if h == node.Height() {
        DistinctSnoc(if h in tips then tips[h] else [], node);
      }
    }
  }

  lemma ParentHasChild(index: map<Hash, BlockNode>, node: BlockNode)
    requires Known(index, node) && node.parent.Some?
    ensures !Childless(index, node.parent.value)
  {
    assert index[node.hash].parent == Some(node.parent.value);
  }

  lemma DistinctSnoc(s: seq<BlockNode>, n: BlockNode)
    requires n !in s && (s != [] ==> Distinct(s))
    ensures Distinct(s + [n])
  {}

  ghost predicate TipTaken(tips: ChainTips, after: ChainTips, p: BlockNode) {
    && (forall h :: h in after ==> h in tips)
    && (forall h :: h in tips && h != p.Height() ==> h in after && after[h] == tips[h])
    && (p.Height() in tips ==>
          forall n :: (p.Height() in after && n in after[p.Height()]) <==> n in tips[p.Height()] && n != p)
    && (p.Height() in after ==> after[p.Height()] != [] && Distinct(after[p.Height()]))
  }

  lemma RemovedTip(index: map<Hash, BlockNode>, tips: ChainTips, after: ChainTips, p: BlockNode)
    requires TipsAre(index, tips, {p}) && !Childless(index, p) && TipTaken(tips, after, p)
    ensures TipsAre(index, after, {})
  {
    hide Childless, Known, Distinct;
    forall h | h in after ensures TipList(index, h, after[h], {}) {
      assert TipList(index, h, tips[h], {p});
    }
    forall n | IsTip(index, n) ensures Listed(after, n) {
      assert Listed(tips, n);
    }
  }

  lemma TipDistinct(index: map<Hash, BlockNode>, tips: ChainTips, except: set<BlockNode>, h: nat)
    requires TipsAre(index, tips, except)
    ensures h in tips ==> Distinct(tips[h])
  {
    if h in tips {
      assert TipList(index, h, tips[h], except);
    }
  }

  lemma StatusGrows(index: map<Hash, BlockNode>, status: Statuses, node: BlockNode)
    requires node.hash !in index && node.parent.Some? && Known(index, node.parent.value)
    requires FlagsOk(status) && StatusFor(index, status)
    ensures FlagsOk(status[node := DATA_STORED])
    ensures StatusFor(index[node.hash := node], status[node := DATA_STORED])
  {
    hide ValidChain, HasFailed;
    var after := status[node := DATA_STORED];
    forall n | n in after ensures NodeFlagsOk(after, n) {
      if n != node {
        assert NodeFlagsOk(status, n);
        if status[n].invalidAncestor {
          FailedKept(status, node, n.parent.value);
        }
      }
    }
  }

  lemma FailedKept(status: Statuses, node: BlockNode, n: BlockNode)
    requires node !in status
    ensures HasFailed(status, n) <==> HasFailed(status[node := DATA_STORED], n)
  {
    var after := status[node := DATA_STORED];
    if HasFailed(status, n) {
      var a :| a in status && status[a].validateFailed && n.Extends(a);
      assert a in after && after[a].validateFailed;
    }
    if HasFailed(after, n) {
      var a :| a in after && after[a].validateFailed && n.Extends(a);
      assert a in status && status[a].validateFailed;
    }
  }
}
