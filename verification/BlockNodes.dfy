/** The nodes of the block index (blockchain/blockindex.go) and walks along their parents. */
module BlockNodes {
  import opened Wrappers
  import opened Transactions

  datatype Vote = Vote(version: nat, bits: bv16)

  /** The work a proof of work target is worth; always positive. */
  type Work = x: int | x > 0 witness 1

  /** A block node is immutable apart from its status and prunable stake data, which the owners of
      those fields keep in maps keyed by the node.  The node carries its block, so loading a block
      by node is reading that field. */
  datatype BlockNode = BlockNode(
    parent: Option<BlockNode>,
    hash: Hash,
    work: Work,
    target: int,
    timestamp: int,
    blockVersion: int,
    stakeVersion: nat,
    votes: seq<Vote>,
    freshStake: nat,
    poolSize: nat,
    sbits: int,
    block: Block)
  {
    function Height(): nat {
      match parent
      case None => 0
      case Some(p) => 1 + p.Height()
    }

    function WorkSum(): nat {
      match parent
      case None => work
      case Some(p) => p.WorkSum() + work
    }

    function Genesis(): BlockNode {
      match parent
      case None => this
      case Some(p) => p.Genesis()
    }

    /** The ancestor at the given height, by following parents. */
    function AncestorAt(height: int): Option<BlockNode> {
      if height < 0 || height > Height() then None
      else if height == Height() then Some(this)
      else parent.value.AncestorAt(height)
    }

    /** `a` is this node or one of its ancestors. */
    predicate Extends(a: BlockNode) {
      this == a || (parent.Some? && parent.value.Extends(a))
    }
  }

  method Ancestor(node: BlockNode, height: int) returns (r: Option<BlockNode>)
    ensures r == node.AncestorAt(height)
  {
    if height < 0 || height > node.Height() {
      return None;
    }
    r := Some(node);
    while r.Some? && r.value.Height() != height
      invariant r.Some? && r.value.Height() >= height
      invariant r.value.AncestorAt(height) == node.AncestorAt(height)
      decreases r
    {
      r := r.value.parent;
    }
  }

  method RelativeAncestor(node: BlockNode, distance: int) returns (r: Option<BlockNode>)
    ensures r == node.AncestorAt(node.Height() - distance)
  {
    r := Ancestor(node, node.Height() - distance);
  }

  lemma {:induction false} AncestorHeight(n: BlockNode, h: nat)
    requires h <= n.Height()
    ensures n.AncestorAt(h).Some? && n.AncestorAt(h).value.Height() == h
    ensures n.Extends(n.AncestorAt(h).value)
  {
    if h < n.Height() {
      AncestorHeight(n.parent.value, h);
    }
  }

  lemma HeightOf(n: BlockNode)
    ensures n.Height() == if n.parent.Some? then n.parent.value.Height() + 1 else 0
  {}

  /** Walking back in two stages is walking back once. */
  lemma {:induction false} AncestorCompose(n: BlockNode, h: nat, k: int)
    requires h <= n.Height() && k <= h
    ensures n.AncestorAt(h).Some? && n.AncestorAt(k) == n.AncestorAt(h).value.AncestorAt(k)
  {
    AncestorHeight(n, h);
    if h < n.Height() {
      AncestorCompose(n.parent.value, h, k);
    }
  }

  /** Being an ancestor is being found at one's own height. */
  lemma {:induction false} ExtendsIffAncestorAt(n: BlockNode, a: BlockNode)
    ensures n.Extends(a) <==> n.AncestorAt(a.Height()) == Some(a)
    ensures n.Extends(a) ==> a.Height() <= n.Height() && a.WorkSum() <= n.WorkSum()
  {
    if n != a {
      if n.parent.Some? {
        ExtendsIffAncestorAt(n.parent.value, a);
        if a.Height() <= n.Height() {
          AncestorHeight(n, a.Height());
        }
      }
    }
  }

  lemma {:induction false} ExtendsTransitive(n: BlockNode, a: BlockNode, b: BlockNode)
    requires n.Extends(a) && a.Extends(b)
    ensures n.Extends(b)
  {
    if n != a {
      ExtendsTransitive(n.parent.value, a, b);
    }
  }

  /** Two ancestors of one node lie on one line. */
  lemma {:induction false} ExtendsLinear(n: BlockNode, a: BlockNode, b: BlockNode)
    requires n.Extends(a) && n.Extends(b) && a.Height() <= b.Height()
    ensures b.Extends(a)
  {
    ExtendsIffAncestorAt(n, a);
    ExtendsIffAncestorAt(n, b);
    AncestorCompose(n, b.Height(), a.Height());
    ExtendsIffAncestorAt(b, a);
  }

  lemma {:induction false} ExtendsGenesis(n: BlockNode)
    ensures n.Extends(n.Genesis()) && n.Genesis().parent.None? && n.AncestorAt(0) == Some(n.Genesis())
  {
    if n.parent.Some? {
      ExtendsGenesis(n.parent.value);
    }
  }

  /** The last block of `node`'s branch that is also on the branch ending in `tip`. */
  function ForkPoint(tip: BlockNode, node: BlockNode): Option<BlockNode>
    decreases node
  {
    if tip.Extends(node) then Some(node)
    else if node.parent.None? then None
    else ForkPoint(tip, node.parent.value)
  }

  /** The fork point is the highest common ancestor, and exists when both share a genesis block. */
  lemma {:induction false} ForkPointIsHighest(tip: BlockNode, node: BlockNode)
    ensures var f := ForkPoint(tip, node);
            && (tip.Genesis() == node.Genesis() ==> f.Some?)
            && (f.Some? ==> tip.Extends(f.value) && node.Extends(f.value))
            && forall a: BlockNode :: tip.Extends(a) && node.Extends(a) ==> f.Some? && f.value.Extends(a)
  {
    ExtendsGenesis(tip);
    if !tip.Extends(node) && node.parent.Some? {
      ForkPointIsHighest(tip, node.parent.value);
    }
  }

  /** The nodes after `fork` up to and including `node`, oldest first. */
  function AttachPath(fork: BlockNode, node: BlockNode): seq<BlockNode>
    requires node.Extends(fork)
    decreases node
  {
    if node == fork then [] else AttachPath(fork, node.parent.value) + [node]
  }

  /** Position i of an attach path is the ancestor i+1 blocks above the fork. */
  lemma {:induction false} AttachPathAt(fork: BlockNode, node: BlockNode, i: nat)
    requires node.Extends(fork) && i < |AttachPath(fork, node)|
    ensures |AttachPath(fork, node)| == node.Height() - fork.Height()
    ensures node.AncestorAt(fork.Height() + 1 + i) == Some(AttachPath(fork, node)[i])
    ensures AttachPath(fork, node)[i].parent ==
            Some(if i == 0 then fork else AttachPath(fork, node)[i - 1])
    ensures node.Extends(AttachPath(fork, node)[i])
    ensures AttachPath(fork, node)[i].Extends(fork)
    ensures !fork.Extends(AttachPath(fork, node)[i])
  {
    var p := node.parent.value;
    AttachPathLength(fork, node);
    if i == |AttachPath(fork, node)| - 1 {
      if i > 0 {
        AttachPathAt(fork, p, i - 1);
      }
      ExtendsIffAncestorAt(fork, node);
    } else {
      AttachPathAt(fork, p, i);
    }
  }

  lemma {:induction false} AttachPathLength(fork: BlockNode, node: BlockNode)
    requires node.Extends(fork)
    ensures |AttachPath(fork, node)| == node.Height() - fork.Height()
    ensures AttachPath(fork, node) == [] <==> node == fork
  {
    if node != fork {
      AttachPathLength(fork, node.parent.value);
    }
  }

  /** Walk back from `node` to the fork, filling the list from back to front. */
  method CollectAttach(fork: BlockNode, node: BlockNode) returns (attachNodes: seq<BlockNode>)
    requires node.Extends(fork)
    ensures attachNodes == AttachPath(fork, node)
  {
    attachNodes := [];
    var n := node;
    while n != fork
      invariant n.Extends(fork)
      invariant AttachPath(fork, n) + attachNodes == AttachPath(fork, node)
      decreases n
    {
      attachNodes := [n] + attachNodes;
      n := n.parent.value;
    }
  }
}
