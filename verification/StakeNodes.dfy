/** Reconstruction of pruned ticket-pool state along the block tree (blockchain/stakenode.go). */
module StakeNodes {
  import opened Wrappers
  import opened Transactions
  import opened BlockNodes

  datatype SpentTickets = SpentTickets(voted: seq<TxId>, revoked: seq<TxId>)

  function TicketsBought(stxs: seq<Tx>): seq<TxId> {
    if stxs == [] then [] else
    var rest := TicketsBought(stxs[..|stxs| - 1]);
    var last := stxs[|stxs| - 1].id;
    if last.txType == SStx then rest + [last] else rest
  }

  /** How many of the first j transactions are ticket purchases. */
  function TicketsUpTo(stxs: seq<Tx>, j: nat): nat {
    |set i | 0 <= i < j && i < |stxs| && stxs[i].id.txType == SStx|
  }

  /** The identifiers of the ticket purchases among the transactions, each at its place in order. */
  ghost predicate AreTicketsOf(tickets: seq<TxId>, stxs: seq<Tx>) {
    && |tickets| == TicketsUpTo(stxs, |stxs|)
    && forall j :: 0 <= j < |stxs| && stxs[j].id.txType == SStx ==>
         TicketsUpTo(stxs, j) < |tickets| && tickets[TicketsUpTo(stxs, j)] == stxs[j].id
  }

  predicate IsPurchase(stxs: seq<Tx>, j: int, id: TxId) {
    0 <= j < |stxs| && stxs[j].id == id && id.txType == SStx
  }

  lemma TicketsBoughtAre(stxs: seq<Tx>)
    ensures AreTicketsOf(TicketsBought(stxs), stxs)
    ensures forall id :: id in TicketsBought(stxs) <==> exists j :: IsPurchase(stxs, j, id)
  {
    TicketPlaces(stxs);
    forall id ensures id in TicketsBought(stxs) <==> exists j :: IsPurchase(stxs, j, id) {
      HasTicket(stxs, id);
    }
  }

  lemma {:induction false} HasTicket(stxs: seq<Tx>, id: TxId)
    ensures id in TicketsBought(stxs) <==> exists j :: IsPurchase(stxs, j, id)
  {
    if stxs != [] {
      var init, k := stxs[..|stxs| - 1], |stxs| - 1;
      HasTicket(init, id);
      if id in TicketsBought(init) {
        var j :| IsPurchase(init, j, id);
        assert IsPurchase(stxs, j, id);
      } else if exists j :: IsPurchase(stxs, j, id) {
        var j :| IsPurchase(stxs, j, id);
        assert j < k ==> IsPurchase(init, j, id);
      }
      if stxs[k].id == id && id.txType == SStx {
        assert IsPurchase(stxs, k, id);
      }
    }
  }

  lemma {:induction false} TicketPlaces(stxs: seq<Tx>)
    ensures AreTicketsOf(TicketsBought(stxs), stxs)
  {
    hide TicketsUpTo;
    if stxs == [] {
      NoTicketsUpTo(0);
    } else {
      var init, k := stxs[..|stxs| - 1], |stxs| - 1;
      TicketPlaces(init);
      SameUpTo(stxs, init, k);
      OneMoreTicket(stxs);
      forall j | 0 <= j < |stxs| && stxs[j].id.txType == SStx
        ensures TicketsUpTo(stxs, j) < |TicketsBought(stxs)| && TicketsBought(stxs)[TicketsUpTo(stxs, j)] == stxs[j].id
      {
        SameUpTo(stxs, init, j);
        if j < k {
          assert init[j] == stxs[j];
        }
      }
    }
  }

  lemma NoTicketsUpTo(j: nat)
    ensures TicketsUpTo([], j) == 0
  {
    var none: seq<Tx> := [];
    assert (set i | 0 <= i < j && i < |none| && none[i].id.txType == SStx) == {};
  }

  lemma SameUpTo(stxs: seq<Tx>, init: seq<Tx>, j: nat)
    requires j <= |init| <= |stxs| && init == stxs[..|init|]
    ensures TicketsUpTo(stxs, j) == TicketsUpTo(init, j)
  {
    assert (set i | 0 <= i < j && i < |stxs| && stxs[i].id.txType == SStx)
        == (set i | 0 <= i < j && i < |init| && init[i].id.txType == SStx);
  }

  lemma OneMoreTicket(stxs: seq<Tx>)
    requires stxs != []
    ensures TicketsUpTo(stxs, |stxs|) ==
      TicketsUpTo(stxs, |stxs| - 1) + (if stxs[|stxs| - 1].id.txType == SStx then 1 else 0)
  {
    var k := |stxs| - 1;
    var before := set i | 0 <= i < k && i < |stxs| && stxs[i].id.txType == SStx;
    var all := set i | 0 <= i < |stxs| && i < |stxs| && stxs[i].id.txType == SStx;
    assert all == if stxs[k].id.txType == SStx then before + {k} else before;
  }

  /** The prunable fields of the block nodes are maps from the nodes that have them loaded.  The
      ticket pool itself is an outside component: connecting a block and undoing it are parameters. */
  class StakeNodeCache<S(!new)> {
    var stakeNode: map<BlockNode, S>
    var newTickets: map<BlockNode, seq<TxId>>
    var spentTickets: map<BlockNode, SpentTickets>

    const stakeEnabledHeight: nat
    const ticketMaturity: nat
    const genesisState: S
    const connect: (S, BlockNode, SpentTickets, seq<TxId>) -> S
    const disconnect: (S, BlockNode) -> S
    const findSpentTickets: Block -> SpentTickets

    constructor (stakeEnabledHeight: nat, ticketMaturity: nat, genesis: BlockNode, genesisState: S,
                 connect: (S, BlockNode, SpentTickets, seq<TxId>) -> S,
                 disconnect: (S, BlockNode) -> S, findSpentTickets: Block -> SpentTickets)
      requires genesis.parent.None?
      ensures this.stakeEnabledHeight == stakeEnabledHeight && this.ticketMaturity == ticketMaturity
      ensures this.genesisState == genesisState && this.connect == connect
      ensures this.disconnect == disconnect && this.findSpentTickets == findSpentTickets
      ensures Coherent() && genesis in stakeNode
    {
      this.stakeEnabledHeight, this.ticketMaturity := stakeEnabledHeight, ticketMaturity;
      this.genesisState, this.connect := genesisState, connect;
      this.disconnect, this.findSpentTickets := disconnect, findSpentTickets;
      stakeNode, newTickets, spentTickets := map[genesis := genesisState], map[], map[];
    }

    /** The tickets maturing at a block are those bought a maturity period earlier. */
    function MaturingTickets(node: BlockNode): Option<seq<TxId>> {
      if node.Height() < stakeEnabledHeight then Some([]) else
      match node.AncestorAt(node.Height() - ticketMaturity)
      case None => None
      case Some(m) => Some(TicketsBought(m.block.stxs))
    }

    /** The state obtained by replaying every block from genesis; none when for some block of the branch
        there is no block in which its maturing tickets could have been bought. */
    ghost function Replay(node: BlockNode): Option<S>
      decreases node
    {
      match node.parent
      case None => Some(genesisState)
      case Some(p) =>
        var before, tickets := Replay(p), MaturingTickets(node);
        if before.Some?
           && tickets.Some? then Some(connect(before.value, node, findSpentTickets(node.block), tickets.value))
              else None
    }

    /** The tickets that mature at a block: none below the height at which staking starts, and else the
        purchases of the block a maturity period below. */
    ghost predicate AreMaturing(node: BlockNode, tickets: seq<TxId>) {
      if node.Height() < stakeEnabledHeight then tickets == []
      else
        var bought := node.AncestorAt(node.Height() - ticketMaturity);
        bought.Some? && AreTicketsOf(tickets, bought.value.block.stxs)
    }

    lemma MaturingAre(node: BlockNode)
      ensures MaturingTickets(node).Some? ==> AreMaturing(node, MaturingTickets(node).value)
      ensures MaturingTickets(node).None? <==>
        node.Height() >= stakeEnabledHeight && node.AncestorAt(node.Height() - ticketMaturity).None?
    {
      var bought := node.AncestorAt(node.Height() - ticketMaturity);
      if bought.Some? {
        TicketsBoughtAre(bought.value.block.stxs);
      }
    }

    /** The state of a block is its parent's state connected with what the block spent and the tickets
        that mature at it. */
    lemma ReplayStep(node: BlockNode) returns (tickets: seq<TxId>)
      requires node.parent.Some? && Replay(node).Some?
      ensures Replay(node.parent.value).Some? && AreMaturing(node, tickets)
      ensures Replay(node).value ==
        connect(Replay(node.parent.value).value, node, findSpentTickets(node.block), tickets)
    {
      hide AreMaturing;
      MaturingAre(node);
      tickets := MaturingTickets(node).value;
    }

    /** Everything that happens to be loaded is right. */
    ghost predicate Coherent()
      reads this
    {
      && (forall n :: n in stakeNode ==> Some(stakeNode[n]) == Replay(n))
      && (forall n :: n in newTickets ==> Some(newTickets[n]) == MaturingTickets(n))
      && (forall n :: n in spentTickets ==> spentTickets[n] == findSpentTickets(n.block))
    }

    /** Undoing a block gives back the state it was connected to. */
    ghost predicate UndoInvertsConnect() {
      forall s: S, n: BlockNode, spent, tickets ::
        n.parent.Some? ==> disconnect(connect(s, n, spent, tickets), n.parent.value) == s
    }

    method MaybeFetchNewTickets(node: BlockNode) returns (ok: bool)
      requires Coherent()
      modifies this`newTickets
      ensures Coherent()
      ensures ok <==> node in old(newTickets) || MaturingTickets(node).Some?
      ensures ok ==> node in newTickets
    {
      if node in newTickets {
        return true;
      }
      if node.Height() < stakeEnabledHeight {
        newTickets := newTickets[node := []];
        return true;
      }
      var matureNode := RelativeAncestor(node, ticketMaturity);
      if matureNode.None? {
        return false;
      }
      var tickets := [];
      var stxs := matureNode.value.block.stxs;
      for i := 0 to |stxs|
        invariant tickets == TicketsBought(stxs[..i])
      {
        assert stxs[..i + 1][..i] == stxs[..i];
        if stxs[i].id.txType == SStx {
          tickets := tickets + [stxs[i].id];
        }
      }
      assert stxs[..|stxs|] == stxs;
      newTickets := newTickets[node := tickets];
      return true;
    }

    method MaybeFetchTicketInfo(node: BlockNode) returns (ok: bool)
      requires Coherent()
      modifies this`newTickets, this`spentTickets
      ensures Coherent()
      ensures ok <==> MaturingTickets(node).Some?
      ensures ok ==> node in newTickets && node in spentTickets
    {
      ok := MaybeFetchNewTickets(node);
      if ok && node !in spentTickets {
        spentTickets := spentTickets[node := findSpentTickets(node.block)];
      }
    }

    /** With a maturity period no longer than the wait for stake to be enabled, the block a ticket
        was bought in always exists, and every branch can be replayed. */
    lemma {:induction false} AlwaysReplays(node: BlockNode)
      requires ticketMaturity <= stakeEnabledHeight
      ensures Replay(node).Some?
      decreases node
    {
      if node.Height() >= stakeEnabledHeight {
        AncestorHeight(node, node.Height() - ticketMaturity);
      }
      if node.parent.Some? {
        AlwaysReplays(node.parent.value);
      }
    }

    /** What can be replayed to a node can be replayed to its ancestors. */
    lemma {:induction false} ReplaysBelow(node: BlockNode, a: BlockNode)
      requires Replay(node).Some? && node.Extends(a)
      ensures Replay(a).Some?
    {
      if node != a {
        ReplaysBelow(node.parent.value, a);
      }
    }

    method ConnectToParent(node: BlockNode) returns (ok: bool)
      requires Coherent()
      requires node.parent.Some? && node.parent.value in stakeNode
      modifies this
      ensures Coherent()
      ensures ok <==> Replay(node).Some?
      ensures stakeNode == if ok then old(stakeNode)[node := Replay(node).value] else old(stakeNode)
    {
      ok := MaybeFetchTicketInfo(node);
      if ok {
        stakeNode := stakeNode[node :=
          connect(stakeNode[node.parent.value], node, spentTickets[node], newTickets[node])];
      }
    }

    /** Undo from the tip back to the fork point, filling in the states that are missing. */
    method UndoToFork(tip: BlockNode, fork: BlockNode)
      requires Coherent() && UndoInvertsConnect() && tip in stakeNode && tip.Extends(fork)
      modifies this`stakeNode
      ensures Coherent() && fork in stakeNode && old(stakeNode).Keys <= stakeNode.Keys
    {
      var n := Some(tip);
      while n.Some? && n.value != fork
        invariant Coherent() && old(stakeNode).Keys <= stakeNode.Keys
        invariant n.Some? && n.value in stakeNode && n.value.Extends(fork)
        decreases n
      {
        var prev := n.value.parent;
        if prev.Some? && prev.value !in stakeNode {
          stakeNode := stakeNode[prev.value := disconnect(stakeNode[n.value], prev.value)];
        }
        n := prev;
      }
    }

    /** Replay the side chain above the fork point, filling in the states that are missing, up to the
        first that cannot be had. */
    method ReplayFromFork(fork: BlockNode, node: BlockNode) returns (ok: bool)
      requires Coherent() && fork in stakeNode && node.Extends(fork)
      modifies this
      ensures Coherent() && old(stakeNode).Keys <= stakeNode.Keys
      ensures ok <==> Replay(node).Some?
      ensures ok ==> node in stakeNode
    {
      var attachNodes := CollectAttach(fork, node);
      AttachPathLength(fork, node);
      for i := 0 to |attachNodes|
        invariant Coherent() && old(stakeNode).Keys <= stakeNode.Keys
        invariant (if i == 0 then fork else attachNodes[i - 1]) in stakeNode
      {
        AttachPathAt(fork, node, i);
        if attachNodes[i] !in stakeNode {
          var connected := ConnectToParent(attachNodes[i]);
          if !connected {
            if Replay(node).Some? {
              ReplaysBelow(node, attachNodes[i]);
            }
            return false;
          }
        }
      }
      ok := true;
    }

    /** The ticket-pool state of any block, on or off the main chain, equals replaying the chain from
        genesis, whichever states had been pruned, with an error exactly when that cannot be done;
        everything filled in on the way is right and nothing loaded is lost. */
    method FetchStakeNode(tip: BlockNode, node: BlockNode) returns (r: Option<S>)
      requires Coherent() && UndoInvertsConnect()
      requires tip in stakeNode && node.parent.Some? && tip.Genesis() == node.Genesis()
      modifies this
      ensures r == Replay(node) && Coherent()
      ensures r.Some? ==> node in stakeNode
      ensures old(stakeNode).Keys <= stakeNode.Keys
    {
      if node in stakeNode {
        return Some(stakeNode[node]);
      }
      var ok;
      if node.parent.value in stakeNode {
        ok := ConnectToParent(node);
        return if ok then Some(stakeNode[node]) else None;
      }
      ForkPointIsHighest(tip, node);
      var fork := ForkPoint(tip, node).value;
      UndoToFork(tip, fork);
      if node == fork {
        return Some(stakeNode[node]);
      }
      ok := ReplayFromFork(fork, node);
      return if ok then Some(stakeNode[node]) else None;
    }
  }
}
