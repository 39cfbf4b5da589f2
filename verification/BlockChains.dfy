/** Connecting, disconnecting, reorganising and choosing the best chain (blockchain/chain.go,
    blockchain/accept.go, blockchain/process.go). */
module BlockChains {
  import opened Wrappers
  import opened Transactions
  import opened ScriptCodec
  import opened SpendJournal
  import opened UtxoState
  import opened UtxoViews
  import opened BlockNodes
  import opened BlockIndexes
  import opened BlockJournals
  import opened ChainStates
  import opened ChainViews
  import opened OrphanPools

  datatype RuleError = KnownInvalidBlock | InvalidAncestorBlock | MissingParent | DuplicateBlock | Rejected

  /** Whatever the verdict on a block is, it is only positive when the block is valid where it stands. */
  ghost predicate Sound(connects: BlockNode -> bool) {
    forall n: BlockNode :: connects(n) && n.parent.Some? && ValidChain(n.parent.value) ==> ValidBlock(n)
  }

  /** The stored state fits the tip, and the tip is a known block marked valid. */
  ghost predicate Coherent(curve: Curve, status: Statuses, st: State, tip: BlockNode) {
    tip in status && status[tip].valid && Stored(curve, st, tip)
  }

  /** The node of a block above its parent carries every field of the block and all work up to it. */
  function NewBlockNode(b: RawBlock, parent: BlockNode): (r: BlockNode)
    ensures r.parent == Some(parent) && r.Height() == parent.Height() + 1 && r.WorkSum() == parent.WorkSum() + b.work
    ensures r.hash == b.hash && r.target == b.target && r.timestamp == b.timestamp && r.block == b.block
    ensures r.blockVersion == b.blockVersion && r.stakeVersion == b.stakeVersion && r.votes == b.votes
    ensures r.freshStake == b.freshStake && r.poolSize == b.poolSize && r.sbits == b.sbits
  {
    BlockNode(Some(parent), b.hash, b.work, b.target, b.timestamp, b.blockVersion, b.stakeVersion, b.votes,
              b.freshStake, b.poolSize, b.sbits, b.block)
  }

  /** The verdicts of the rules that run before a block is filed, on the blocks of one arrival: they
      may depend on the time, the checkpoint reached and anything else known at that moment.  With
      `fastAdd` a block that extends the main chain is connected without further checks. */
  datatype Rules = Rules(
    sane: RawBlock -> bool,
    checkpointed: RawBlock -> bool,
    positioned: (RawBlock, BlockNode) -> bool,
    contextual: (RawBlock, BlockNode) -> bool,
    fastAdd: bool)

  /** Blocks are only added fast when they are known to fit. */
  ghost predicate Trusted(rules: Rules) {
    rules.fastAdd ==>
      forall b: RawBlock, p: BlockNode :: rules.positioned(b, p) && rules.contextual(b, p) && ValidChain(p) ==>
        ValidBlock(NewBlockNode(b, p))
  }

  class BlockChain {
    const curve: Curve
    // The verdict of the rules for connecting a block.
    const connects: BlockNode -> bool

    const index: BlockIndex
    const bestChain: ChainView
    const pool: OrphanPool
    var state: State

    /** What is assumed of the chain parameters and the validation rules. */
    ghost predicate Env() {
      RecoversKeys(curve) && Sound(connects) && GenesisOk(index.genesis)
    }

    ghost predicate Valid()
      reads this, index, bestChain, bestChain.nodes
    {
      && Env() && index.Valid() && bestChain.Valid() && bestChain.Tip().Some?
      && Coherent(curve, index.status, state, bestChain.Tip().value)
    }

    /** A new chain: the genesis block is the tip, none of its outputs are spendable. */
    constructor (curve: Curve, genesis: BlockNode, ghost parentOf: Hash -> Hash, connects: BlockNode -> bool)
      requires RecoversKeys(curve) && Sound(connects) && GenesisOk(genesis)
      ensures fresh(index) && fresh(bestChain) && fresh(bestChain.nodes) && fresh(pool)
      ensures Valid() && this.curve == curve && Tip() == genesis && index.index == map[genesis.hash := genesis]
      ensures index.genesis == genesis
      ensures index.status == map[genesis := DATA_STORED.With(VALID)]
      ensures pool.Valid() && pool.orphans == map[] && pool.parentOf == parentOf
    {
      hide RecoversKeys, Sound, FlagsOk, TreeOk, TipsAre, Stored;
      this.curve, this.connects := curve, connects;
      index := new BlockIndex(genesis);
      bestChain := new ChainView(Some(genesis));
      pool := new OrphanPool(parentOf);
      state := State(map[], map[], Totals(|genesis.block.txs|, 0));
      StoredGenesis(curve, genesis);
    }

    ghost function Tip(): BlockNode
      requires Valid()
      reads this, index, bestChain, bestChain.nodes
    {
      bestChain.Tip().value
    }

    /** Facts about the tip. */
    lemma TipFacts(n: BlockNode)
      requires Valid() && n in index.status && index.status[n].valid
      ensures ValidChain(n) && DistinctHashes(n) && n.Genesis() == index.genesis
      ensures n.block.txs != [] && n.block.txs[0].ins != []
      ensures n.parent.Some? ==> ValidBlock(n) && ValidChain(n.parent.value)
      ensures n.parent.Some? ==> n.parent.value in index.status && index.status[n.parent.value].valid
      ensures n.parent.Some? ==> VotesSpendOneTicket(n.block.stxs)
      ensures n.parent.Some? ==> n.parent.value.block.txs != [] && n.parent.value.block.txs[0].ins != []
    {
      hide ValidBlock, FlagsOk, TipsAre, TreeOk, Stored, Sound, RecoversKeys;
      ValidFacts(index.status, n);
      KnownDistinct(index.index, index.genesis, n);
      AncestorsKnown(index.index, index.genesis, n, n);
      CoinbaseInput(index.genesis, n);
      if n.parent.Some? {
        CoinbaseInput(index.genesis, n.parent.value);
      }
    }

    /** Append a block to the main chain: write its outputs and journal entry, move the tip. */
    method ConnectBlock(node: BlockNode, view: UtxoViewpoint, stxos: seq<SpentTxOut>)
      requires Valid() && node.parent == Some(Tip()) && node in index.status && index.status[node].valid
      requires view.curve == curve && Stands(curve, view.entries, state.utxoSet, UtxosAt(node), {})
      requires JournalOk(curve, node, stxos)
      modifies this`state, bestChain, bestChain.nodes, view`entries
      ensures bestChain.nodes == old(bestChain.nodes) || fresh(bestChain.nodes)
      ensures Valid() && Tip() == node
      ensures Clean(view.entries) && Stands(curve, view.entries, state.utxoSet, UtxosAt(node), {})
    {
      hide Stored, ValidChain, ValidBlock, JournalOk, Stands, Clean, Holds, UtxosAt, Journaled, JournalBytes, Sound,
           RecoversKeys, FlagsOk, TreeOk, TipsAre, SpendsIn, TreeEvents, StoreOk, VotesSpendOneTicket,
           BlockNode.Height, BlockNode.Extends, BlockNode.AncestorAt, BlockNode.WorkSum, BlockNode.Genesis;
      TipFacts(node);
      TipFacts(Tip());
      var block, parent := node.block, node.parent.value.block;
      var curTotals := state.totals;
      var subsidy := CalculateAddedSubsidy(block, parent);
      var totals := Totals(curTotals.txns + |block.txs| + |block.stxs|, curTotals.subsidy + subsidy);
      StoredParts(curve, state, Tip());
      ChainWellFormed(node);
      var utxoSet := view.PutUtxoView(state.utxoSet, UtxosAt(node));
      var bytes := StoreSpendJournalEntry(curve, node, stxos);
      JournalAdded(curve, state.journal, node, bytes);
      ghost var before := state.utxoSet;
      state := State(utxoSet, state.journal[node.hash := bytes], totals);
      StoredIs(curve, state, node);
      view.Commit(before, utxoSet, UtxosAt(node));
      bestChain.SetTip(Some(node));
    }

    /** Take the last block off the main chain again. */
    method DisconnectBlock(node: BlockNode, view: UtxoViewpoint)
      requires Valid() && node == Tip() && node.parent.Some?
      requires view.curve == curve && Stands(curve, view.entries, state.utxoSet, UtxosAt(node.parent.value), {})
      modifies this`state, bestChain, bestChain.nodes, view`entries
      ensures bestChain.nodes == old(bestChain.nodes) || fresh(bestChain.nodes)
      ensures Valid() && Some(Tip()) == node.parent
      ensures Clean(view.entries) && Stands(curve, view.entries, state.utxoSet, UtxosAt(node.parent.value), {})
    {
      hide Stored, ValidChain, ValidBlock, JournalOk, Stands, Clean, Holds, UtxosAt, Journaled, JournalBytes, Sound,
           RecoversKeys, FlagsOk, TreeOk, TipsAre, SpendsIn, TreeEvents, StoreOk, VotesSpendOneTicket,
           BlockNode.Height, BlockNode.Extends, BlockNode.AncestorAt, BlockNode.WorkSum, BlockNode.Genesis;
      TipFacts(node);
      var block, parent := node.block, node.parent.value.block;
      var curTotals := state.totals;
      var subsidy := CalculateAddedSubsidy(block, parent);
      var totals := Totals(curTotals.txns - (|block.txs| + |block.stxs|), curTotals.subsidy - subsidy);
      var prevNode := node.parent.value;
      StoredParts(curve, state, node);
      ChainWellFormed(prevNode);
      var utxoSet := view.PutUtxoView(state.utxoSet, UtxosAt(prevNode));
      JournalRemoved(curve, state.journal, node);
      ghost var before := state.utxoSet;
      state := State(utxoSet, state.journal - {node.hash}, totals);
      StoredIs(curve, state, prevNode);
      view.Commit(before, utxoSet, UtxosAt(prevNode));
      bestChain.SetTip(node.parent);
    }

    /** The journal entry of the tip. */
    method FetchJournal(node: BlockNode) returns (stxos: seq<SpentTxOut>)
      requires Valid() && node == Tip() && node.parent.Some?
      ensures JournalOk(curve, node, stxos)
    {
      hide ValidChain, ValidBlock, JournalOk, Holds, UtxosAt, Journaled, JournalBytes, Sound, RecoversKeys, FlagsOk,
           TreeOk, TipsAre, VotesSpendOneTicket;
      TipFacts(node);
      JournalAt(curve, state.journal, node);
      stxos := FetchSpendJournalEntry(curve, node, state.journal[node.hash]);
    }

    /** Pop the last block of the main chain through its journal entry. */
    method DetachTip(view: UtxoViewpoint)
      requires Valid() && Tip().parent.Some? && view.curve == curve
      requires Clean(view.entries) && Stands(curve, view.entries, state.utxoSet, UtxosAt(Tip()), {})
      modifies this`state, bestChain, bestChain.nodes, view
      ensures bestChain.nodes == old(bestChain.nodes) || fresh(bestChain.nodes)
      ensures Valid() && Some(Tip()) == old(Tip()).parent
      ensures Clean(view.entries) && Stands(curve, view.entries, state.utxoSet, UtxosAt(Tip()), {})
    {
      hide ValidChain, ValidBlock, JournalOk, Stands, Clean, UtxosAt, Stored, Sound, RecoversKeys, FlagsOk, TreeOk,
           TipsAre, StoreOk, VotesSpendOneTicket, BlockNode.Height, BlockNode.Extends, BlockNode.AncestorAt,
           BlockNode.WorkSum, BlockNode.Genesis;
      var n := bestChain.Tip().value;
      TipFacts(n);
      var stxos := FetchJournal(n);
      StoredStore(curve, state, n);
      CleanView(curve, view.entries, state.utxoSet, n, n);
      view.DisconnectBlock(state.utxoSet, n, stxos);
      DisconnectBlock(n, view);
    }

    /** Pop the blocks down to the fork. */
    method DetachTo(fork: BlockNode, view: UtxoViewpoint)
      requires Valid() && Tip().Extends(fork) && view.curve == curve
      requires Clean(view.entries) && Stands(curve, view.entries, state.utxoSet, UtxosAt(Tip()), {})
      modifies this`state, bestChain, bestChain.nodes, view
      ensures bestChain.nodes == old(bestChain.nodes) || fresh(bestChain.nodes)
      ensures Valid() && Tip() == fork
      ensures Clean(view.entries) && Stands(curve, view.entries, state.utxoSet, UtxosAt(fork), {})
    {
      hide Env, Coherent, Stands, Clean, UtxosAt, FlagsOk, TreeOk, TipsAre, BlockNode.Height, BlockNode.AncestorAt,
           BlockNode.WorkSum, BlockNode.Genesis;
      while bestChain.Tip().value != fork
        invariant bestChain.nodes == old(bestChain.nodes) || fresh(bestChain.nodes)
        invariant Valid() && Tip().Extends(fork)
        invariant Clean(view.entries) && Stands(curve, view.entries, state.utxoSet, UtxosAt(Tip()), {})
        decreases Tip()
      {
        DetachTip(view);
      }
    }

    /** Bring a view of the tip forward by one block that is valid on top of it. */
    method ConnectView(n: BlockNode, view: UtxoViewpoint) returns (stxos: seq<SpentTxOut>)
      requires Valid() && n.parent == Some(Tip()) && ValidChain(n) && ValidBlock(n)
      requires view.curve == curve && Clean(view.entries)
        && Stands(curve, view.entries, state.utxoSet, UtxosAt(Tip()), {})
      modifies view
      ensures Stands(curve, view.entries, state.utxoSet, UtxosAt(n), {}) && JournalOk(curve, n, stxos)
    {
      hide ValidChain, ValidBlock, JournalOk, Stands, Clean, UtxosAt, Stored, Sound, RecoversKeys, FlagsOk, TreeOk,
           TipsAre, StoreOk, Kept, BareTickets, InputIds, VotesSpendOneTicket;
      var parentStxos := [];
      if !n.block.approvesParent {
        DisapprovesAboveOne(n);
        parentStxos := FetchJournal(n.parent.value);
      }
      StoredStore(curve, state, Tip());
      TipFacts(Tip());
      CleanView(curve, view.entries, state.utxoSet, Tip(), n);
      stxos := view.ConnectBlock(state.utxoSet, n, parentStxos);
    }

    /** The verdict on a block on top of the tip; when it is positive the view is brought forward. */
    method CheckConnectBlock(n: BlockNode, view: UtxoViewpoint) returns (r: Option<seq<SpentTxOut>>)
      requires Valid() && n.parent == Some(Tip())
      requires view.curve == curve && Clean(view.entries)
        && Stands(curve, view.entries, state.utxoSet, UtxosAt(Tip()), {})
      modifies view
      ensures r.Some? <==> connects(n)
      ensures r.Some? ==> ValidChain(n) && JournalOk(curve, n, r.value)
      ensures r.Some? ==> Stands(curve, view.entries, state.utxoSet, UtxosAt(n), {})
    {
      hide ValidBlock, JournalOk, Stands, Clean, UtxosAt, Stored, RecoversKeys, FlagsOk, TreeOk, TipsAre, StoreOk,
           VotesSpendOneTicket;
      if !connects(n) {
        return None;
      }
      TipFacts(Tip());
      var stxos := ConnectView(n, view);
      r := Some(stxos);
    }

    /** Mark blocks above a failed one. */
    method MarkInvalidAncestors(nodes: seq<BlockNode>)
      requires index.Valid()
      requires forall n :: n in nodes ==> n in index.status && n.parent.Some? && HasFailed(index.status, n.parent.value)
      modifies index`status
      ensures index.Valid() && Grows(old(index.status), index.status)
      ensures forall n :: n in nodes ==> n in index.status && index.status[n].invalidAncestor
    {
      hide TreeOk, TipsAre, FlagsOk, HasFailed, Grows, ValidChain;
      GrowsItself(index.status);
      for i := 0 to |nodes|
        invariant index.Valid() && Grows(old(index.status), index.status)
        invariant forall n :: n in nodes[..i] ==> n in index.status && index.status[n].invalidAncestor
      {
        StillFailed(old(index.status), index.status, nodes[i]);
        ghost var before := index.status;
        index.SetStatusFlags(nodes[i], INVALID_ANCESTOR);
        GrowsTwice(old(index.status), before, index.status);
      }
    }

    /** The blocks between the fork and the target, oldest first, unless one of them is known to be
        invalid; then what lies above it is marked. */
    method CollectAttachNodes(fork: BlockNode, targetTip: BlockNode) returns (r: Result<seq<BlockNode>, RuleError>)
      requires index.Valid() && targetTip in index.status && targetTip.Extends(fork)
      modifies index`status
      ensures index.Valid() && Grows(old(index.status), index.status)
      ensures r.Ok? ==> index.status == old(index.status) && r.value == AttachPath(fork, targetTip)
      ensures r.Ok? ==> forall n :: n in r.value ==> n in index.status && !index.status[n].KnownInvalid()
      ensures r.Err? ==>
        targetTip in index.status && index.status[targetTip].KnownInvalid() && !old(index.status)[targetTip].valid
    {
      hide TreeOk, TipsAre, FlagsOk, HasFailed, Grows, ValidChain;
      GrowsItself(index.status);
      var attachNodes := [];
      var n := targetTip;
      while n != fork
        invariant n.Extends(fork) && targetTip.Extends(n) && index.status == old(index.status)
        invariant AttachPath(fork, n) + attachNodes == AttachPath(fork, targetTip)
        invariant attachNodes == AttachPath(n, targetTip)
        invariant forall m :: m in attachNodes ==> m in index.status && !index.status[m].KnownInvalid()
        decreases n
      {
        ValidAncestors(index.status, targetTip, n);
        if index.status[n].KnownInvalid() {
          InvalidHasFailed(index.status, n);
          HasFailedBelow(index.status, targetTip, n);
          FailedIsNotValid(index.status, targetTip);
          AllAboveFailed(index.status, n, targetTip);
          MarkInvalidAncestors(attachNodes);
          TargetCollected(n, targetTip);
          StillFlagged(old(index.status), index.status, n);
          return Err(KnownInvalidBlock);
        }
        PathOneMore(fork, n, targetTip);
        attachNodes := [n] + attachNodes;
        n := n.parent.value;
      }
      r := Ok(attachNodes);
    }

    /** Check a block on top of the tip, unless it is known to be valid or added fast, mark it with the
        verdict and bring the view forward. */
    method PrepareBlock(node: BlockNode, fastAdd: bool, view: UtxoViewpoint) returns (r: Option<seq<SpentTxOut>>)
      requires Valid() && node.parent == Some(Tip()) && node in index.status && !index.status[node].KnownInvalid()
      requires view.curve == curve && Clean(view.entries)
        && Stands(curve, view.entries, state.utxoSet, UtxosAt(Tip()), {})
      requires fastAdd ==> ValidChain(node) && ValidBlock(node)
      modifies index`status, view
      ensures Valid() && Grows(old(index.status), index.status)
      ensures r.Some? <==> fastAdd || old(index.status)[node].valid || connects(node)
      ensures r.Some? ==>
        Stands(curve, view.entries, state.utxoSet, UtxosAt(node), {}) && JournalOk(curve, node, r.value)
      ensures index.status ==
        old(index.status)[node := old(index.status)[node].With(if r.Some? then VALID else VALIDATE_FAILED)]
      ensures old(index.status)[node].valid ==> index.status == old(index.status)
    {
      hide Stored, Sound, RecoversKeys, FlagsOk, TreeOk, TipsAre, HasFailed, Grows, ValidChain, ValidBlock, Stands,
           Clean, JournalOk, UtxosAt, Holds, StoreOk, VotesSpendOneTicket, BlockNode.Height, BlockNode.Extends,
           BlockNode.AncestorAt, BlockNode.WorkSum, BlockNode.Genesis;
      GrowsItself(index.status);
      var isKnownValid := index.status[node].valid;
      var fast := fastAdd || isKnownValid;
      var stxos := [];
      if !fast {
        var checked := CheckConnectBlock(node, view);
        if checked.None? {
          index.SetStatusFlags(node, VALIDATE_FAILED);
          return None;
        }
        stxos := checked.value;
      }
      if !isKnownValid {
        index.SetStatusFlags(node, VALID);
      }
      if fast {
        TipFacts(node);
        stxos := ConnectView(node, view);
      }
      r := Some(stxos);
    }

    /** Push one block onto the main chain, unless it turns out to be invalid; then mark it. */
    method AttachBlock(n: BlockNode, view: UtxoViewpoint) returns (ok: bool)
      requires Valid() && n.parent == Some(Tip()) && n in index.status && !index.status[n].KnownInvalid()
      requires view.curve == curve && Clean(view.entries)
        && Stands(curve, view.entries, state.utxoSet, UtxosAt(Tip()), {})
      modifies this`state, bestChain, bestChain.nodes, index`status, view
      ensures bestChain.nodes == old(bestChain.nodes) || fresh(bestChain.nodes)
      ensures Valid() && Grows(old(index.status), index.status)
      ensures ok <==> old(index.status)[n].valid || connects(n)
      ensures ok ==> Tip() == n && Clean(view.entries) && Stands(curve, view.entries, state.utxoSet, UtxosAt(n), {})
      ensures !ok ==> Tip() == old(Tip())
      ensures index.status == old(index.status)[n := old(index.status)[n].With(if ok then VALID else VALIDATE_FAILED)]
      ensures old(index.status)[n].valid ==> index.status == old(index.status)
    {
      hide ValidBlock, JournalOk, Stands, Clean, UtxosAt, Stored, Sound, RecoversKeys, FlagsOk, TreeOk, TipsAre,
           StoreOk, VotesSpendOneTicket, HasFailed, Grows, BlockNode.Height, BlockNode.Extends, BlockNode.AncestorAt,
           BlockNode.WorkSum, BlockNode.Genesis;
      var prepared := PrepareBlock(n, false, view);
      if prepared.None? {
        return false;
      }
      ConnectBlock(n, view, prepared.value);
      ok := true;
    }

    /** Mark the blocks to attach above one that failed. */
    method MarkAbove(ghost fork: BlockNode, ghost targetTip: BlockNode, i: nat, attachNodes: seq<BlockNode>)
      requires Valid() && targetTip in index.status && targetTip.Extends(fork)
        && attachNodes == AttachPath(fork, targetTip)
      requires i < |attachNodes| && attachNodes[i] in index.status && index.status[attachNodes[i]].validateFailed
      modifies index`status
      ensures Valid() && Grows(old(index.status), index.status)
      ensures targetTip in index.status && index.status[targetTip].KnownInvalid()
    {
      hide TreeOk, TipsAre, FlagsOk, HasFailed, Grows, ValidChain, Stored;
      FailedItself(index.status, attachNodes[i]);
      AllAboveFailedFrom(index.status, fork, targetTip, i);
      MarkInvalidAncestors(attachNodes[i + 1..]);
      TargetLast(fork, targetTip, i);
      StillFlagged(old(index.status), index.status, attachNodes[i]);
      StillValid(old(index.status), index.status, bestChain.Tip().value);
    }

    /** Push the i-th block of a path, or mark it and everything above it. */
    method AttachAt(ghost fork: BlockNode, ghost targetTip: BlockNode, attachNodes: seq<BlockNode>, i: nat,
                    view: UtxoViewpoint)
      returns (ok: bool)
      requires Valid() && targetTip in index.status && targetTip.Extends(fork)
        && attachNodes == AttachPath(fork, targetTip)
      requires i < |attachNodes| && Tip() == (if i == 0 then fork else attachNodes[i - 1])
      requires attachNodes[i] in index.status && !index.status[attachNodes[i]].KnownInvalid()
      requires view.curve == curve && Clean(view.entries)
        && Stands(curve, view.entries, state.utxoSet, UtxosAt(Tip()), {})
      modifies this`state, bestChain, bestChain.nodes, index`status, view
      ensures bestChain.nodes == old(bestChain.nodes) || fresh(bestChain.nodes)
      ensures Valid() && Grows(old(index.status), index.status)
      ensures ok ==> Tip() == attachNodes[i]
      ensures ok ==> Clean(view.entries) && Stands(curve, view.entries, state.utxoSet, UtxosAt(Tip()), {})
      ensures ok ==> index.status == old(index.status)[attachNodes[i] := old(index.status)[attachNodes[i]].With(VALID)]
      ensures !ok ==> targetTip in index.status && index.status[targetTip].KnownInvalid()
      ensures old(index.status)[targetTip].valid ==> ok && index.status == old(index.status)
    {
      hide Env, Coherent, ValidChain, JournalOk, Stands, Clean, UtxosAt, FlagsOk, TreeOk, TipsAre, HasFailed, Grows,
           BlockNode.Height, BlockNode.Extends, BlockNode.AncestorAt, BlockNode.WorkSum, BlockNode.Genesis;
      var n := attachNodes[i];
      AttachPathAt(fork, targetTip, i);
      ValidAncestors(index.status, targetTip, n);
      ok := AttachBlock(n, view);
      if !ok {
        ghost var failed := index.status;
        MarkAbove(fork, targetTip, i, attachNodes);
        GrowsTwice(old(index.status), failed, index.status);
      }
    }

    /** Push blocks onto the main chain, validating those that are not known to be valid. */
    method AttachBlocks(attachNodes: seq<BlockNode>, targetTip: BlockNode, view: UtxoViewpoint)
      returns (r: Result<(), RuleError>)
      requires Valid() && targetTip in index.status && targetTip.Extends(Tip())
        && attachNodes == AttachPath(Tip(), targetTip)
      requires forall n :: n in attachNodes ==> n in index.status && !index.status[n].KnownInvalid()
      requires view.curve == curve && Clean(view.entries)
        && Stands(curve, view.entries, state.utxoSet, UtxosAt(Tip()), {})
      modifies this`state, bestChain, bestChain.nodes, index`status, view
      ensures bestChain.nodes == old(bestChain.nodes) || fresh(bestChain.nodes)
      ensures Valid() && Grows(old(index.status), index.status)
      ensures r.Ok? ==> Tip() == targetTip
      ensures r.Err? ==> targetTip in index.status && index.status[targetTip].KnownInvalid()
      ensures old(index.status)[targetTip].valid ==> r.Ok? && index.status == old(index.status)
    {
      hide Env, Coherent, Stands, Clean, UtxosAt, FlagsOk, TreeOk, TipsAre, Grows, BlockNode.Height,
           BlockNode.Extends, BlockNode.AncestorAt, BlockNode.WorkSum, BlockNode.Genesis;
      ghost var fork := Tip();
      GrowsItself(index.status);
      AttachPathLength(fork, targetTip);
      for i := 0 to |attachNodes|
        invariant bestChain.nodes == old(bestChain.nodes) || fresh(bestChain.nodes)
        invariant Valid() && Tip() == if i == 0 then fork else attachNodes[i - 1]
        invariant Grows(old(index.status), index.status) && targetTip in index.status
        invariant forall n :: n in attachNodes ==> n in index.status && !index.status[n].KnownInvalid()
        invariant Clean(view.entries) && Stands(curve, view.entries, state.utxoSet, UtxosAt(Tip()), {})
        invariant old(index.status)[targetTip].valid ==> index.status == old(index.status)
      {
        ghost var before := index.status;
        var ok := AttachAt(fork, targetTip, attachNodes, i, view);
        GrowsTwice(old(index.status), before, index.status);
        if !ok {
          return Err(Rejected);
        }
      }
      r := Ok(());
    }

    /** Move the main chain to another branch, without undoing a failed attempt. */
    method ReorganizeChainInternal(targetTip: BlockNode) returns (r: Result<(), RuleError>)
      requires Valid() && targetTip in index.status
      modifies this`state, bestChain, bestChain.nodes, index`status
      ensures bestChain.nodes == old(bestChain.nodes) || fresh(bestChain.nodes)
      ensures Valid() && Grows(old(index.status), index.status)
      ensures r.Ok? ==> Tip() == targetTip
      ensures r.Err? ==> targetTip in index.status && index.status[targetTip].KnownInvalid()
      ensures old(index.status)[targetTip].valid ==> r.Ok? && index.status == old(index.status)
    {
      hide ValidChain, ValidBlock, Stands, Clean, Holds, UtxosAt, Journaled, Sound, RecoversKeys, FlagsOk, TreeOk,
           TipsAre, StoreOk, HasFailed, Grows;
      ForkExists(index.index, index.genesis, Tip(), targetTip);
      var fork := bestChain.FindFork(Some(targetTip));
      var attachNodes := CollectAttachNodes(fork.value, targetTip);
      if attachNodes.Err? {
        StillValid(old(index.status), index.status, bestChain.Tip().value);
        return Err(attachNodes.error);
      }
      var view := new UtxoViewpoint(curve);
      HoldsStands(curve, state.utxoSet, UtxosAt(Tip()));
      DetachTo(fork.value, view);
      r := AttachBlocks(attachNodes.value, targetTip, view);
    }

    /** Move the main chain to another branch, or stay where it was when that fails. */
    method ReorganizeChain(targetTip: BlockNode) returns (r: Result<(), RuleError>)
      requires Valid() && targetTip in index.status
      modifies this`state, bestChain, bestChain.nodes, index`status
      ensures bestChain.nodes == old(bestChain.nodes) || fresh(bestChain.nodes)
      ensures Valid() && Grows(old(index.status), index.status)
      ensures r.Ok? ==> Tip() == targetTip
      ensures r.Err? ==> Tip() == old(Tip()) && SameState(old(state), state)
      ensures r.Err? ==> targetTip in index.status && index.status[targetTip].KnownInvalid()
    {
      hide Stored, Sound, RecoversKeys, FlagsOk, TreeOk, TipsAre, HasFailed, Grows, SameState;
      ghost var before, first := index.status, state;
      GrowsItself(index.status);
      var origTip := bestChain.Tip().value;
      if origTip == targetTip {
        return Ok(());
      }
      r := ReorganizeChainInternal(targetTip);
      if r.Err? {
        ghost var failed := index.status;
        StillValid(before, failed, origTip);
        var again := ReorganizeChainInternal(origTip);
        if again.Err? {
          assert false;
        }
        PathIndependent(curve, first, state, origTip);
      }
    }

    lemma FastIsValid(node: BlockNode, fastAdd: bool)
      requires Valid() && node.parent == Some(Tip()) && (fastAdd && ValidChain(Tip()) ==> ValidBlock(node))
      ensures fastAdd ==> ValidChain(node) && ValidBlock(node)
    {
      hide Stored, Sound, RecoversKeys, FlagsOk, TreeOk, TipsAre, ValidBlock;
      TipFacts(Tip());
    }

    /** Connect a block that extends the main chain, after checking it unless that has been done or it
        is added fast. */
    method ExtendMainChain(node: BlockNode, fastAdd: bool) returns (connected: bool)
      requires Valid() && node in index.status && node.parent == Some(Tip()) && !index.status[node].KnownInvalid()
      requires fastAdd && ValidChain(Tip()) ==> ValidBlock(node)
      modifies this`state, bestChain, bestChain.nodes, index`status
      ensures bestChain.nodes == old(bestChain.nodes) || fresh(bestChain.nodes)
      ensures Valid() && Grows(old(index.status), index.status) && node in index.status
      ensures connected <==> fastAdd || old(index.status)[node].valid || connects(node)
      ensures connected ==> Tip() == node
      ensures !connected ==> Tip() == old(Tip()) && state == old(state) && index.status[node].validateFailed
    {
      hide Stored, Sound, RecoversKeys, FlagsOk, TreeOk, TipsAre, HasFailed, Grows, ValidChain, ValidBlock, Stands,
           Clean, JournalOk, UtxosAt, Holds, BlockNode.Height, BlockNode.Extends, BlockNode.AncestorAt,
           BlockNode.WorkSum, BlockNode.Genesis;
      var view := new UtxoViewpoint(curve);
      StoredHolds(curve, state, Tip());
      HoldsStands(curve, state.utxoSet, UtxosAt(Tip()));
      FastIsValid(node, fastAdd);
      var prepared := PrepareBlock(node, fastAdd, view);
      if prepared.None? {
        return false;
      }
      ConnectBlock(node, view, prepared.value);
      connected := true;
    }

    /** Choose between the main chain and the branch of a newly filed block: the branch with more work
        wins, and on a tie the main chain stays. */
    method ConnectBestChain(node: BlockNode, fastAdd: bool) returns (r: Result<nat, RuleError>)
      requires Valid() && node in index.status && node.parent.Some? && !Tip().Extends(node)
      requires !index.status[node].KnownInvalid()
      requires BestBut(index.status, node, Tip())
      requires fastAdd && ValidChain(node.parent.value) ==> ValidBlock(node)
      modifies this`state, bestChain, bestChain.nodes, index`status
      ensures bestChain.nodes == old(bestChain.nodes) || fresh(bestChain.nodes)
      ensures Valid() && Grows(old(index.status), index.status)
      ensures BestIs(index.status, Tip())
      ensures Tip() == old(Tip()) || (Tip() == node && r.Ok? && node.WorkSum() > old(Tip()).WorkSum())
      ensures Tip() == old(Tip()) ==> SameState(old(state), state)
      ensures r.Err? ==> node in index.status && index.status[node].KnownInvalid()
      ensures r.Ok? ==> ForkPoint(Tip(), node).Some? && r.value == node.Height() - ForkPoint(Tip(), node).value.Height()
    {
      hide Stored, Sound, RecoversKeys, FlagsOk, TreeOk, TipsAre, HasFailed, Grows, SameState, ForkPoint, ValidChain,
           ValidBlock, Stands, Clean, JournalOk, UtxosAt, Holds;
      ghost var before, first := index.status, state;
      GrowsItself(index.status);
      PathIndependent(curve, first, first, Tip());
      ForkAtTip(node);
      var tip := bestChain.Tip().value;
      if node.parent.value.hash == tip.hash {
        SameHashSameNode(node.parent.value, tip, node);
        var connected := ExtendMainChain(node, fastAdd);
        if connected {
          BestWith(before, index.status, node, tip, node);
          return Ok(0);
        }
        InvalidHasFailed(index.status, node);
        BestWithout(before, index.status, node, tip);
        return Err(Rejected);
      }
      if node.WorkSum() <= tip.WorkSum() {
        ForkExists(index.index, index.genesis, tip, node);
        var fork := bestChain.FindFork(Some(node));
        ForkPointIsHighest(tip, node);
        ExtendsIffAncestorAt(node, fork.value);
        BestWith(before, index.status, node, tip, tip);
        return Ok(node.Height() - fork.value.Height());
      }
      var done := ReorganizeChain(node);
      if done.Err? {
        InvalidHasFailed(index.status, node);
        BestWithout(before, index.status, node, tip);
        return Err(done.error);
      }
      BestWith(before, index.status, node, tip, node);
      r := Ok(0);
    }

    /** No known block that could still be connected has more work than the tip. */
    ghost predicate Best()
      requires Valid()
      reads this, index, bestChain, bestChain.nodes
    {
      BestIs(index.status, Tip())
    }

    /** The block passes everything that is checked before it is filed. */
    ghost predicate Fileable(rules: Rules, block: RawBlock)
      reads index
    {
      && block.prevHash in index.index
      && var prevNode := index.index[block.prevHash];
         prevNode in index.status && !index.status[prevNode].KnownInvalid()
         && rules.positioned(block, prevNode) && rules.contextual(block, prevNode)
    }

    /** File a block whose parent is known and let it compete for the best chain. */
    method MaybeAcceptBlock(rules: Rules, block: RawBlock) returns (r: Result<nat, RuleError>)
      requires Valid() && Best() && Trusted(rules) && block.hash !in index.index
      modifies this`state, bestChain, bestChain.nodes, index
      ensures bestChain.nodes == old(bestChain.nodes) || fresh(bestChain.nodes)
      ensures Valid() && Best()
      ensures Tip() == old(Tip()) || (r.Ok? && Tip().hash == block.hash && Tip().WorkSum() > old(Tip()).WorkSum())
      ensures Tip() == old(Tip()) ==> SameState(old(state), state)
      ensures index.index == if old(Fileable(rules, block))
        then old(index.index)[block.hash := NewBlockNode(block, old(index.index)[block.prevHash])] else old(index.index)
      ensures !old(Fileable(rules, block)) ==> r.Err? && index.status == old(index.status) && state == old(state)
      ensures old(Fileable(rules, block)) ==> block.hash in index.index && index.index[block.hash] in index.status
      ensures old(Fileable(rules, block)) && r.Err? ==> index.status[index.index[block.hash]].KnownInvalid()
    {
      hide Stored, Sound, RecoversKeys, FlagsOk, TreeOk, TipsAre, HasFailed, Grows, SameState, BestIs;
      PathIndependent(curve, state, state, Tip());
      var found := index.LookupNode(block.prevHash);
      if found.None? {
        return Err(MissingParent);
      }
      var prevNode := found.value;
      index.KnownStatus(block.prevHash);
      if index.status[prevNode].KnownInvalid() {
        return Err(InvalidAncestorBlock);
      }
      if !rules.positioned(block, prevNode) || !rules.contextual(block, prevNode) {
        return Err(Rejected);
      }
      var newNode := NewBlockNode(block, prevNode);
      NewIsElsewhere(index.index, index.genesis, bestChain.Tip().value, newNode);
      ghost var before := index.status;
      HashOfKnown(index.index, index.genesis, block.prevHash);
      index.AddNode(newNode);
      NewIsOnlyRival(before, newNode, bestChain.Tip().value);
      r := ConnectBestChain(newNode, rules.fastAdd);
    }

    /** Between calls: everything fits together and no orphan has been filed. */
    ghost predicate Ready()
      reads this, index, bestChain, bestChain.nodes, pool
    {
      && Valid() && Best() && pool.Valid()
      && forall h :: h in pool.orphans ==> h !in index.index
    }

    /** Accept the orphans whose parent has been filed, and then those whose parents they are. */
    method ProcessOrphans(rules: Rules, hash: Hash) returns (r: Result<(), RuleError>)
      requires Ready() && Trusted(rules) && hash in index.index
      modifies this`state, bestChain, bestChain.nodes, index, pool`orphans, pool`prevOrphans
      ensures bestChain.nodes == old(bestChain.nodes) || fresh(bestChain.nodes)
      ensures Ready()
      ensures Tip() == old(Tip()) || Tip().WorkSum() > old(Tip()).WorkSum()
      ensures Filed(old(index.index), index.index, old(pool.orphans))
      ensures r.Ok? ==> forall h :: h in old(pool.orphans) ==> h in pool.orphans || h in index.index
      ensures r.Ok? ==> Waiting(old(index.index), index.index, pool.orphans, hash, [])
    {
      hide Stored, Sound, RecoversKeys, FlagsOk, TreeOk, TipsAre, BestIs, PoolOk, Filed, Waiting, Coherent, StatusFor,
           Commits, Trusted;
      ghost var index0, orphans0, tip0 := index.index, pool.orphans, Tip();
      FiledNothing(index0, orphans0);
      var processHashes := [hash];
      WaitingStart(index0, pool.orphans, hash);
      while |processHashes| > 0
        invariant bestChain.nodes == old(bestChain.nodes) || fresh(bestChain.nodes)
        invariant Ready() && forall q :: q in processHashes ==> q in index.index
        invariant Tip() == tip0 || Tip().WorkSum() > tip0.WorkSum()
        invariant Filed(index0, index.index, orphans0) && pool.orphans.Keys <= orphans0.Keys
        invariant forall h :: h in orphans0 ==> h in pool.orphans || h in index.index
        invariant Waiting(index0, index.index, pool.orphans, hash, processHashes)
        decreases pool.orphans.Keys, |processHashes|
      {
        var processHash := processHashes[0];
        assert [processHash] + processHashes[1..] == processHashes;
        processHashes := processHashes[1..];
        var accepted;
        r, accepted := AcceptChildren(rules, processHash, processHashes, hash, index0, orphans0);
        if r.Err? {
          return;
        }
        processHashes := processHashes + accepted;
      }
      r := Ok(());
    }

    /** Take an orphan out of the pool and file it. */
    method AcceptOrphan(rules: Rules, orphan: Orphan, ghost queue: seq<Hash>, ghost hash: Hash,
                        ghost index0: map<Hash, BlockNode>, ghost orphans0: Orphans)
      returns (r: Result<nat, RuleError>)
      requires Ready() && Trusted(rules) && Pooled(pool.orphans, orphan) && pool.orphans.Keys <= orphans0.Keys
      requires Filed(index0, index.index, orphans0) && Waiting(index0, index.index, pool.orphans, hash, queue)
      modifies this`state, bestChain, bestChain.nodes, index, pool`orphans, pool`prevOrphans
      ensures bestChain.nodes == old(bestChain.nodes) || fresh(bestChain.nodes)
      ensures Ready() && pool.orphans == old(pool.orphans) - {orphan.block.hash}
      ensures forall h :: h in old(index.index) ==> h in index.index
      ensures Tip() == old(Tip()) || Tip().WorkSum() > old(Tip()).WorkSum()
      ensures Filed(index0, index.index, orphans0)
      ensures r.Ok? ==> orphan.block.hash in index.index
      ensures Waiting(index0, index.index, pool.orphans, hash, queue + [orphan.block.hash])
    {
      hide Stored, Sound, RecoversKeys, FlagsOk, TreeOk, TipsAre, BestIs, PoolOk, Filed, Waiting, Coherent, StatusFor,
           Commits, Trusted, SameState, Without;
      ghost var orphans, filed := pool.orphans, index.index;
      OrphanCommits(pool.orphans, orphan);
      pool.RemoveOrphanBlock(orphan);
      r := MaybeAcceptBlock(rules, orphan.block);
      FiledMore(index0, filed, index.index, orphans0, orphan.block.hash);
      WaitingMore(index0, filed, index.index, orphans, hash, queue, orphan.block.hash);
    }

    lemma OrphanCommits(orphans: Orphans, orphan: Orphan)
      requires pool.Valid() && orphans == pool.orphans && Pooled(orphans, orphan)
      ensures Commits(pool.parentOf, orphan.block)
    {
      hide PoolOk, Commits;
    }

    /** Accept the orphans of one parent, in the order they are listed. */
    method AcceptChildren(rules: Rules, processHash: Hash, ghost queue: seq<Hash>, ghost hash: Hash,
                          ghost index0: map<Hash, BlockNode>, ghost orphans0: Orphans)
      returns (r: Result<(), RuleError>, accepted: seq<Hash>)
      requires Ready() && Trusted(rules) && processHash in index.index
      requires Filed(index0, index.index, orphans0) && pool.orphans.Keys <= orphans0.Keys
      requires forall h :: h in orphans0 ==> h in pool.orphans || h in index.index
      requires Waiting(index0, index.index, pool.orphans, hash, [processHash] + queue)
      modifies this`state, bestChain, bestChain.nodes, index, pool`orphans, pool`prevOrphans
      ensures bestChain.nodes == old(bestChain.nodes) || fresh(bestChain.nodes)
      ensures Ready()
      ensures forall h :: h in old(index.index) ==> h in index.index
      ensures Tip() == old(Tip()) || Tip().WorkSum() > old(Tip()).WorkSum()
      ensures Filed(index0, index.index, orphans0) && pool.orphans.Keys <= old(pool.orphans.Keys)
      ensures r.Ok? ==> forall h :: h in orphans0 ==> h in pool.orphans || h in index.index
      ensures r.Ok? ==> Waiting(index0, index.index, pool.orphans, hash, queue + accepted)
      ensures r.Ok? ==> forall q :: q in accepted ==> q in index.index
      ensures r.Ok? && accepted == [] ==> pool.orphans == old(pool.orphans)
      ensures r.Ok? && accepted != [] ==> pool.orphans.Keys < old(pool.orphans.Keys)
    {
      hide Env, Valid, Best, Stored, Sound, RecoversKeys, FlagsOk, TreeOk, TipsAre, BestIs, PoolOk, Filed, Waiting,
           Coherent, StatusFor, Commits, Trusted, BlockNode.Height, BlockNode.Extends, BlockNode.AncestorAt,
           BlockNode.WorkSum, BlockNode.Genesis;
      accepted := [];
      assert [processHash] + queue + accepted == [processHash] + queue;
      var i := 0;
      while processHash in pool.prevOrphans && i < |pool.prevOrphans[processHash]|
        invariant i == 0
        invariant bestChain.nodes == old(bestChain.nodes) || fresh(bestChain.nodes)
        invariant Ready() && processHash in index.index && forall q :: q in accepted ==> q in index.index
        invariant forall h :: h in old(index.index) ==> h in index.index
        invariant Tip() == old(Tip()) || Tip().WorkSum() > old(Tip()).WorkSum()
        invariant Filed(index0, index.index, orphans0) && pool.orphans.Keys <= old(pool.orphans.Keys)
        invariant forall h :: h in orphans0 ==> h in pool.orphans || h in index.index
        invariant Waiting(index0, index.index, pool.orphans, hash, [processHash] + queue + accepted)
        invariant if accepted == [] then pool.orphans == old(pool.orphans)
          else pool.orphans.Keys < old(pool.orphans.Keys)
        decreases pool.orphans.Keys
      {
        var orphan := pool.prevOrphans[processHash][i];
        ListedIsPooled(pool.orphans, pool.prevOrphans, processHash, i);
        var ok := AcceptOrphan(rules, orphan, [processHash] + queue + accepted, hash, index0, orphans0);
        i := i - 1;
        if ok.Err? {
          return Err(ok.error), accepted;
        }
        QueueMore([processHash] + queue, accepted, orphan.block.hash);
        accepted := accepted + [orphan.block.hash];
        i := i + 1;
      }
      NoneListed(pool.orphans, pool.prevOrphans, processHash);
      QueueAssoc([processHash], queue, accepted);
      WaitingNext(index0, index.index, pool.orphans, hash, processHash, queue + accepted);
      r := Ok(());
    }

    /** A new block that passes the checks on its own. */
    ghost predicate Admitted(rules: Rules, block: RawBlock)
      reads index, pool
    {
      block.hash !in index.index && block.hash !in pool.orphans && rules.sane(block) && rules.checkpointed(block)
    }

    /** File a block whose parent is known, and the orphans this frees. */
    method AcceptWithOrphans(rules: Rules, block: RawBlock) returns (r: Result<nat, RuleError>)
      requires Ready() && Trusted(rules) && block.hash !in index.index && block.hash !in pool.orphans
      modifies this`state, bestChain, bestChain.nodes, index, pool`orphans, pool`prevOrphans
      ensures bestChain.nodes == old(bestChain.nodes) || fresh(bestChain.nodes)
      ensures Ready()
      ensures Tip() == old(Tip()) || Tip().WorkSum() > old(Tip()).WorkSum()
      ensures forall h :: h in old(index.index) ==> h in index.index && index.index[h] == old(index.index)[h]
      ensures !old(Fileable(rules, block)) ==>
        r.Err? && index.index == old(index.index) && index.status == old(index.status) && Tip() == old(Tip())
          && state == old(state)
      ensures old(Fileable(rules, block)) ==>
        block.hash in index.index && index.index[block.hash] == NewBlockNode(block, old(index.index)[block.prevHash])
      ensures r.Ok? ==> forall h :: h in old(pool.orphans) ==> h in pool.orphans || h in index.index
      ensures r.Ok? ==> forall h :: h in pool.orphans ==>
        var p := pool.orphans[h].block.prevHash; p in index.index ==> p in old(index.index)
    {
      hide Env, Stored, Sound, RecoversKeys, FlagsOk, TreeOk, TipsAre, BestIs, PoolOk, Coherent, StatusFor, Commits,
           Trusted, SameState, BlockNode.Height, BlockNode.Extends, BlockNode.AncestorAt, BlockNode.WorkSum,
           BlockNode.Genesis;
      r := MaybeAcceptBlock(rules, block);
      if r.Err? {
        return;
      }
      var done := ProcessOrphans(rules, block.hash);
      if done.Err? {
        return Err(done.error);
      }
    }

    /** Take in a block from anywhere: duplicates are refused, blocks without a known parent wait in the
        orphan pool, everything else is filed and may become the new tip, with the orphans it frees. */
    method ProcessBlock(rules: Rules, block: RawBlock, now: int) returns (r: Result<(nat, bool), RuleError>)
      requires Ready() && Trusted(rules) && Commits(pool.parentOf, block)
      modifies this`state, bestChain, bestChain.nodes, index, pool
      ensures bestChain.nodes == old(bestChain.nodes) || fresh(bestChain.nodes)
      ensures Ready()
      ensures Tip() == old(Tip()) || Tip().WorkSum() > old(Tip()).WorkSum()
      ensures block.hash in old(index.index) || block.hash in old(pool.orphans) ==> r == Err(DuplicateBlock)
      ensures forall h :: h in old(index.index) ==> h in index.index && index.index[h] == old(index.index)[h]
      ensures !old(Admitted(rules, block)) ==> r.Err? && pool.orphans == old(pool.orphans)
      ensures !old(Admitted(rules, block)) || (block.prevHash in old(index.index) && !old(Fileable(rules, block))) ==>
        r.Err? && index.index == old(index.index) && index.status == old(index.status) && Tip() == old(Tip())
          && state == old(state)
      ensures r.Ok? && r.value.1 <==> old(Admitted(rules, block)) && block.prevHash !in old(index.index)
      ensures old(Admitted(rules, block)) && old(Fileable(rules, block)) ==>
        block.hash in index.index && index.index[block.hash] == NewBlockNode(block, old(index.index)[block.prevHash])
      ensures r.Ok? && r.value.1 ==> block.prevHash !in index.index && index.index == old(index.index)
      ensures r.Ok? && r.value.1 ==> Tip() == old(Tip()) && state == old(state)
      ensures r.Ok? && r.value.1 ==> block.hash in pool.orphans && pool.orphans[block.hash].block == block
      ensures r.Ok? && r.value.1 ==> KeepsUnexpired(old(pool.orphans), pool.orphans, now, block.hash)
      ensures r.Ok? && !r.value.1 ==> block.hash in index.index
      ensures r.Ok? && !r.value.1 ==> forall h :: h in old(pool.orphans) ==> h in pool.orphans || h in index.index
      ensures r.Ok? && !r.value.1 ==> forall h :: h in pool.orphans ==>
        var p := pool.orphans[h].block.prevHash; p in index.index ==> p in old(index.index)
    {
      hide Stored, Sound, RecoversKeys, FlagsOk, TreeOk, TipsAre, BestIs, PoolOk, Coherent, StatusFor, Commits,
           Trusted, KeepsUnexpired, SameState, BlockNode.Height, BlockNode.Extends, BlockNode.AncestorAt,
           BlockNode.WorkSum, BlockNode.Genesis;
      var blockHash := block.hash;
      var have := index.HaveBlock(blockHash);
      if have {
        return Err(DuplicateBlock);
      }
      if blockHash in pool.orphans {
        return Err(DuplicateBlock);
      }
      if !rules.sane(block) {
        return Err(Rejected);
      }
      if !rules.checkpointed(block) {
        return Err(Rejected);
      }
      have := index.HaveBlock(block.prevHash);
      if !have {
        pool.AddOrphanBlock(block, now);
        assert forall h :: h in pool.orphans ==> h !in index.index by {
          OnlyOlder(old(pool.orphans), pool.orphans, now, blockHash);
        }
        return Ok((0, true));
      }
      var forkLen := AcceptWithOrphans(rules, block);
      if forkLen.Err? {
        return Err(forkLen.error);
      }
      r := Ok((forkLen.value, false));
    }

    lemma SameHashSameNode(a: BlockNode, tip: BlockNode, node: BlockNode)
      requires Valid() && node in index.status && node.parent == Some(a) && tip == Tip() && a.hash == tip.hash
      ensures a == tip
    {
      hide Stored, Sound, RecoversKeys, FlagsOk, TipsAre;
      AncestorsKnown(index.index, index.genesis, node, a);
    }
  }

  /** A block that arrives, when it does and what the rules say of it and the orphans it frees. */
  datatype Arrival = Arrival(block: RawBlock, now: int, rules: Rules)

  /** Whatever blocks arrive in whatever order, the stored state is the fold from genesis along the
      best branch known, all blocks of that branch are valid, and no block that could still be
      connected has more work. */
  method Run(curve: Curve, genesis: BlockNode, ghost parentOf: Hash -> Hash, connects: BlockNode -> bool,
             arrivals: seq<Arrival>)
    returns (b: BlockChain)
    requires RecoversKeys(curve) && Sound(connects) && GenesisOk(genesis)
    requires forall i :: 0 <= i < |arrivals| ==> Commits(parentOf, arrivals[i].block) && Trusted(arrivals[i].rules)
    ensures b.Ready() && b.curve == curve
    ensures b.Tip().Genesis() == genesis && Stored(curve, b.state, b.Tip())
    ensures forall n :: b.Tip().Extends(n) ==>
      n in b.index.status && b.index.status[n].valid && !b.index.status[n].KnownInvalid() && ValidChain(n)
    ensures forall n :: n in b.index.status && n.WorkSum() > b.Tip().WorkSum() ==> HasFailed(b.index.status, n)
    ensures forall n :: n in b.index.status && b.index.status[n].invalidAncestor ==>
      n.parent.Some? && HasFailed(b.index.status, n.parent.value)
    ensures TipsAre(b.index.index, b.index.chainTips, {})
    ensures PoolOk(b.pool.orphans, b.pool.prevOrphans)
  {
    hide Stored, Sound, RecoversKeys, FlagsOk, TreeOk, TipsAre, HasFailed, PoolOk, ValidChain, Commits, GenesisOk,
         KeepsUnexpired, Trusted;
    b := new BlockChain(curve, genesis, parentOf, connects);
    BestAtGenesis(genesis);
    for i := 0 to |arrivals|
      invariant fresh(b) && fresh(b.index) && fresh(b.bestChain) && fresh(b.bestChain.nodes) && fresh(b.pool)
      invariant b.Ready() && b.curve == curve && b.pool.parentOf == parentOf && b.index.genesis == genesis
    {
      var r := b.ProcessBlock(arrivals[i].rules, arrivals[i].block, arrivals[i].now);
    }
    AncestorsKnown(b.index.index, b.index.genesis, b.Tip(), b.Tip());
    MainChainValid(b.index.status, b.Tip());
    InvalidAncestors(b.index.status);
  }

  lemma BestAtGenesis(genesis: BlockNode)
    ensures BestIs(map[genesis := DATA_STORED.With(VALID)], genesis)
  {}

  lemma MainChainValid(status: Statuses, tip: BlockNode)
    requires FlagsOk(status) && tip in status && status[tip].valid
    ensures forall n :: tip.Extends(n) ==> n in status && status[n].valid && !status[n].KnownInvalid() && ValidChain(n)
  {
    hide FlagsOk, ValidChain;
    forall n | tip.Extends(n) ensures n in status && status[n].valid && !status[n].KnownInvalid() && ValidChain(n) {
      ValidAncestors(status, tip, n);
      ValidFacts(status, n);
    }
  }

  lemma InvalidAncestors(status: Statuses)
    requires FlagsOk(status)
    ensures forall n :: n in status && status[n].invalidAncestor ==> n.parent.Some? && HasFailed(status, n.parent.value)
  {
    hide HasFailed, ValidChain;
    forall n | n in status && status[n].invalidAncestor ensures n.parent.Some? && HasFailed(status, n.parent.value) {
      assert NodeFlagsOk(status, n);
    }
  }

  lemma ForkExists(index: map<Hash, BlockNode>, genesis: BlockNode, tip: BlockNode, node: BlockNode)
    requires TreeOk(index, genesis) && Known(index, tip) && Known(index, node)
    ensures ForkPoint(tip, node).Some?
    ensures tip.Extends(ForkPoint(tip, node).value) && node.Extends(ForkPoint(tip, node).value)
  {
    hide TreeOk;
    AncestorsKnown(index, genesis, tip, tip);
    AncestorsKnown(index, genesis, node, node);
    ForkPointIsHighest(tip, node);
  }

  /** A tip forks from itself at itself. */
  lemma ForkAtTip(node: BlockNode)
    ensures ForkPoint(node, node) == Some(node)
  {}

  lemma HashOfKnown(index: map<Hash, BlockNode>, genesis: BlockNode, h: Hash)
    requires TreeOk(index, genesis) && h in index
    ensures index[h].hash == h && Known(index, index[h])
  {}

  lemma NewIsElsewhere(index: map<Hash, BlockNode>, genesis: BlockNode, tip: BlockNode, node: BlockNode)
    requires TreeOk(index, genesis) && Known(index, tip) && node.hash !in index
    ensures !tip.Extends(node) && tip != node
  {
    if tip.Extends(node) {
      AncestorsKnown(index, genesis, tip, node);
    }
  }

  lemma NewIsOnlyRival(status: Statuses, node: BlockNode, tip: BlockNode)
    requires BestIs(status, tip) && node !in status
    ensures BestBut(status[node := DATA_STORED], node, tip)
  {
    hide HasFailed;
    forall n | n in status && !HasFailed(status[node := DATA_STORED], n) ensures n.WorkSum() <= tip.WorkSum() {
      FailedKept(status, node, n);
    }
  }

  /** What has been filed since came from the orphan pool. */
  ghost predicate Filed(before: map<Hash, BlockNode>, after: map<Hash, BlockNode>, orphans: Orphans) {
    && (forall h :: h in before ==> h in after && after[h] == before[h])
    && (forall h :: h in after ==> h in before || h in orphans)
  }

  /** Orphans whose parent is `hash` or has been filed since have their parent in the queue. */
  ghost predicate Waiting(before: map<Hash, BlockNode>, after: map<Hash, BlockNode>, orphans: Orphans, hash: Hash,
                          queue: seq<Hash>) {
    forall h :: h in orphans ==>
      var p := orphans[h].block.prevHash;
      p == hash || (p in after && p !in before) ==> p in queue
  }

  lemma QueueMore(queue: seq<Hash>, accepted: seq<Hash>, h: Hash)
    ensures queue + accepted + [h] == queue + (accepted + [h])
  {}

  lemma QueueAssoc(a: seq<Hash>, b: seq<Hash>, c: seq<Hash>)
    ensures a + b + c == a + (b + c)
  {}

  lemma FiledNothing(index: map<Hash, BlockNode>, orphans: Orphans)
    ensures Filed(index, index, orphans)
  {}

  lemma FiledMore(before: map<Hash, BlockNode>, mid: map<Hash, BlockNode>, after: map<Hash, BlockNode>,
                  orphans: Orphans, h: Hash)
    requires Filed(before, mid, orphans) && h in orphans && h !in mid
    requires after == mid || (h in after && after == mid[h := after[h]])
    ensures Filed(before, after, orphans)
  {}

  lemma WaitingStart(index: map<Hash, BlockNode>, orphans: Orphans, hash: Hash)
    ensures Waiting(index, index, orphans, hash, [hash])
  {}

  lemma WaitingMore(before: map<Hash, BlockNode>, mid: map<Hash, BlockNode>, after: map<Hash, BlockNode>,
                    orphans: Orphans, hash: Hash,
                    queue: seq<Hash>, h: Hash)
    requires Waiting(before, mid, orphans, hash, queue)
    requires after == mid || (h in after && after == mid[h := after[h]])
    ensures Waiting(before, after, orphans - {h}, hash, queue + [h])
  {}

  lemma WaitingNext(before: map<Hash, BlockNode>, after: map<Hash, BlockNode>, orphans: Orphans, hash: Hash, next: Hash,
                    queue: seq<Hash>)
    requires Waiting(before, after, orphans, hash, [next] + queue)
    requires forall h :: h in orphans ==> orphans[h].block.prevHash != next
    ensures Waiting(before, after, orphans, hash, queue)
  {}

  lemma ListedIsPooled(orphans: Orphans, prev: PrevOrphans, p: Hash, i: nat)
    requires PoolOk(orphans, prev) && p in prev && i < |prev[p]|
    ensures prev[p][i].block.prevHash == p && Pooled(orphans, prev[p][i])
  {
    assert ListOk(orphans, p, prev[p]);
  }

  lemma NoneListed(orphans: Orphans, prev: PrevOrphans, p: Hash)
    requires PoolOk(orphans, prev) && (p in prev ==> |prev[p]| == 0)
    ensures forall h :: h in orphans ==> orphans[h].block.prevHash != p
  {
    assert p in prev ==> ListOk(orphans, p, prev[p]);
  }

  lemma OnlyOlder(before: Orphans, after: Orphans, now: int, added: Hash)
    requires KeepsUnexpired(before, after, now, added)
    ensures forall h :: h in after && h != added ==> h in before
  {}

  lemma StoredHolds(curve: Curve, st: State, tip: BlockNode)
    requires Stored(curve, st, tip)
    ensures Holds(curve, st.utxoSet, UtxosAt(tip))
  {}

  /** The target is the last block to attach. */
  lemma TargetLast(fork: BlockNode, targetTip: BlockNode, i: nat)
    requires targetTip.Extends(fork) && i < |AttachPath(fork, targetTip)|
    ensures AttachPath(fork, targetTip)[i] == targetTip || targetTip in AttachPath(fork, targetTip)[i + 1..]
  {
    var path := AttachPath(fork, targetTip);
    if i < |path| - 1 {
      assert path[i + 1..][|path| - i - 2] == targetTip;
    }
  }

  lemma TargetCollected(n: BlockNode, targetTip: BlockNode)
    requires targetTip.Extends(n)
    ensures n == targetTip || targetTip in AttachPath(n, targetTip)
  {}

  lemma StillFlagged(before: Statuses, after: Statuses, n: BlockNode)
    requires Grows(before, after) && n in before && before[n].KnownInvalid()
    ensures n in after && after[n].KnownInvalid()
  {}

  lemma StillValid(before: Statuses, after: Statuses, n: BlockNode)
    requires Grows(before, after) && n in before && before[n].valid
    ensures n in after && after[n].valid
  {}

  ghost predicate BestBut(status: Statuses, node: BlockNode, tip: BlockNode) {
    forall n :: n in status && n != node && !HasFailed(status, n) ==> n.WorkSum() <= tip.WorkSum()
  }

  /** The new block lost: it has failed. */
  lemma BestWithout(before: Statuses, after: Statuses, node: BlockNode, tip: BlockNode)
    requires Grows(before, after) && BestBut(before, node, tip) && HasFailed(after, node)
    ensures BestIs(after, tip)
  {
    hide HasFailed;
    forall n | n in after && !HasFailed(after, n) ensures n.WorkSum() <= tip.WorkSum() {
      if HasFailed(before, n) {
        FailedGrows(before, after, n);
      }
    }
  }

  lemma BestWith(before: Statuses, after: Statuses, node: BlockNode, tip: BlockNode, newTip: BlockNode)
    requires Grows(before, after) && BestBut(before, node, tip)
    requires newTip.WorkSum() >= node.WorkSum() && newTip.WorkSum() >= tip.WorkSum()
    ensures BestIs(after, newTip)
  {
    hide HasFailed;
    forall n | n in after && !HasFailed(after, n) ensures n.WorkSum() <= newTip.WorkSum() {
      if HasFailed(before, n) {
        FailedGrows(before, after, n);
      }
    }
  }

  lemma FailedItself(status: Statuses, n: BlockNode)
    requires n in status && status[n].validateFailed
    ensures HasFailed(status, n)
  {
    assert n.Extends(n);
  }

  lemma GrowsItself(status: Statuses)
    ensures Grows(status, status)
  {}

  lemma StillFailed(before: Statuses, after: Statuses, n: BlockNode)
    requires Grows(before, after) && n in before && n.parent.Some? && HasFailed(before, n.parent.value)
    ensures n in after && HasFailed(after, n.parent.value)
  {
    hide HasFailed;
    FailedGrows(before, after, n.parent.value);
  }

  lemma DisapprovesAboveOne(n: BlockNode)
    requires ValidBlock(n) && !n.block.approvesParent
    ensures n.parent.value.parent.Some?
  {}

  lemma {:induction false} PathOneMore(fork: BlockNode, n: BlockNode, targetTip: BlockNode)
    requires n != fork && n.Extends(fork) && targetTip.Extends(n)
    ensures targetTip.Extends(n.parent.value) && [n] + AttachPath(n, targetTip) == AttachPath(n.parent.value, targetTip)
  {
    if targetTip != n {
      PathOneMore(fork, n, targetTip.parent.value);
      ExtendsIffAncestorAt(targetTip.parent.value, n.parent.value);
    }
  }

  lemma AllAboveFailed(status: Statuses, n: BlockNode, targetTip: BlockNode)
    requires FlagsOk(status) && targetTip in status && targetTip.Extends(n) && HasFailed(status, n)
    ensures forall m :: m in AttachPath(n, targetTip) ==>
      m in status && m.parent.Some? && HasFailed(status, m.parent.value)
  {
    hide FlagsOk, HasFailed;
    var path := AttachPath(n, targetTip);
    forall i | 0 <= i < |path|
      ensures path[i] in status && path[i].parent.Some? && HasFailed(status, path[i].parent.value)
    {
      AttachPathAt(n, targetTip, i);
      ValidAncestors(status, targetTip, path[i]);
      if i > 0 {
        AttachPathAt(n, targetTip, i - 1);
      }
      HasFailedBelow(status, path[i].parent.value, n);
    }
  }

  lemma AllAboveFailedFrom(status: Statuses, fork: BlockNode, targetTip: BlockNode, i: nat)
    requires FlagsOk(status) && targetTip in status && targetTip.Extends(fork) && i < |AttachPath(fork, targetTip)|
    requires HasFailed(status, AttachPath(fork, targetTip)[i])
    ensures forall m :: m in AttachPath(fork, targetTip)[i + 1..] ==>
              m in status && m.parent.Some? && HasFailed(status, m.parent.value)
  {
    hide FlagsOk, HasFailed;
    var path := AttachPath(fork, targetTip);
    forall j | i < j < |path|
      ensures path[j] in status && path[j].parent.Some? && HasFailed(status, path[j].parent.value)
    {
      AttachPathAt(fork, targetTip, j);
      ValidAncestors(status, targetTip, path[j]);
      PathAbove(fork, targetTip, i, j - 1);
      HasFailedBelow(status, path[j - 1], path[i]);
    }
  }

  lemma {:induction false} PathAbove(fork: BlockNode, targetTip: BlockNode, i: nat, j: nat)
    requires targetTip.Extends(fork) && i <= j < |AttachPath(fork, targetTip)|
    ensures AttachPath(fork, targetTip)[j].Extends(AttachPath(fork, targetTip)[i])
  {
    if i < j {
      PathAbove(fork, targetTip, i, j - 1);
      AttachPathAt(fork, targetTip, j);
    }
  }

  lemma StoredGenesis(curve: Curve, genesis: BlockNode)
    requires genesis.parent.None?
    ensures Stored(curve, State(map[], map[], Totals(|genesis.block.txs|, 0)), genesis)
  {}

  lemma StoredStore(curve: Curve, st: State, tip: BlockNode)
    requires Stored(curve, st, tip)
    ensures StoreOk(curve, st.utxoSet) && Holds(curve, st.utxoSet, UtxosAt(tip))
  {}

  lemma StoredParts(curve: Curve, st: State, tip: BlockNode)
    requires Stored(curve, st, tip)
    ensures Holds(curve, st.utxoSet, UtxosAt(tip)) && StoreOk(curve, st.utxoSet)
    ensures st.totals == TotalsAt(tip) && Journaled(curve, st.journal, tip)
  {
    hide StoreOk, UtxosAt, Journaled, TotalsAt;
    assert Holds(curve, st.utxoSet, UtxosAt(tip));
  }

  lemma StoredIs(curve: Curve, st: State, tip: BlockNode)
    requires Holds(curve, st.utxoSet, UtxosAt(tip)) && st.totals == TotalsAt(tip) && Journaled(curve, st.journal, tip)
    ensures Stored(curve, st, tip)
  {}
}
