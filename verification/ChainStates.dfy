/** What the chain engine stores besides the block index, and what it must be for a given tip
    (blockchain/chain.go, blockchain/chainio.go, blockchain/subsidy.go). */
module ChainStates {
  import opened Wrappers
  import opened Transactions
  import opened ScriptCodec
  import opened SpendJournal
  import opened UtxoState
  import opened UtxoViews
  import opened BlockNodes
  import opened BlockIndexes
  import opened BlockJournals
  import opened ChainHistory

  /** The running totals of the best state snapshot. */
  datatype Totals = Totals(txns: int, subsidy: int)

  /** What one database transaction updates atomically. */
  datatype State = State(utxoSet: Store, journal: map<Hash, Bytes>, totals: Totals)

  // The totals, folded from genesis.

  function ValueIn(tx: Tx): int {
    if tx.ins == [] then 0 else tx.ins[0].valueIn
  }

  function VoteSubsidy(stxs: seq<Tx>): int {
    if stxs == [] then 0 else
    var last := stxs[|stxs| - 1];
    VoteSubsidy(stxs[..|stxs| - 1]) + (if last.id.txType == SSGen then ValueIn(last) else 0)
  }

  /** The subsidy of a block's votes, and of the parent's coinbase when the block approves of it. */
  function AddedSubsidy(block: Block, parent: Block): int {
    (if block.approvesParent && parent.txs != [] then ValueIn(parent.txs[0]) else 0) + VoteSubsidy(block.stxs)
  }

  function TotalsAt(n: BlockNode): Totals {
    match n.parent
    case None => Totals(|n.block.txs|, 0)
    case Some(p) =>
      var before := TotalsAt(p);
      Totals(before.txns + |n.block.txs| + |n.block.stxs|, before.subsidy + AddedSubsidy(n.block, p.block))
  }

  method CalculateAddedSubsidy(block: Block, parent: Block) returns (subsidy: int)
    requires block.approvesParent ==> parent.txs != [] && parent.txs[0].ins != []
    requires VotesSpendOneTicket(block.stxs)
    ensures subsidy == AddedSubsidy(block, parent)
  {
    subsidy := 0;
    if block.approvesParent {
      subsidy := subsidy + parent.txs[0].ins[0].valueIn;
    }
    ghost var start := subsidy;
    for i := 0 to |block.stxs|
      invariant subsidy == start + VoteSubsidy(block.stxs[..i])
    {
      assert block.stxs[..i + 1][..i] == block.stxs[..i];
      if block.stxs[i].id.txType == SSGen {
        subsidy := subsidy + block.stxs[i].ins[0].valueIn;
      }
    }
    assert block.stxs[..|block.stxs|] == block.stxs;
  }

  // What the totals count.

  function AllInputs(txs: seq<Tx>): seq<TxIn> {
    if txs == [] then [] else AllInputs(txs[..|txs| - 1]) + txs[|txs| - 1].ins
  }

  /** The values the inputs claim. */
  function ValueOf(ins: seq<TxIn>): int {
    if ins == [] then 0 else ValueOf(ins[..|ins| - 1]) + ins[|ins| - 1].valueIn
  }

  function CountCreates(evs: seq<Event>): nat {
    if evs == [] then 0 else CountCreates(evs[..|evs| - 1]) + (if evs[|evs| - 1].Create? then 1 else 0)
  }

  lemma {:induction false} ValueAppend(a: seq<TxIn>, b: seq<TxIn>)
    ensures ValueOf(a + b) == ValueOf(a) + ValueOf(b)
    decreases |b|
  {
    if b == [] {
      assert a + b == a;
    } else {
      ValueAppend(a, b[..|b| - 1]);
      assert (a + b)[..|a + b| - 1] == a + b[..|b| - 1];
    }
  }

  lemma {:induction false} CreatesAppend(a: seq<Event>, b: seq<Event>)
    ensures CountCreates(a + b) == CountCreates(a) + CountCreates(b)
    decreases |b|
  {
    if b == [] {
      assert a + b == a;
    } else {
      CreatesAppend(a, b[..|b| - 1]);
      assert (a + b)[..|a + b| - 1] == a + b[..|b| - 1];
    }
  }

  lemma ValueOne(txIn: TxIn)
    ensures ValueOf([txIn]) == txIn.valueIn
  {
    assert [txIn][..0] == [];
  }

  /** The inputs of a stake transaction that spend nothing are the stakebases. */
  lemma StakeTxValue(tx: Tx)
    requires !tx.id.isCoinBase && (tx.id.txType == SSGen ==> |tx.ins| == 2)
    ensures ValueOf(tx.ins) == ValueOf(InputsOf(tx)) + (if tx.id.txType == SSGen then ValueIn(tx) else 0)
  {
    hide ValueOf;
    if tx.id.txType == SSGen {
      assert tx.ins == [tx.ins[0]] + tx.ins[1..];
      ValueAppend([tx.ins[0]], tx.ins[1..]);
      ValueOne(tx.ins[0]);
    } else {
      assert tx.ins[0..] == tx.ins;
    }
  }

  lemma {:induction false} StakeValue(txs: seq<Tx>, height: nat)
    requires (forall i :: 0 <= i < |txs| ==> !txs[i].id.isCoinBase) && VotesSpendOneTicket(txs)
    ensures ValueOf(AllInputs(txs)) == ValueOf(SpendsIn(TreeEvents(txs, height))) + VoteSubsidy(txs)
  {
    hide ValueOf, SpendsIn, TxEvents, InputsOf, ValueIn;
    if txs == [] {
      NoValue();
    } else {
      var init, last := txs[..|txs| - 1], txs[|txs| - 1];
      StakeValue(init, height);
      StakeTxValue(last);
      SpendsInTx(last, height, |init|);
      SpendsInAppend(TreeEvents(init, height), TxEvents(last, height, |init|));
      ValueAppend(SpendsIn(TreeEvents(init, height)), InputsOf(last));
      ValueAppend(AllInputs(init), last.ins);
    }
  }

  lemma NoValue()
    ensures ValueOf([]) == 0 && SpendsIn([]) == []
  {}

  /** The inputs of a regular tree that spend nothing are those of its coinbase. */
  lemma {:induction false} RegularValue(txs: seq<Tx>, height: nat)
    requires |txs| > 0 && txs[0].id.isCoinBase && |txs[0].ins| == 1
    requires forall i :: 0 <= i < |txs| ==> txs[i].id.txType == Regular && (i > 0 ==> !txs[i].id.isCoinBase)
    ensures ValueOf(AllInputs(txs)) == ValueOf(SpendsIn(TreeEvents(txs, height))) + ValueIn(txs[0])
  {
    hide ValueOf, SpendsIn, TxEvents, InputsOf;
    var init, last := txs[..|txs| - 1], txs[|txs| - 1];
    SpendsInTx(last, height, |init|);
    SpendsInAppend(TreeEvents(init, height), TxEvents(last, height, |init|));
    ValueAppend(SpendsIn(TreeEvents(init, height)), InputsOf(last));
    ValueAppend(AllInputs(init), last.ins);
    if init == [] {
      NoValue();
      CoinbaseSpendsNothing(last);
      assert last.ins == [last.ins[0]];
      ValueOne(last.ins[0]);
    } else {
      RegularValue(init, height);
      StakeTxValue(last);
    }
  }

  lemma CoinbaseSpendsNothing(tx: Tx)
    requires tx.id.isCoinBase
    ensures InputsOf(tx) == []
  {}

  lemma {:induction false} TreeCreates(txs: seq<Tx>, height: nat)
    ensures CountCreates(TreeEvents(txs, height)) == |txs|
  {
    hide InputsOf;
    if txs != [] {
      var init, last := txs[..|txs| - 1], txs[|txs| - 1];
      TreeCreates(init, height);
      CreatesAppend(TreeEvents(init, height), TxEvents(last, height, |init|));
      TxCreates(last, height, |init|);
    }
  }

  lemma TxCreates(tx: Tx, height: nat, index: nat)
    ensures CountCreates(TxEvents(tx, height, index)) == 1
  {
    hide InputsOf, SpendEvents;
    var spends, create := SpendEvents(InputsOf(tx)), [Create(tx.id, height, index)];
    CreatesAppend(spends, create);
    SpendsCreateNothing(InputsOf(tx));
    assert create[..0] == [];
  }

  lemma {:induction false} SpendsCreateNothing(ins: seq<TxIn>)
    ensures CountCreates(SpendEvents(ins)) == 0
  {
    if ins != [] {
      SpendsCreateNothing(ins[..|ins| - 1]);
      assert SpendEvents(ins)[..|ins| - 1] == SpendEvents(ins[..|ins| - 1]);
    }
  }

  /** The inputs that count for the subsidy before a block: those of all blocks below, without the
      regular tree of a disapproved parent. */
  function InputsBefore(n: BlockNode): seq<TxIn>
    decreases n
  {
    match n.parent
    case None => []
    case Some(p) =>
      InputsBefore(p) + AllInputs(p.block.stxs) + (if n.block.approvesParent then AllInputs(p.block.txs) else [])
  }

  /** The same with the stake tree of the block. */
  function CountedInputs(n: BlockNode): seq<TxIn> {
    InputsBefore(n) + AllInputs(n.block.stxs)
  }

  /** The inputs among them that spend an output. */
  function CountedSpends(n: BlockNode): seq<TxIn> {
    SpendsIn(BaseHistory(n)) + SpendsIn(StakeEvents(n))
  }

  /** All events of the blocks of a branch, those of disapproved transactions too. */
  function BranchEvents(n: BlockNode): seq<Event> {
    match n.parent
    case None => []
    case Some(p) => BranchEvents(p) + (StakeEvents(n) + RegularEvents(n))
  }

  /** The transaction total counts the transactions made along the branch, and the genesis block's. */
  lemma {:induction false} TransactionsCounted(n: BlockNode)
    ensures TotalsAt(n).txns == |n.Genesis().block.txs| + CountCreates(BranchEvents(n))
  {
    hide AddedSubsidy, StakeEvents, RegularEvents;
    if n.parent.Some? {
      TransactionsCounted(n.parent.value);
      CreatesAppend(BranchEvents(n.parent.value), StakeEvents(n) + RegularEvents(n));
      CreatesAppend(StakeEvents(n), RegularEvents(n));
      OwnCreates(n);
    }
  }

  lemma OwnCreates(n: BlockNode)
    ensures CountCreates(StakeEvents(n)) == |n.block.stxs| && CountCreates(RegularEvents(n)) == |n.block.txs|
  {
    TreeCreates(n.block.stxs, n.Height());
    TreeCreates(n.block.txs, n.Height());
  }

  lemma TreeValues(n: BlockNode)
    requires TreesOk(n.block)
    ensures ValueOf(AllInputs(n.block.stxs)) == ValueOf(SpendsIn(StakeEvents(n))) + VoteSubsidy(n.block.stxs)
    ensures ValueOf(AllInputs(n.block.txs)) == ValueOf(SpendsIn(RegularEvents(n))) + ValueIn(n.block.txs[0])
  {
    hide ValueOf, SpendsIn, TreeEvents, VoteSubsidy, ValueIn, AllInputs;
    StakeValue(n.block.stxs, n.Height());
    RegularValue(n.block.txs, n.Height());
  }

  /** What a block adds to the subsidy is the value of the inputs that spend nothing: those of its own
      stake tree and, when it approves of its parent, those of the parent's regular tree. */
  lemma SubsidyAdded(n: BlockNode)
    requires n.parent.Some? && TreesOk(n.block) && TreesOk(n.parent.value.block)
    ensures var p := n.parent.value;
            TotalsAt(n).subsidy - TotalsAt(p).subsidy
            == ValueOf(AllInputs(n.block.stxs)) - ValueOf(SpendsIn(StakeEvents(n)))
               + (if n.block.approvesParent then ValueOf(AllInputs(p.block.txs)) - ValueOf(SpendsIn(RegularEvents(p)))
                 else 0)
  {
    hide ValueOf, SpendsIn, StakeEvents, RegularEvents, VoteSubsidy, ValueIn, AllInputs;
    TreeValues(n);
    TreeValues(n.parent.value);
  }

  /** So the subsidy total is the value of all inputs that count for it and spend nothing. */
  lemma {:induction false} SubsidyCounted(n: BlockNode)
    requires ValidChain(n) && GenesisOk(n.Genesis())
    ensures TotalsAt(n).subsidy == ValueOf(CountedInputs(n)) - ValueOf(CountedSpends(n))
    decreases n
  {
    hide ValueOf, SpendsIn, StakeEvents, RegularEvents, AllInputs, TotalsAt, InputsBefore, BaseHistory, TreesOk;
    if n.parent.None? {
      GenesisCounted(n);
    } else {
      var p := n.parent.value;
      SubsidyCounted(p);
      ChainTrees(n);
      ChainTrees(p);
      SubsidyAdded(n);
      CountedStep(n);
    }
  }

  lemma ChainTrees(n: BlockNode)
    requires ValidChain(n) && GenesisOk(n.Genesis())
    ensures TreesOk(n.block)
  {
    hide Valid, Fresh, TreesOk;
  }

  lemma GenesisCounted(n: BlockNode)
    requires GenesisOk(n)
    ensures TotalsAt(n).subsidy == ValueOf(CountedInputs(n)) - ValueOf(CountedSpends(n))
  {
    hide ValueOf, SpendsIn, StakeEvents, AllInputs;
    NoValue();
    GenesisSpendsNothing(n);
    assert [] + AllInputs(n.block.stxs) == [];
  }

  lemma CountedStep(n: BlockNode)
    requires n.parent.Some? && ValidBlock(n) && GenesisOk(n.Genesis())
    ensures var p := n.parent.value;
            ValueOf(CountedInputs(n)) - ValueOf(CountedInputs(p))
            == ValueOf(AllInputs(n.block.stxs))
               + (if n.block.approvesParent then ValueOf(AllInputs(p.block.txs)) else 0)
    ensures var p := n.parent.value;
            ValueOf(CountedSpends(n)) - ValueOf(CountedSpends(p))
            == ValueOf(SpendsIn(StakeEvents(n)))
               + (if n.block.approvesParent then ValueOf(SpendsIn(RegularEvents(p))) else 0)
  {
    hide ValueOf, SpendsIn, StakeEvents, RegularEvents, AllInputs, Valid, Fresh;
    var p := n.parent.value;
    NoValue();
    ValueAppend(InputsBefore(n), AllInputs(n.block.stxs));
    ValueAppend(CountedInputs(p), if n.block.approvesParent then AllInputs(p.block.txs) else []);
    ValueAppend(SpendsIn(BaseHistory(n)), SpendsIn(StakeEvents(n)));
    ValueAppend(SpendsIn(BaseHistory(p)), SpendsIn(StakeEvents(p)));
    SpendsInAppend(BaseHistory(p), StakeEvents(p));
    SpendsInAppend(BaseHistory(p), StakeEvents(p) + RegularEvents(p));
    SpendsInAppend(StakeEvents(p), RegularEvents(p));
    ValueAppend(SpendsIn(StakeEvents(p)), SpendsIn(RegularEvents(p)));
    ValueAppend(SpendsIn(BaseHistory(p)), SpendsIn(StakeEvents(p)) + SpendsIn(RegularEvents(p)));
    if p.parent.None? {
      GenesisSpendsNothing(p);
      assert n.block.approvesParent && BaseHistory(n) == [];
      assert [] + SpendsIn(StakeEvents(n)) == SpendsIn(StakeEvents(n));
      assert CountedSpends(p) == [] + [] == [];
    } else if n.block.approvesParent {
      assert BaseHistory(n) == BaseHistory(p) + (StakeEvents(p) + RegularEvents(p));
      assert SpendsIn(BaseHistory(n)) ==
        SpendsIn(BaseHistory(p)) + (SpendsIn(StakeEvents(p)) + SpendsIn(RegularEvents(p)));
    } else {
      assert BaseHistory(n) == BaseHistory(p) + StakeEvents(p);
      assert SpendsIn(BaseHistory(n)) == CountedSpends(p);
    }
  }

  lemma GenesisSpendsNothing(n: BlockNode)
    requires GenesisOk(n)
    ensures SpendsIn(RegularEvents(n)) == [] && SpendsIn(StakeEvents(n)) == [] && AllInputs(n.block.stxs) == []
    ensures BaseHistory(n) == [] && History(n) == []
  {
    assert n.block.txs[1..] == [];
    SpendsInRegular(n.block.txs, n.Height());
  }

  // The stored state of a tip.

  /** There is a journal entry for exactly the blocks of the main chain after genesis. */
  ghost predicate Journaled(curve: Curve, journal: map<Hash, Bytes>, tip: BlockNode) {
    && (forall n :: tip.Extends(n) && n.parent.Some? ==> n.hash in journal && JournalBytes(curve, n, journal[n.hash]))
    && (forall h :: h in journal ==> OnBranch(tip, h))
  }

  ghost predicate OnBranch(tip: BlockNode, h: Hash) {
    exists n: BlockNode :: tip.Extends(n) && n.parent.Some? && n.hash == h
  }

  /** The stored state is that of the tip: it does not depend on how the chain got there. */
  ghost predicate Stored(curve: Curve, st: State, tip: BlockNode) {
    && Holds(curve, st.utxoSet, UtxosAt(tip))
    && st.totals == TotalsAt(tip)
    && Journaled(curve, st.journal, tip)
  }

  /** Two states of the same tip have the same unspent outputs, totals and journaled blocks. */
  ghost predicate SameState(a: State, b: State) {
    && (forall id :: AbsEntry(id, Fetch(a.utxoSet, id)) == AbsEntry(id, Fetch(b.utxoSet, id)))
    && a.totals == b.totals && a.journal.Keys == b.journal.Keys
  }

  lemma PathIndependent(curve: Curve, a: State, b: State, tip: BlockNode)
    requires Stored(curve, a, tip) && Stored(curve, b, tip)
    ensures SameState(a, b)
  {
    hide AbsEntry, UtxosAt, Get, StoreOk, JournalBytes;
    forall id ensures AbsEntry(id, Fetch(a.utxoSet, id)) == AbsEntry(id, Fetch(b.utxoSet, id)) {
      assert AbsEntry(id, Fetch(a.utxoSet, id)) == Get(UtxosAt(tip), id);
    }
    forall h ensures h in a.journal <==> h in b.journal {
      assert h in a.journal ==> OnBranch(tip, h);
      assert h in b.journal ==> OnBranch(tip, h);
    }
  }

  /** Hashes identify the blocks of a branch. */
  ghost predicate DistinctHashes(tip: BlockNode) {
    forall a: BlockNode, b: BlockNode :: tip.Extends(a) && tip.Extends(b) && a.hash == b.hash ==> a == b
  }

  lemma KnownDistinct(index: map<Hash, BlockNode>, genesis: BlockNode, tip: BlockNode)
    requires TreeOk(index, genesis) && Known(index, tip)
    ensures DistinctHashes(tip)
  {
    hide TreeOk;
    forall a: BlockNode, b: BlockNode | tip.Extends(a) && tip.Extends(b) && a.hash == b.hash ensures a == b {
      AncestorsKnown(index, genesis, tip, a);
      AncestorsKnown(index, genesis, tip, b);
    }
  }

  lemma JournalAdded(curve: Curve, journal: map<Hash, Bytes>, n: BlockNode, bytes: Bytes)
    requires n.parent.Some? && Journaled(curve, journal, n.parent.value) && DistinctHashes(n)
    requires JournalBytes(curve, n, bytes)
    ensures Journaled(curve, journal[n.hash := bytes], n)
  {
    hide JournalBytes;
    var after := journal[n.hash := bytes];
    forall m | n.Extends(m) && m.parent.Some? ensures m.hash in after && JournalBytes(curve, m, after[m.hash]) {
      if m != n {
        assert n.parent.value.Extends(m);
      }
    }
    forall h | h in after ensures OnBranch(n, h) {
      if h == n.hash {
        assert n.Extends(n);
      } else {
        var m: BlockNode :| n.parent.value.Extends(m) && m.parent.Some? && m.hash == h;
        assert n.Extends(m);
      }
    }
  }

  lemma JournalRemoved(curve: Curve, journal: map<Hash, Bytes>, n: BlockNode)
    requires n.parent.Some? && Journaled(curve, journal, n) && DistinctHashes(n)
    ensures Journaled(curve, journal - {n.hash}, n.parent.value)
  {
    hide JournalBytes;
    var after, p := journal - {n.hash}, n.parent.value;
    forall m | p.Extends(m) && m.parent.Some? ensures m.hash in after && JournalBytes(curve, m, after[m.hash]) {
      assert n.Extends(m);
      ExtendsIffAncestorAt(p, m);
      assert m != n;
    }
    forall h | h in after ensures OnBranch(p, h) {
      var m: BlockNode :| n.Extends(m) && m.parent.Some? && m.hash == h;
      assert m != n;
    }
  }

  lemma JournalAt(curve: Curve, journal: map<Hash, Bytes>, tip: BlockNode)
    requires Journaled(curve, journal, tip) && tip.parent.Some?
    ensures tip.hash in journal && JournalBytes(curve, tip, journal[tip.hash])
  {
    assert tip.Extends(tip);
  }

  /** A node marked valid has a valid block whose parent is marked valid. */
  lemma ValidFacts(status: Statuses, n: BlockNode)
    requires FlagsOk(status) && n in status && status[n].valid
    ensures ValidChain(n) && !status[n].KnownInvalid()
    ensures n.parent.Some? ==> ValidBlock(n) && ValidChain(n.parent.value)
    ensures n.parent.Some? ==> n.parent.value in status && status[n.parent.value].valid
  {
    hide ValidBlock, HasFailed;
    assert NodeFlagsOk(status, n);
  }

  /** The genesis block has nothing but a coinbase. */
  ghost predicate GenesisOk(genesis: BlockNode) {
    genesis.parent.None? && TreesOk(genesis.block) && |genesis.block.txs| == 1 && genesis.block.stxs == []
  }

  lemma CoinbaseInput(genesis: BlockNode, n: BlockNode)
    requires ValidChain(n) && GenesisOk(genesis) && n.Genesis() == genesis
    ensures n.block.txs != [] && n.block.txs[0].ins != []
    ensures n.parent.Some? ==>
      VotesSpendOneTicket(n.block.stxs) && TreesOk(n.block) && n.parent.value.Genesis() == genesis
  {
    hide Valid, Fresh;
  }

  lemma HoldsStands(curve: Curve, utxoSet: Store, u: Utxos)
    requires Holds(curve, utxoSet, u)
    ensures Stands(curve, map[], utxoSet, u, {}) && Clean(map[]) && StoreOk(curve, utxoSet)
  {
    hide AbsEntry, Get;
  }
}
