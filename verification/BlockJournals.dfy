/** Storing and fetching the spend journal entry of a whole block (blockchain/chainio.go). */
module BlockJournals {
  import opened Wrappers
  import opened Transactions
  import opened ScriptCodec
  import opened SpendJournal
  import opened UtxoState
  import opened BlockNodes
  import TxOutCodec
  import UtxoViews

  /** What the journal of a valid block records fits its storage format. */
  lemma RestoresStorable(curve: Curve, s: SpentTxOut, txIn: TxIn, u: Utxos)
    requires WellFormed(u) && ValidEvent(u, Spend(txIn)) && Restores(curve, s, txIn, u)
    ensures Storable(s)
  {
    hide Compress, TxOutCodec.SelfDelimiting;
    var id, i := txIn.prevOut.id, txIn.prevOut.index;
    assert EntryWellFormed(id, u[id]);
    UtxoViews.CompressedDelimits(curve, u[id].coins[i].pkScript);
  }

  lemma {:induction false} AdequateStorable(curve: Curve, u: Utxos, evs: seq<Event>, stxos: seq<SpentTxOut>)
    requires WellFormed(u) && Valid(u, evs) && Adequate(curve, u, evs, stxos)
    ensures forall i :: 0 <= i < |stxos| ==> Storable(stxos[i])
  {
    hide Restores, ValidEvent, WellFormed, Storable;
    if evs != [] {
      var init, last := evs[..|evs| - 1], evs[|evs| - 1];
      if last.Create? {
        AdequateStorable(curve, u, init, stxos);
      } else {
        AdequateStorable(curve, u, init, stxos[..|stxos| - 1]);
        ConnectWellFormed(u, init);
        RestoresStorable(curve, stxos[|stxos| - 1], last.txIn, Connect(u, init));
      }
    }
  }

  /** The transactions of a block that have journal entries, in their order. */
  function JournalTxns(block: Block): seq<Tx> {
    block.stxs + if block.txs == [] then [] else block.txs[1..]
  }

  lemma {:induction false} SpentInputsAppend(a: seq<Tx>, b: seq<Tx>)
    ensures SpentInputs(a + b) == SpentInputs(a) + SpentInputs(b)
    decreases |b|
  {
    hide SpendsOf, SpentInputs;
    if b == [] {
      NoSpentInputs();
      assert a + b == a;
    } else {
      var init, last := b[..|b| - 1], b[|b| - 1];
      SpentInputsAppend(a, init);
      SpentInputsSnoc(init, last);
      SpentInputsSnoc(a + init, last);
      assert init + [last] == b && (a + init) + [last] == a + b;
    }
  }

  lemma NoSpentInputs()
    ensures SpentInputs([]) == []
  {}

  lemma SpentInputsSnoc(txs: seq<Tx>, tx: Tx)
    ensures SpentInputs(txs + [tx]) == SpentInputs(txs) + SpendsOf(tx)
  {
    hide SpendsOf;
    assert (txs + [tx])[..|txs|] == txs;
  }

  lemma JournalInputs(n: BlockNode)
    requires ValidBlock(n)
    ensures SpendsIn(StakeEvents(n) + RegularEvents(n)) == SpentInputs(JournalTxns(n.block))
    ensures VotesSpendOneTicket(JournalTxns(n.block))
  {
    hide Valid, Fresh, SpendsIn, TreeEvents, SpentInputs;
    SpendsInAppend(StakeEvents(n), RegularEvents(n));
    SpendsInTree(n.block.stxs, n.Height());
    SpendsInRegular(n.block.txs, n.Height());
    SpentInputsAppend(n.block.stxs, n.block.txs[1..]);
  }

  /** The bytes are a stored journal entry that can undo the block. */
  ghost predicate JournalBytes(curve: Curve, n: BlockNode, bytes: Bytes) {
    exists stxos ::
      && JournalOk(curve, n, stxos)
      && (forall i :: 0 <= i < |stxos| ==> Storable(stxos[i]))
      && bytes == EncodeEntry(curve, stxos)
  }

  lemma NothingStored(curve: Curve, ins: seq<TxIn>)
    requires ins != []
    ensures DecodeEntry([], ins).Err?
  {}

  /** Reading the stored entry of a block gives a journal that undoes the block just as well. */
  lemma ReadBack(curve: Curve, n: BlockNode, stxos: seq<SpentTxOut>)
    requires ValidChain(n) && JournalOk(curve, n, stxos) && forall i :: 0 <= i < |stxos| ==> Storable(stxos[i])
    ensures var ins := SpentInputs(JournalTxns(n.block));
            |stxos| == |ins| && JournalOk(curve, n, AllAsRead(curve, stxos, ins))
            && DecodeEntry(EncodeEntry(curve, stxos), ins) ==
               Ok((AllAsRead(curve, stxos, ins), |EncodeEntry(curve, stxos)|))
  {
    hide Valid, Fresh, SpendsIn, TreeEvents, SpentInputs, Adequate, TreesOk, DecodeEntry, EncodeEntry, Storable,
         AllAsRead, WellFormed, Base;
    ChainWellFormed(n);
    JournalInputs(n);
    AdequateAsRead(curve, Base(n), StakeEvents(n) + RegularEvents(n), stxos);
    EntryRoundTrip(curve, stxos, SpentInputs(JournalTxns(n.block)));
  }

  method StoreSpendJournalEntry(curve: Curve, n: BlockNode, stxos: seq<SpentTxOut>) returns (bytes: Bytes)
    requires ValidChain(n) && JournalOk(curve, n, stxos)
    ensures JournalBytes(curve, n, bytes)
  {
    hide Valid, Fresh, Adequate, TreesOk, EncodeEntry, Storable, WellFormed, Base, StakeEvents, RegularEvents;
    ChainWellFormed(n);
    AdequateStorable(curve, Base(n), StakeEvents(n) + RegularEvents(n), stxos);
    var r := SerializeSpendJournalEntry(curve, stxos);
    bytes := r.value;
  }

  method FetchSpendJournalEntry(curve: Curve, n: BlockNode, bytes: Bytes) returns (stxos: seq<SpentTxOut>)
    requires ValidChain(n) && ValidBlock(n) && JournalBytes(curve, n, bytes)
    ensures JournalOk(curve, n, stxos)
  {
    hide ValidChain, ValidBlock, JournalOk, DecodeEntry, EncodeEntry, Storable, SpentInputs;
    JournalInputs(n);
    ghost var put :| JournalOk(curve, n, put)
      && (forall i :: 0 <= i < |put| ==> Storable(put[i])) && bytes == EncodeEntry(curve, put);
    ReadBack(curve, n, put);
    if bytes == [] {
      NothingStoredIsNothing(curve, put, SpentInputs(JournalTxns(n.block)));
    }
    var r := DeserializeSpendJournalEntry(bytes, JournalTxns(n.block));
    stxos := r.value;
  }

  lemma NothingStoredIsNothing(curve: Curve, stxos: seq<SpentTxOut>, ins: seq<TxIn>)
    requires |stxos| == |ins| && EncodeEntry(curve, stxos) == []
    requires DecodeEntry(EncodeEntry(curve, stxos), ins).Ok?
    ensures ins == [] && AllAsRead(curve, stxos, ins) == []
  {
    if ins != [] {
      NothingStored(curve, ins);
      assert false;
    }
  }
}
