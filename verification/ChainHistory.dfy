/** What the unspent output set of a block is, by the transactions of its branch: which outputs are
    unspent, where the transactions stand and what is kept of them (blockchain/utxoviewpoint.go). */
module ChainHistory {
  import opened Wrappers
  import opened Transactions
  import opened BlockNodes
  import opened SpendJournal
  import opened UtxoEntries
  import opened ScriptCodec
  import opened UtxoState
  import opened UtxoViews
  import Amounts
  import TxOutCodec
  import UtxoCodec

  /** The events before a block that count for it: without the regular tree of a disapproved parent. */
  function BaseHistory(n: BlockNode): seq<Event>
    decreases n, 0
  {
    match n.parent
    case None => []
    case Some(p) => if n.block.approvesParent then History(p) else BaseHistory(p) + StakeEvents(p)
  }

  /** All events up to a block that count for it. */
  function History(n: BlockNode): seq<Event>
    decreases n, 1
  {
    if n.parent.None? then [] else BaseHistory(n) + (StakeEvents(n) + RegularEvents(n))
  }

  lemma {:induction false} HistoryIs(n: BlockNode)
    requires ValidChain(n)
    ensures Valid(map[], History(n)) && Connect(map[], History(n)) == UtxosAt(n)
    ensures Valid(map[], BaseHistory(n)) && Connect(map[], BaseHistory(n)) == Base(n)
    decreases n
  {
    hide Connect, Valid, Fresh, TreesOk, StakeEvents, RegularEvents;
    NoEvents();
    if n.parent.Some? {
      var p := n.parent.value;
      HistoryIs(p);
      assert ValidBlock(n) && ValidChain(p);
      if !n.block.approvesParent {
        assert ValidBlock(p);
        ConnectAppend(Base(p), StakeEvents(p), RegularEvents(p));
        ConnectAppend(map[], BaseHistory(p), StakeEvents(p));
      }
      var own := StakeEvents(n) + RegularEvents(n);
      assert Connect(map[], BaseHistory(n)) == Base(n) && Valid(map[], BaseHistory(n));
      assert Valid(Base(n), own);
      ConnectAppend(map[], BaseHistory(n), own);
      assert History(n) == BaseHistory(n) + own;
      assert Valid(map[], BaseHistory(n) + own);
      assert UtxosAt(n) == Connect(Base(n), own);
    }
  }

  lemma NoEvents()
    ensures Valid(map[], []) && Connect(map[], []) == map[]
  {}

  // Which outputs are unspent.

  /** The event spends the output. */
  predicate SpendsOut(ev: Event, id: TxId, i: nat) {
    ev.Spend? && ev.txIn.prevOut == OutPoint(id, i)
  }

  /** Event k makes the transaction, and none after it spends the output. */
  ghost predicate UnspentSince(evs: seq<Event>, k: nat, id: TxId, height: nat, index: nat, i: nat) {
    && k < |evs| && evs[k] == Create(id, height, index)
    && forall m :: k < m < |evs| ==> !SpendsOut(evs[m], id, i)
  }

  ghost predicate HasUnspent(evs: seq<Event>, id: TxId, i: nat) {
    exists k: nat, height: nat, index: nat :: UnspentSince(evs, k, id, height, index, i)
  }

  /** An output is unspent after some events exactly when it can be spent at all, its transaction was
      made and no event since has spent it. */
  lemma {:induction false} UnspentAfter(evs: seq<Event>, id: TxId, i: nat)
    requires Valid(map[], evs)
    ensures var u := Connect(map[], evs);
            id in u && i in u[id].coins <==>
              i < |id.outs| && !id.outs[i].unspendable && HasUnspent(evs, id, i)
    decreases |evs|
  {
    hide HeaderOf, IdOk, HasUnspent;
    if evs != [] {
      var init, last := evs[..|evs| - 1], evs[|evs| - 1];
      assert evs == init + [last];
      ConnectSnoc(map[], init, last);
      UnspentAfter(init, id, i);
      UnspentStep(init, last, id, i);
      ConnectIsWellFormed(init);
      OneStep(Connect(map[], init), last, id, i);
    } else {
      NoneUnspent(id, i);
    }
  }

  lemma NoneUnspent(id: TxId, i: nat)
    ensures !HasUnspent([], id, i)
  {}

  lemma ConnectIsWellFormed(evs: seq<Event>)
    requires Valid(map[], evs)
    ensures WellFormed(Connect(map[], evs))
  {
    hide WellFormed, Valid, Connect;
    EmptyWellFormed();
    ConnectWellFormed(map[], evs);
  }

  lemma UnspentStep(evs: seq<Event>, ev: Event, id: TxId, i: nat)
    ensures HasUnspent(evs + [ev], id, i) <==>
      (ev.Create? && ev.id == id) || (HasUnspent(evs, id, i) && !SpendsOut(ev, id, i))
  {
    var more := evs + [ev];
    if ev.Create? && ev.id == id {
      assert UnspentSince(more, |evs|, id, ev.height, ev.index, i);
    } else if HasUnspent(evs, id, i) && !SpendsOut(ev, id, i) {
      var k: nat, height: nat, index: nat :| UnspentSince(evs, k, id, height, index, i);
      assert UnspentSince(more, k, id, height, index, i);
    }
    if HasUnspent(more, id, i) {
      var k: nat, height: nat, index: nat :| UnspentSince(more, k, id, height, index, i);
      if k < |evs| {
        assert UnspentSince(evs, k, id, height, index, i) by {
          forall m | k < m < |evs| ensures !SpendsOut(evs[m], id, i) {
            assert more[m] == evs[m];
          }
        }
        assert more[|evs|] == ev;
      }
    }
  }

  lemma OneStep(u: Utxos, ev: Event, id: TxId, i: nat)
    requires WellFormed(u) && ValidEvent(u, ev)
    ensures var v := Step(u, ev);
            id in v && i in v[id].coins <==>
              if ev.Create? && ev.id == id then i < |id.outs| && !id.outs[i].unspendable
              else id in u && i in u[id].coins && !SpendsOut(ev, id, i)
  {
    hide HeaderOf, IdOk, WellFormed;
    match ev {
      case Create(made, _, _) =>
        assert i in CoinsOf(made) <==> i < |made.outs| && !made.outs[i].unspendable;
      case Spend(txIn) =>
        if txIn.prevOut.id == id {
          OneSpend(u, id, txIn.prevOut.index, i);
        }
    }
  }

  lemma OneSpend(u: Utxos, id: TxId, spent: nat, i: nat)
    requires id in u && spent in u[id].coins
    ensures var v := RemoveCoin(u, id, spent); id in v && i in v[id].coins <==> i in u[id].coins && i != spent
  {
    var coins := u[id].coins - {spent};
    assert i in coins <==> i in u[id].coins && i != spent;
  }

  /** Along a valid chain exactly those outputs are unspent that can be spent, whose transaction counts
      and that nothing has spent since it was made; their contents are those of the transaction. */
  lemma UnspentExactly(n: BlockNode, id: TxId, i: nat)
    requires ValidChain(n)
    ensures var u := UtxosAt(n);
            && (id in u && i in u[id].coins <==>
                  i < |id.outs| && !id.outs[i].unspendable && HasUnspent(History(n), id, i))
            && (id in u && i in u[id].coins ==>
                  u[id].coins[i] == Coin(id.outs[i].value, id.outs[i].version, id.outs[i].pkScript))
  {
    hide HeaderOf, IdOk, HasUnspent, Connect, Valid, History;
    HistoryIs(n);
    UnspentAfter(History(n), id, i);
    ChainWellFormed(n);
    var u := UtxosAt(n);
    if id in u && i in u[id].coins {
      assert EntryWellFormed(id, u[id]);
    }
  }

  // What the events of a block are.

  /** Input m of the transaction spends an output: not that of a coinbase, nor a vote's stakebase. */
  predicate IsSpend(tx: Tx, m: nat) {
    m < |tx.ins| && !tx.id.isCoinBase && !(tx.id.txType == SSGen && m == 0)
  }

  ghost predicate SpentByTree(txs: seq<Tx>, txIn: TxIn) {
    exists j: nat, m: nat :: SpentAt(txs, j, m, txIn)
  }

  predicate SpentAt(txs: seq<Tx>, j: nat, m: nat, txIn: TxIn) {
    j < |txs| && IsSpend(txs[j], m) && txs[j].ins[m] == txIn
  }

  lemma TxSpends(tx: Tx, txIn: TxIn)
    ensures txIn in InputsOf(tx) <==> exists m: nat :: IsSpend(tx, m) && tx.ins[m] == txIn
  {
    var ins, first := InputsOf(tx), FirstSpend(tx);
    if txIn in ins {
      var k :| 0 <= k < |ins| && ins[k] == txIn;
      assert IsSpend(tx, first + k) && tx.ins[first + k] == txIn;
    }
    if m: nat :| IsSpend(tx, m) && tx.ins[m] == txIn {
      assert ins[m - first] == txIn;
    }
  }

  /** The creation of each transaction under the height of the block and its own index, and a spend for
      each input that spends something. */
  ghost predicate IsTreeEvent(txs: seq<Tx>, height: nat, ev: Event) {
    match ev
    case Create(id, h, index) => h == height && index < |txs| && txs[index].id == id
    case Spend(txIn) => SpentByTree(txs, txIn)
  }

  lemma {:induction false} TreeEventsAre(txs: seq<Tx>, height: nat, ev: Event)
    ensures ev in TreeEvents(txs, height) <==> IsTreeEvent(txs, height, ev)
  {
    hide TreeEvents, IsTreeEvent, InputsOf;
    if txs == [] {
      NothingSpent(height, ev);
    } else {
      var init, last := txs[..|txs| - 1], txs[|txs| - 1];
      TreeEventsAre(init, height, ev);
      TreeEventsNext(init, last, height, ev);
      IsTreeEventNext(init, last, height, ev);
      assert init + [last] == txs;
    }
  }

  lemma TreeEventsNext(init: seq<Tx>, last: Tx, height: nat, ev: Event)
    ensures ev in TreeEvents(init + [last], height) <==>
      ev in TreeEvents(init, height) || (ev.Spend? && ev.txIn in InputsOf(last))
        || ev == Create(last.id, height, |init|)
  {
    hide InputsOf;
    assert (init + [last])[..|init|] == init;
    InSpendEvents(InputsOf(last), ev);
    assert ev in TreeEvents(init + [last], height) <==>
      ev in TreeEvents(init, height) || ev in SpendEvents(InputsOf(last)) || ev == Create(last.id, height, |init|);
  }

  lemma IsTreeEventNext(init: seq<Tx>, last: Tx, height: nat, ev: Event)
    ensures IsTreeEvent(init + [last], height, ev) <==>
      IsTreeEvent(init, height, ev) || (ev.Spend? && ev.txIn in InputsOf(last)) || ev == Create(last.id, height, |init|)
  {
    hide InputsOf, SpentByTree;
    if ev.Spend? {
      TxSpends(last, ev.txIn);
      SpentByOneMore(init, last, ev.txIn);
    }
  }

  lemma NothingSpent(height: nat, ev: Event)
    ensures TreeEvents([], height) == [] && !IsTreeEvent([], height, ev)
  {}

  lemma InSpendEvents(ins: seq<TxIn>, ev: Event)
    ensures ev in SpendEvents(ins) <==> ev.Spend? && ev.txIn in ins
  {
    if ev.Spend? && ev.txIn in ins {
      var k :| 0 <= k < |ins| && ins[k] == ev.txIn;
      assert SpendEvents(ins)[k] == ev;
    }
  }

  lemma SpentByOneMore(txs: seq<Tx>, tx: Tx, txIn: TxIn)
    ensures SpentByTree(txs + [tx], txIn) <==>
      SpentByTree(txs, txIn) || exists m: nat :: IsSpend(tx, m) && tx.ins[m] == txIn
  {
    var more := txs + [tx];
    if j: nat, m: nat :| SpentAt(txs, j, m, txIn) {
      assert SpentAt(more, j, m, txIn);
    }
    if m: nat :| IsSpend(tx, m) && tx.ins[m] == txIn {
      assert SpentAt(more, |txs|, m, txIn);
    }
    if j: nat, m: nat :| SpentAt(more, j, m, txIn) {
      if j < |txs| {
        assert SpentAt(txs, j, m, txIn);
      }
    }
  }

  // Where the transactions stand.

  /** The transaction is at its index in its tree of the block. */
  predicate StandsIn(a: BlockNode, id: TxId, index: nat) {
    var tree := if id.txType == Regular then a.block.txs else a.block.stxs;
    index < |tree| && tree[index].id == id
  }

  ghost predicate StandsAt(n: BlockNode, id: TxId, height: nat, index: nat) {
    exists a: BlockNode :: n.Extends(a) && a.parent.Some? && a.Height() == height && StandsIn(a, id, index)
  }

  lemma CreatedIn(n: BlockNode, ev: Event)
    requires ValidBlock(n) && ev in StakeEvents(n) + RegularEvents(n) && ev.Create?
    ensures StandsAt(n, ev.id, ev.height, ev.index)
  {
    hide Valid, Fresh, Base, TreeEvents;
    TreeEventsAre(n.block.stxs, n.Height(), ev);
    TreeEventsAre(n.block.txs, n.Height(), ev);
    assert n.Extends(n) && StandsIn(n, ev.id, ev.index);
  }

  lemma {:induction false} HistoryStands(n: BlockNode, ev: Event)
    requires ValidChain(n) && ev.Create?
    ensures ev in History(n) ==> StandsAt(n, ev.id, ev.height, ev.index)
    ensures ev in BaseHistory(n) ==> StandsAt(n, ev.id, ev.height, ev.index)
    decreases n
  {
    hide ValidBlock, StandsAt, StakeEvents, RegularEvents;
    if n.parent.Some? {
      var p := n.parent.value;
      HistoryStands(p, ev);
      if ev in BaseHistory(n) && p.parent.Some? {
        if !n.block.approvesParent && ev in StakeEvents(p) {
          CreatedIn(p, ev);
        }
        StandsBelow(n, ev);
      } else if ev in BaseHistory(n) {
        DisapprovesNothing(n);
      }
      if ev in StakeEvents(n) + RegularEvents(n) {
        CreatedIn(n, ev);
      }
    }
  }

  lemma DisapprovesNothing(n: BlockNode)
    requires ValidBlock(n) && n.parent.value.parent.None?
    ensures BaseHistory(n) == []
  {
    hide Valid, Fresh, TreesOk;
  }

  lemma StandsBelow(n: BlockNode, ev: Event)
    requires n.parent.Some? && ev.Create?
    ensures StandsAt(n.parent.value, ev.id, ev.height, ev.index) ==> StandsAt(n, ev.id, ev.height, ev.index)
  {
    if StandsAt(n.parent.value, ev.id, ev.height, ev.index) {
      var a: BlockNode :| n.parent.value.Extends(a) && a.parent.Some? && a.Height() == ev.height
        && StandsIn(a, ev.id, ev.index);
      assert n.Extends(a);
    }
  }

  /** What is there was made by an event with its height and index. */
  lemma {:induction false} MadeBy(evs: seq<Event>, id: TxId)
    requires id in Connect(map[], evs)
    ensures var h := Connect(map[], evs)[id].header; Create(id, h.height, h.index) in evs
  {
    hide CoinsOf, StakeExtraOf;
    if evs != [] {
      var init, last := evs[..|evs| - 1], evs[|evs| - 1];
      assert evs == init + [last];
      if id in Connect(map[], init) {
        MadeBy(init, id);
      }
    }
  }

  /** The header of an unspent transaction says where on the branch it stands, and what it is. */
  lemma EntryPlace(n: BlockNode, id: TxId)
    requires ValidChain(n) && id in UtxosAt(n)
    ensures var h := UtxosAt(n)[id].header;
            && StandsAt(n, id, h.height, h.index)
            && h.isCoinBase == id.isCoinBase && h.hasExpiry == id.hasExpiry && h.txType == id.txType
  {
    hide Connect, Valid, History, StandsAt, StakeExtraOf, IdOk, CoinsOf;
    HistoryIs(n);
    MadeBy(History(n), id);
    var h := UtxosAt(n)[id].header;
    HistoryStands(n, Create(id, h.height, h.index));
    ChainWellFormed(n);
    assert EntryWellFormed(id, UtxosAt(n)[id]);
  }

  // What is kept of tickets.

  /** The ticket data is that of a ticket with these outputs: they are read back from it, all of them, in
      order, with value, version and script. */
  ghost predicate IsTicketData(data: Bytes, outs: seq<TxOut>) {
    var r := TxOutCodec.DecodeMinimal(data);
    r.Some? && TxOutCodec.AreOutputs(r.value.0, outs) && r.value.1 == |data|
  }

  lemma TicketDataOf(id: TxId)
    requires IdOk(id)
    ensures id.txType == SStx ==> IsTicketData(StakeExtraOf(id), id.outs)
    ensures id.txType != SStx ==> StakeExtraOf(id) == []
  {
    hide TxOutCodec.EncodeMinimal, TxOutCodec.DecodeMinimal, TxOutCodec.AreOutputs, Amounts.Compressed;
    if id.txType == SStx {
      TxOutCodec.MinimalReadBack(id.outs, []);
      assert TxOutCodec.EncodeMinimal(id.outs) + [] == TxOutCodec.EncodeMinimal(id.outs);
    }
  }

  /** Along a valid chain the ticket data of every unspent ticket gives back all its outputs; nothing else
      has ticket data. */
  lemma TicketDataKept(n: BlockNode, id: TxId)
    requires ValidChain(n) && id in UtxosAt(n)
    ensures id.txType == SStx ==> IsTicketData(UtxosAt(n)[id].header.stakeExtra, id.outs)
    ensures id.txType != SStx ==> UtxosAt(n)[id].header.stakeExtra == []
  {
    hide StakeExtraOf, IdOk, IsTicketData, UtxosAt, CoinsOf;
    ChainWellFormed(n);
    assert EntryWellFormed(id, UtxosAt(n)[id]);
    TicketDataOf(id);
  }

  // What is stored.

  /** The bytes stored for the tip say, for every output, whether it is unspent, and for those that are
      its value, version and script; for every transaction with such outputs, where it stands, what it
      is and, for a ticket, all its outputs. */
  lemma StoredExactly(curve: Curve, db: Store, n: BlockNode, id: TxId, i: nat)
    requires RecoversKeys(curve) && ValidChain(n) && Holds(curve, db, UtxosAt(n))
    ensures var e := Fetch(db, id);
            e.Some? && e.value.IsUnspent(i) <==>
              i < |id.outs| && !id.outs[i].unspendable && HasUnspent(History(n), id, i)
    ensures var e := Fetch(db, id);
            e.Some? && e.value.IsUnspent(i) ==>
              var o, h := e.value.sparseOutputs[i], e.value.header;
              && o.amount == id.outs[i].value && o.scriptVersion == id.outs[i].version
              && ScriptOf(curve, o) == id.outs[i].pkScript
              && StandsAt(n, id, h.height, h.index)
              && h.isCoinBase == id.isCoinBase && h.hasExpiry == id.hasExpiry && h.txType == id.txType
              && (id.txType == SStx ==> IsTicketData(h.stakeExtra, id.outs))
  {
    hide Fetch, StoreOk, EntryOk, Coins, History, HasUnspent, StandsAt, IsTicketData, ScriptOf, RecoversKeys, CoinsOf,
         UtxosAt;
    UnspentExactly(n, id, i);
    FetchedAs(curve, db, UtxosAt(n), id);
    var e := Fetch(db, id);
    if e.Some? {
      CoinsEntry(curve, id, e.value);
      if e.value.IsUnspent(i) {
        EntryPlace(n, id);
        TicketDataKept(n, id);
        ScriptIsCoins(curve, id, e.value, i);
        OutputIs(curve, id, e.value, i);
      }
    }
  }

  lemma FetchedAs(curve: Curve, db: Store, u: Utxos, id: TxId)
    requires Holds(curve, db, u)
    ensures Fetch(db, id).Some? <==> id in u
    ensures Fetch(db, id).Some? ==>
      EntryOk(curve, id, Fetch(db, id).value) && Fetch(db, id).value.header == u[id].header
      && Coins(id, Fetch(db, id).value) == u[id].coins
  {
    hide UtxoCodec.DecodeEntry, EntryOk, Coins;
    assert AbsEntry(id, Fetch(db, id)) == Get(u, id);
    if Fetch(db, id).Some? {
      assert id in db;
    }
  }

  lemma OutputIs(curve: Curve, id: TxId, e: UtxoEntry, i: nat)
    requires EntryOk(curve, id, e) && i in e.sparseOutputs
    ensures i < |id.outs| && e.sparseOutputs[i].amount == id.outs[i].value
    ensures e.sparseOutputs[i].scriptVersion == id.outs[i].version
    ensures CoinsOf(id)[i].pkScript == id.outs[i].pkScript
  {
    hide StakeExtraOf, IdOk;
  }
}
