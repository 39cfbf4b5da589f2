/** What the unspent output set is, independently of views, databases and the path by which the
    chain got to its tip. */
module UtxoState {
  import opened Wrappers
  import opened Transactions
  import opened ScriptCodec
  import opened SpendJournal
  import opened UtxoEntries
  import opened BlockNodes
  import Amounts
  import TxOutCodec
  import UtxoCodec
  import Vlq

  datatype Coin = Coin(amount: int, scriptVersion: nat, pkScript: Bytes)

  datatype Entry = Entry(header: Header, coins: map<nat, Coin>)

  /** Only transactions with unspent outputs have an entry. */
  type Utxos = map<TxId, Entry>

  function Get(u: Utxos, id: TxId): Option<Entry> {
    if id in u then Some(u[id]) else None
  }

  predicate IdOk(id: TxId) {
    TxOutCodec.InRange(id.outs) && id.version < TxOutCodec.U16 && OutsFit(id.outs)
  }

  /** What the stored form of an unspent transaction has room for: every amount up to the money supply
      fits. */
  predicate OutsFit(outs: seq<TxOut>) {
    |outs| < UtxoCodec.U32 - 6 && forall i :: 0 <= i < |outs| && outs[i].value >= 0 ==>
      Amounts.Compressed(outs[i].value) < Vlq.U64
  }

  /** Heights and indexes are 32-bit numbers. */
  predicate InBlockRange(height: nat, index: nat) {
    height < UtxoCodec.U32 && index < UtxoCodec.U32
  }

  /** All outputs of a transaction that can ever be spent. */
  function CoinsOf(id: TxId): map<nat, Coin> {
    map i: nat | i < |id.outs| && !id.outs[i].unspendable ::
      Coin(id.outs[i].value, id.outs[i].version, id.outs[i].pkScript)
  }

  function StakeExtraOf(id: TxId): Bytes {
    if id.txType == SStx && IdOk(id) then TxOutCodec.EncodeMinimal(id.outs) else []
  }

  function HeaderOf(id: TxId, height: nat, index: nat): Header {
    Header(height, index, id.isCoinBase, id.hasExpiry, id.txType, StakeExtraOf(id))
  }

  // Connecting a block is a list of events: an output is spent, or a transaction's outputs appear.

  datatype Event = Spend(txIn: TxIn) | Create(id: TxId, height: nat, index: nat)

  function RemoveCoin(u: Utxos, id: TxId, i: nat): Utxos
    requires id in u
  {
    var coins := u[id].coins - {i};
    if coins == map[] then u - {id} else u[id := u[id].(coins := coins)]
  }

  function Step(u: Utxos, ev: Event): Utxos {
    match ev
    case Spend(txIn) =>
      if txIn.prevOut.id in u then RemoveCoin(u, txIn.prevOut.id, txIn.prevOut.index) else u
    case Create(id, height, index) =>
      if CoinsOf(id) == map[] then u - {id} else u[id := Entry(HeaderOf(id, height, index), CoinsOf(id))]
  }

  function Connect(u: Utxos, evs: seq<Event>): Utxos {
    if evs == [] then u else Step(Connect(u, evs[..|evs| - 1]), evs[|evs| - 1])
  }

  /** A spend takes an unspent output and its fraud-proof fields tell the truth about it; a new
      transaction does not overwrite one that still has unspent outputs. */
  predicate ValidEvent(u: Utxos, ev: Event) {
    match ev
    case Spend(txIn) =>
      var id, i := txIn.prevOut.id, txIn.prevOut.index;
      && id in u && i in u[id].coins
      && txIn.valueIn == u[id].coins[i].amount
      && txIn.blockHeight == u[id].header.height && txIn.blockIndex == u[id].header.index
    case Create(id, height, index) => id !in u && IdOk(id) && InBlockRange(height, index)
  }

  predicate Valid(u: Utxos, evs: seq<Event>) {
    evs == [] || (Valid(u, evs[..|evs| - 1]) && ValidEvent(Connect(u, evs[..|evs| - 1]), evs[|evs| - 1]))
  }

  lemma ConnectSnoc(u: Utxos, evs: seq<Event>, ev: Event)
    ensures Connect(u, evs + [ev]) == Step(Connect(u, evs), ev)
    ensures Valid(u, evs + [ev]) <==> Valid(u, evs) && ValidEvent(Connect(u, evs), ev)
  {
    assert (evs + [ev])[..|evs|] == evs;
  }

  lemma {:induction false} ConnectAppend(u: Utxos, a: seq<Event>, b: seq<Event>)
    ensures Connect(u, a + b) == Connect(Connect(u, a), b)
    ensures Valid(u, a + b) <==> Valid(u, a) && Valid(Connect(u, a), b)
    decreases |b|
  {
    if b == [] {
      assert a + b == a;
    } else {
      var init, last := b[..|b| - 1], b[|b| - 1];
      ConnectAppend(u, a, init);
      assert a + b == (a + init) + [last] && b == init + [last];
      ConnectSnoc(u, a + init, last);
      ConnectSnoc(Connect(u, a), init, last);
    }
  }

  // Entries never lie about their transaction.

  predicate EntryWellFormed(id: TxId, e: Entry) {
    && IdOk(id) && e.coins != map[] && InBlockRange(e.header.height, e.header.index)
    && e.header == HeaderOf(id, e.header.height, e.header.index)
    && (forall i :: i in e.coins ==> i in CoinsOf(id) && e.coins[i] == CoinsOf(id)[i])
  }

  ghost predicate WellFormed(u: Utxos) {
    forall id :: id in u ==> EntryWellFormed(id, u[id])
  }

  lemma StepWellFormed(u: Utxos, ev: Event)
    requires WellFormed(u) && ValidEvent(u, ev)
    ensures WellFormed(Step(u, ev))
  {
    hide IdOk, StakeExtraOf, CoinsOf;
  }

  lemma {:induction false} ConnectWellFormed(u: Utxos, evs: seq<Event>)
    requires WellFormed(u) && Valid(u, evs)
    ensures WellFormed(Connect(u, evs))
  {
    hide WellFormed, Step, ValidEvent;
    if evs != [] {
      ConnectWellFormed(u, evs[..|evs| - 1]);
      StepWellFormed(Connect(u, evs[..|evs| - 1]), evs[|evs| - 1]);
    }
  }

  /** New transactions are unknown before the block and differ from each other. */
  ghost predicate Fresh(u: Utxos, evs: seq<Event>) {
    && (forall j :: 0 <= j < |evs| && evs[j].Create? ==> evs[j].id !in u)
    && (forall i, j :: 0 <= i < j < |evs| && evs[i].Create? && evs[j].Create? ==> evs[i].id != evs[j].id)
  }

  function Created(evs: seq<Event>): set<TxId> {
    set j | 0 <= j < |evs| && evs[j].Create? :: evs[j].id
  }

  /** An entry was there before or was created by one of the events. */
  lemma {:induction false} ConnectKeys(u: Utxos, evs: seq<Event>, id: TxId)
    requires id in Connect(u, evs)
    ensures id in u || id in Created(evs)
  {
    hide CoinsOf, HeaderOf;
    if evs != [] {
      var init, last := evs[..|evs| - 1], evs[|evs| - 1];
      if last.Create? && last.id == id {
        assert evs[|evs| - 1].id == id;
      } else {
        ConnectKeys(u, init, id);
        assert id in Created(init) ==> id in Created(evs) by {
          if id in Created(init) {
            var j :| 0 <= j < |init| && init[j].Create? && init[j].id == id;
            assert evs[j] == init[j];
          }
        }
      }
    }
  }

  /** Nothing spends an output of a transaction that is created later in the same list. */
  lemma NoForwardSpend(u: Utxos, pre: seq<Event>, txIn: TxIn, post: seq<Event>)
    requires Valid(u, pre + [Spend(txIn)]) && Fresh(u, pre + [Spend(txIn)] + post)
    ensures txIn.prevOut.id !in Created(post)
  {
    hide Step, Valid, Fresh;
    ConnectSnoc(u, pre, Spend(txIn));
    ConnectKeys(u, pre, txIn.prevOut.id);
    FreshPrefix(u, pre + [Spend(txIn)], post);
    CreatedAppend(pre, [Spend(txIn)]);
  }

  lemma FreshPrefix(u: Utxos, a: seq<Event>, b: seq<Event>)
    requires Fresh(u, a + b)
    ensures Fresh(u, a) && Created(a) !! Created(b)
    ensures forall id :: id in Created(a) || id in Created(b) ==> id !in u
  {
    assert forall i :: 0 <= i < |a| ==> (a + b)[i] == a[i];
    assert forall j :: 0 <= j < |b| ==> (a + b)[|a| + j] == b[j];
  }

  lemma CreatedAppend(a: seq<Event>, b: seq<Event>)
    ensures Created(a + b) == Created(a) + Created(b)
  {
    assert forall i :: 0 <= i < |a| ==> (a + b)[i] == a[i];
    assert forall j :: 0 <= j < |b| ==> (a + b)[|a| + j] == b[j];
  }

  ghost predicate NeverSpent(evs: seq<Event>, id: TxId) {
    forall j :: 0 <= j < |evs| && evs[j].Spend? ==> evs[j].txIn.prevOut.id != id
  }

  /** A transaction that is created and not spent is there at the end. */
  lemma {:induction false} CreatedStays(u: Utxos, evs: seq<Event>, id: TxId)
    requires id in Created(evs) && NeverSpent(evs, id) && CoinsOf(id) != map[]
    ensures id in Connect(u, evs)
    decreases |evs|
  {
    hide CoinsOf, HeaderOf;
    var init, last := evs[..|evs| - 1], evs[|evs| - 1];
    if !(last.Create? && last.id == id) {
      var j :| 0 <= j < |evs| && evs[j].Create? && evs[j].id == id;
      assert init[j] == evs[j];
      CreatedStays(u, init, id);
    }
  }

  // The header under which a transaction was last unspent.

  /** The header a transaction has, or had when it last had unspent outputs. */
  ghost function LastHeader(u: Utxos, evs: seq<Event>, id: TxId): Option<Header>
    decreases |evs|
  {
    if id in Connect(u, evs) then Some(Connect(u, evs)[id].header)
    else if evs == [] then None
    else LastHeader(u, evs[..|evs| - 1], id)
  }

  lemma LastHeaderSame(u: Utxos, evs: seq<Event>, ev: Event, id: TxId)
    requires id !in Connect(u, evs + [ev])
    ensures LastHeader(u, evs + [ev], id) == LastHeader(u, evs, id)
  {
    hide Connect;
    assert (evs + [ev])[..|evs|] == evs;
  }

  /** A transaction that is new has no last header. */
  lemma {:induction false} LastHeaderNew(u: Utxos, evs: seq<Event>, id: TxId)
    requires id !in u && id !in Created(evs)
    ensures LastHeader(u, evs, id) == None
    decreases |evs|
  {
    hide Connect, Created;
    if id in Connect(u, evs) {
      ConnectKeys(u, evs, id);
    } else if evs != [] {
      var init, last := evs[..|evs| - 1], evs[|evs| - 1];
      assert evs == init + [last];
      CreatedAppend(init, [last]);
      LastHeaderNew(u, init, id);
    }
  }

  lemma NoCreation(ins: seq<TxIn>)
    ensures Created(SpendEvents(ins)) == {}
  {}

  // The journal of a block.

  /** The script data of an output or a journal entry stands for the script. */
  ghost predicate ScriptRep(curve: Curve, compressed: bool, data: Bytes, script: Bytes) {
    data == if compressed then Compress(curve, script) else script
  }

  /** A journal entry has what it takes to undo a spend: it carries the script, it is flagged as the
      final spend exactly when nothing else of the transaction is left, and then it also carries the
      transaction's details. */
  ghost predicate Restores(curve: Curve, s: SpentTxOut, txIn: TxIn, u: Utxos)
    requires ValidEvent(u, Spend(txIn))
  {
    var e, i := u[txIn.prevOut.id], txIn.prevOut.index;
    && ScriptRep(curve, s.compressed, s.pkScript, e.coins[i].pkScript)
    && s.scriptVersion == e.coins[i].scriptVersion && s.amount == txIn.valueIn && s.txVersion < TxOutCodec.U16
    && (s.txFullySpent <==> e.coins - {i} == map[])
    && (s.txFullySpent ==>
          e.header == Header(s.height, s.index, s.isCoinBase, s.hasExpiry, s.txType,
                             if s.txType == SStx then s.stakeExtra else []))
  }

  /** One adequate journal entry per spend, in order. */
  ghost predicate Adequate(curve: Curve, u: Utxos, evs: seq<Event>, stxos: seq<SpentTxOut>)
    requires Valid(u, evs)
  {
    if evs == [] then stxos == [] else
    var init, last := evs[..|evs| - 1], evs[|evs| - 1];
    if last.Create? then Adequate(curve, u, init, stxos)
    else |stxos| > 0 && Restores(curve, stxos[|stxos| - 1], last.txIn, Connect(u, init))
         && Adequate(curve, u, init, stxos[..|stxos| - 1])
  }

  lemma AdequateSnoc(curve: Curve, u: Utxos, evs: seq<Event>, ev: Event, stxos: seq<SpentTxOut>)
    requires Valid(u, evs + [ev])
    ensures Valid(u, evs) && ValidEvent(Connect(u, evs), ev)
    ensures Adequate(curve, u, evs + [ev], stxos) <==>
            if ev.Create? then Adequate(curve, u, evs, stxos)
            else |stxos| > 0 && Restores(curve, stxos[|stxos| - 1], ev.txIn, Connect(u, evs))
                 && Adequate(curve, u, evs, stxos[..|stxos| - 1])
  {
    hide Restores, ValidEvent;
    assert (evs + [ev])[..|evs|] == evs;
  }

  function SpendsIn(evs: seq<Event>): seq<TxIn> {
    if evs == [] then [] else
    var init, last := evs[..|evs| - 1], evs[|evs| - 1];
    if last.Spend? then SpendsIn(init) + [last.txIn] else SpendsIn(init)
  }

  lemma {:induction false} AdequateLength(curve: Curve, u: Utxos, evs: seq<Event>, stxos: seq<SpentTxOut>)
    requires Valid(u, evs) && Adequate(curve, u, evs, stxos)
    ensures |stxos| == |SpendsIn(evs)|
  {
    hide Restores, ValidEvent;
    if evs != [] {
      var init := evs[..|evs| - 1];
      AdequateLength(curve, u, init, if evs[|evs| - 1].Spend? then stxos[..|stxos| - 1] else stxos);
    }
  }

  lemma SpendsInLast(evs: seq<Event>)
    ensures SpendsIn(evs) == if evs == [] then [] else
      SpendsIn(evs[..|evs| - 1]) + (if evs[|evs| - 1].Spend? then [evs[|evs| - 1].txIn] else [])
  {}

  /** The journal of a prefix of the events is the prefix of the journal. */
  lemma {:induction false} AdequatePrefix(curve: Curve, u: Utxos, a: seq<Event>, b: seq<Event>, stxos: seq<SpentTxOut>)
    requires Valid(u, a + b) && Adequate(curve, u, a + b, stxos)
    ensures Valid(u, a) && |SpendsIn(b)| <= |stxos|
    ensures Adequate(curve, u, a, stxos[..|stxos| - |SpendsIn(b)|])
    decreases |b|
  {
    hide Restores, ValidEvent, Valid, Connect, Adequate, SpendsIn;
    ConnectAppend(u, a, b);
    SpendsInLast(b);
    if b == [] {
      assert a + b == a && stxos[..|stxos|] == stxos;
    } else {
      var init, last := b[..|b| - 1], b[|b| - 1];
      assert a + b == (a + init) + [last];
      AdequateSnoc(curve, u, a + init, last, stxos);
      if last.Create? {
        AdequatePrefix(curve, u, a, init, stxos);
      } else {
        var shorter := stxos[..|stxos| - 1];
        AdequatePrefix(curve, u, a, init, shorter);
        assert shorter[..|shorter| - |SpendsIn(init)|] == stxos[..|stxos| - |SpendsIn(b)|];
      }
    }
  }

  lemma RestoresAsRead(curve: Curve, s: SpentTxOut, txIn: TxIn, u: Utxos)
    requires WellFormed(u) && ValidEvent(u, Spend(txIn)) && Restores(curve, s, txIn, u)
    ensures Restores(curve, AsRead(curve, s, txIn), txIn, u)
  {
    hide CoinsOf, StakeExtraOf, Compress;
    assert EntryWellFormed(txIn.prevOut.id, u[txIn.prevOut.id]);
  }

  /** What the journal gives back for a block is as good as what was put in: amount, height and
      index come from the spending input, whose fraud-proof fields are right. */
  lemma {:induction false} AdequateAsRead(curve: Curve, u: Utxos, evs: seq<Event>, stxos: seq<SpentTxOut>)
    requires WellFormed(u) && Valid(u, evs) && Adequate(curve, u, evs, stxos)
    ensures |stxos| == |SpendsIn(evs)|
    ensures Adequate(curve, u, evs, AllAsRead(curve, stxos, SpendsIn(evs)))
  {
    hide Restores, ValidEvent, WellFormed, AsRead;
    AdequateLength(curve, u, evs, stxos);
    if evs != [] {
      var init, last := evs[..|evs| - 1], evs[|evs| - 1];
      if last.Create? {
        AdequateAsRead(curve, u, init, stxos);
      } else {
        AdequateAsRead(curve, u, init, stxos[..|stxos| - 1]);
        ConnectWellFormed(u, init);
        RestoresAsRead(curve, stxos[|stxos| - 1], last.txIn, Connect(u, init));
        var read := AllAsRead(curve, stxos, SpendsIn(evs));
        assert SpendsIn(evs)[..|SpendsIn(evs)| - 1] == SpendsIn(init);
        assert read[..|read| - 1] == AllAsRead(curve, stxos[..|stxos| - 1], SpendsIn(init));
      }
    }
  }

  // The events of transactions and blocks.

  function SpendEvents(ins: seq<TxIn>): (r: seq<Event>)
    ensures |r| == |ins|
  {
    seq(|ins|, i requires 0 <= i < |ins| => Spend(ins[i]))
  }

  function InputsOf(tx: Tx): seq<TxIn> {
    if tx.id.isCoinBase then [] else SpendsOf(tx)
  }

  function TxEvents(tx: Tx, height: nat, index: nat): seq<Event> {
    SpendEvents(InputsOf(tx)) + [Create(tx.id, height, index)]
  }

  function TreeEvents(txs: seq<Tx>, height: nat): seq<Event> {
    if txs == [] then [] else TreeEvents(txs[..|txs| - 1], height) + TxEvents(txs[|txs| - 1], height, |txs| - 1)
  }

  lemma {:induction false} SpendsOfSpendEvents(ins: seq<TxIn>)
    ensures SpendsIn(SpendEvents(ins)) == ins
  {
    if ins != [] {
      SpendsOfSpendEvents(ins[..|ins| - 1]);
      assert SpendEvents(ins)[..|ins| - 1] == SpendEvents(ins[..|ins| - 1]);
    }
  }

  lemma {:induction false} SpendsInAppend(a: seq<Event>, b: seq<Event>)
    ensures SpendsIn(a + b) == SpendsIn(a) + SpendsIn(b)
    decreases |b|
  {
    if b == [] {
      assert a + b == a;
    } else {
      SpendsInAppend(a, b[..|b| - 1]);
      assert (a + b)[..|a + b| - 1] == a + b[..|b| - 1];
    }
  }

  lemma SpendsInTx(tx: Tx, height: nat, index: nat)
    ensures SpendsIn(TxEvents(tx, height, index)) == InputsOf(tx)
  {
    SpendsOfSpendEvents(InputsOf(tx));
    SpendsInAppend(SpendEvents(InputsOf(tx)), [Create(tx.id, height, index)]);
    assert [Create(tx.id, height, index)][..0] == [];
  }

  lemma {:induction false} SpendsInTree(txs: seq<Tx>, height: nat)
    requires forall i :: 0 <= i < |txs| ==> !txs[i].id.isCoinBase
    ensures SpendsIn(TreeEvents(txs, height)) == SpentInputs(txs)
  {
    if txs != [] {
      var init, last := txs[..|txs| - 1], txs[|txs| - 1];
      SpendsInTree(init, height);
      SpendsInTx(last, height, |init|);
      SpendsInAppend(TreeEvents(init, height), TxEvents(last, height, |init|));
    }
  }

  /** Regular trees start with their coinbase, which spends nothing. */
  lemma {:induction false} SpendsInRegular(txs: seq<Tx>, height: nat)
    requires |txs| > 0 && txs[0].id.isCoinBase && forall i :: 1 <= i < |txs| ==> !txs[i].id.isCoinBase
    ensures SpendsIn(TreeEvents(txs, height)) == SpentInputs(txs[1..])
  {
    hide TxEvents, SpendsOf;
    var init, last := txs[..|txs| - 1], txs[|txs| - 1];
    SpendsInTx(last, height, |init|);
    SpendsInAppend(TreeEvents(init, height), TxEvents(last, height, |init|));
    if init != [] {
      SpendsInRegular(init, height);
      assert txs[1..][..|txs[1..]| - 1] == init[1..];
    } else {
      assert SpendsIn(TreeEvents(init, height)) == [];
    }
  }

  lemma SpendEventsSnoc(ins: seq<TxIn>, m: nat)
    requires m < |ins|
    ensures SpendEvents(ins[..m + 1]) == SpendEvents(ins[..m]) + [Spend(ins[m])]
    ensures SpendEvents(ins) == SpendEvents(ins[..m]) + [Spend(ins[m])] + SpendEvents(ins[m + 1..])
  {}

  /** One input further into a transaction. */
  lemma SpendStep(u: Utxos, pre: seq<Event>, ins: seq<TxIn>, post: seq<Event>, m: nat)
    requires m < |ins| && Valid(u, pre + (SpendEvents(ins) + post))
    ensures var before, after := pre + SpendEvents(ins[..m]), pre + SpendEvents(ins[..m + 1]);
            && Valid(u, before) && Valid(u, after) && ValidEvent(Connect(u, before), Spend(ins[m]))
            && after == before + [Spend(ins[m])]
            && Connect(u, after) == Step(Connect(u, before), Spend(ins[m]))
  {
    hide Valid, Connect, Step, ValidEvent, SpendEvents;
    SpendEventsSnoc(ins, m);
    var before, after := pre + SpendEvents(ins[..m]), pre + SpendEvents(ins[..m + 1]);
    var rest := SpendEvents(ins[m + 1..]) + post;
    assert pre + (SpendEvents(ins) + post) == after + rest;
    assert after == before + [Spend(ins[m])];
    ConnectAppend(u, after, rest);
    ConnectSnoc(u, before, Spend(ins[m]));
  }

  function Ids(txs: seq<Tx>): set<TxId> {
    set i | 0 <= i < |txs| :: txs[i].id
  }

  lemma CreatedByTx(tx: Tx, height: nat, index: nat)
    ensures Created(TxEvents(tx, height, index)) == {tx.id}
  {
    var evs := TxEvents(tx, height, index);
    assert evs[|evs| - 1] == Create(tx.id, height, index);
  }

  /** The events of a tree around those of one of its transactions. */
  lemma {:induction false} TreeSplit(txs: seq<Tx>, height: nat, j: nat) returns (rest: seq<Event>)
    requires j < |txs|
    ensures TreeEvents(txs, height) == TreeEvents(txs[..j], height) + TxEvents(txs[j], height, j) + rest
    ensures TreeEvents(txs[..j + 1], height) == TreeEvents(txs[..j], height) + TxEvents(txs[j], height, j)
    ensures Created(rest) == Ids(txs[j + 1..])
    decreases |txs|
  {
    hide TxEvents, Created;
    assert txs[..j + 1][..j] == txs[..j];
    var init, last := txs[..|txs| - 1], txs[|txs| - 1];
    if j == |init| {
      assert txs[..j] == init;
      rest := [];
      NothingCreated();
    } else {
      var before := TreeSplit(init, height, j);
      var more := TxEvents(last, height, |init|);
      assert init[..j] == txs[..j] && init[j] == txs[j];
      rest := before + more;
      CreatedAppend(before, more);
      CreatedByTx(last, height, |init|);
      assert txs[j + 1..] == init[j + 1..] + [last];
      IdsSnoc(init[j + 1..], last);
      AssocEvents(TreeEvents(txs[..j], height) + TxEvents(txs[j], height, j), before, more);
    }
  }

  lemma NothingCreated()
    ensures Created([]) == {}
  {}

  lemma AssocEvents(a: seq<Event>, b: seq<Event>, c: seq<Event>)
    ensures a + b + c == a + (b + c)
  {}

  lemma IdsSnoc(txs: seq<Tx>, tx: Tx)
    ensures Ids(txs + [tx]) == Ids(txs) + {tx.id}
  {
    var all := txs + [tx];
    assert all[|txs|] == tx && forall i :: 0 <= i < |txs| ==> all[i] == txs[i];
  }

  lemma IdsCons(txs: seq<Tx>, j: nat)
    requires j < |txs|
    ensures Ids(txs[j..]) == {txs[j].id} + Ids(txs[j + 1..])
  {
    var a, b := txs[j..], txs[j + 1..];
    assert a[0] == txs[j];
    assert forall i :: 0 <= i < |b| ==> b[i] == a[i + 1];
    assert forall i :: 1 <= i < |a| ==> a[i] == b[i - 1];
  }

  lemma CreatedByTree(txs: seq<Tx>, height: nat)
    ensures Created(TreeEvents(txs, height)) == Ids(txs)
  {
    hide TxEvents, Created;
    if |txs| > 0 {
      var rest := TreeSplit(txs, height, 0);
      assert txs[..0] == [] && txs[1..] == txs[0 + 1..] && txs[0..] == txs;
      CreatedByTx(txs[0], height, 0);
      assert TreeEvents(txs[..0], height) + TxEvents(txs[0], height, 0) == TxEvents(txs[0], height, 0);
      CreatedAppend(TxEvents(txs[0], height, 0), rest);
      IdsCons(txs, 0);
    } else {
      NothingCreated();
    }
  }

  /** One transaction further into a tree. */
  lemma TreeStep(u: Utxos, pre: seq<Event>, txs: seq<Tx>, height: nat, j: nat)
    requires j < |txs| && Valid(u, pre + TreeEvents(txs, height))
    ensures var before, after := pre + TreeEvents(txs[..j], height), pre + TreeEvents(txs[..j + 1], height);
            Valid(u, before) && Valid(u, after) && after == before + TxEvents(txs[j], height, j)
  {
    hide Valid, Connect, TxEvents, TreeEvents, Created;
    var rest := TreeSplit(txs, height, j);
    var before, after := pre + TreeEvents(txs[..j], height), pre + TreeEvents(txs[..j + 1], height);
    AssocEvents(pre, TreeEvents(txs[..j], height), TxEvents(txs[j], height, j));
    AssocEvents(pre, TreeEvents(txs[..j + 1], height), rest);
    ConnectAppend(u, after, rest);
    ConnectAppend(u, before, TxEvents(txs[j], height, j));
  }

  /** Inputs refer neither to their own nor to later transactions of the tree. */
  lemma InputsBefore(u: Utxos, pre: seq<Event>, txs: seq<Tx>, height: nat, j: nat, m: nat)
    requires j < |txs| && m < |InputsOf(txs[j])|
    requires Valid(u, pre + TreeEvents(txs, height)) && Fresh(u, pre + TreeEvents(txs, height))
    ensures InputsOf(txs[j])[m].prevOut.id !in Ids(txs[j..])
  {
    hide Valid, Fresh, Connect, TreeEvents, InputsOf, Created;
    var ins, create := InputsOf(txs[j]), [Create(txs[j].id, height, j)];
    var rest := TreeSplit(txs, height, j);
    TreeStep(u, pre, txs, height, j);
    var before := pre + TreeEvents(txs[..j], height);
    SpendStep(u, before, ins, create, m);
    SpendEventsSnoc(ins, m);
    var tail := SpendEvents(ins[m + 1..]);
    var post := tail + create + rest;
    var front := before + SpendEvents(ins[..m]);
    assert pre + TreeEvents(txs, height) == front + [Spend(ins[m])] + post;
    NoForwardSpend(u, front, ins[m], post);
    CreatedAppend(tail + create, rest);
    CreatedAppend(tail, create);
    CreatedOne(txs[j].id, height, j);
    IdsCons(txs, j);
  }

  lemma InputsBeforeAll(u: Utxos, pre: seq<Event>, txs: seq<Tx>, height: nat, j: nat)
    requires j < |txs| && Valid(u, pre + TreeEvents(txs, height)) && Fresh(u, pre + TreeEvents(txs, height))
    ensures forall m :: 0 <= m < |InputsOf(txs[j])| ==> InputsOf(txs[j])[m].prevOut.id !in Ids(txs[j..])
  {
    hide Valid, Fresh, TreeEvents, InputsOf, Ids;
    forall m | 0 <= m < |InputsOf(txs[j])| ensures InputsOf(txs[j])[m].prevOut.id !in Ids(txs[j..]) {
      InputsBefore(u, pre, txs, height, j, m);
    }
  }

  lemma CreatedOne(id: TxId, height: nat, index: nat)
    ensures Created([Create(id, height, index)]) == {id}
  {
    assert [Create(id, height, index)][0].id == id;
  }

  lemma TreeIdsOk(u: Utxos, pre: seq<Event>, txs: seq<Tx>, height: nat, j: nat)
    requires j < |txs| && Valid(u, pre + TreeEvents(txs, height))
    ensures IdOk(txs[j].id)
  {
    hide Connect, TreeEvents, InputsOf, IdOk;
    TreeStep(u, pre, txs, height, j);
    var before := pre + TreeEvents(txs[..j], height);
    var spends := SpendEvents(InputsOf(txs[j]));
    AssocEvents(before, spends, [Create(txs[j].id, height, j)]);
    ConnectSnoc(u, before + spends, Create(txs[j].id, height, j));
  }

  // The shape of blocks and the state of the chain.

  /** A coinbase, which has one input, first and only there, regular transactions in one tree and stake
      transactions in the other, and every vote spends its ticket next to its stakebase. */
  ghost predicate TreesOk(block: Block) {
    && |block.txs| > 0 && block.txs[0].id.isCoinBase && |block.txs[0].ins| == 1
    && (forall i :: 1 <= i < |block.txs| ==> !block.txs[i].id.isCoinBase)
    && (forall i :: 0 <= i < |block.txs| ==> block.txs[i].id.txType == Regular)
    && (forall i :: 0 <= i < |block.stxs| ==> !block.stxs[i].id.isCoinBase && block.stxs[i].id.txType != Regular)
    && VotesSpendOneTicket(block.stxs)
  }

  function StakeEvents(n: BlockNode): seq<Event> {
    TreeEvents(n.block.stxs, n.Height())
  }

  function RegularEvents(n: BlockNode): seq<Event> {
    TreeEvents(n.block.txs, n.Height())
  }

  /** The set a block is connected to.  When the block disapproves its parent, the parent counts only
      with its stake tree. */
  function Base(n: BlockNode): Utxos
    decreases n, 0
  {
    match n.parent
    case None => map[]
    case Some(p) => if n.block.approvesParent then UtxosAt(p) else AfterStake(p)
  }

  function AfterStake(n: BlockNode): Utxos
    decreases n, 1
  {
    Connect(Base(n), StakeEvents(n))
  }

  /** The unspent output set after a block, from genesis along its own branch.  The outputs of the
      genesis block are not spendable. */
  function UtxosAt(n: BlockNode): Utxos
    decreases n, 2
  {
    if n.parent.None? then map[] else Connect(Base(n), StakeEvents(n) + RegularEvents(n))
  }

  /** The block is valid where it stands; a block may disapprove its parent only above height one. */
  ghost predicate ValidBlock(n: BlockNode) {
    && n.parent.Some?
    && (n.parent.value.parent.None? ==> n.block.approvesParent)
    && TreesOk(n.block)
    && Valid(Base(n), StakeEvents(n) + RegularEvents(n))
    && Fresh(Base(n), StakeEvents(n) + RegularEvents(n))
  }

  ghost predicate ValidChain(n: BlockNode) {
    match n.parent
    case None => true
    case Some(p) => ValidBlock(n) && ValidChain(p)
  }

  /** A journal entry that can undo the block. */
  ghost predicate JournalOk(curve: Curve, n: BlockNode, stxos: seq<SpentTxOut>) {
    ValidBlock(n) && Adequate(curve, Base(n), StakeEvents(n) + RegularEvents(n), stxos)
  }

  // Consequences of a block being valid.

  lemma {:induction false} DistinctIds(u: Utxos, pre: seq<Event>, txs: seq<Tx>, height: nat, i: nat, j: nat)
    requires i < j < |txs| && Fresh(u, pre + TreeEvents(txs, height))
    ensures txs[i].id != txs[j].id
  {
    hide Fresh, TreeEvents, TxEvents, Created;
    var rest := TreeSplit(txs, height, i);
    var before := TreeEvents(txs[..i], height);
    AssocEvents(pre, before + TxEvents(txs[i], height, i), rest);
    FreshPrefix(u, pre + (before + TxEvents(txs[i], height, i)), rest);
    AssocEvents(pre, before, TxEvents(txs[i], height, i));
    CreatedAppend(pre + before, TxEvents(txs[i], height, i));
    CreatedByTx(txs[i], height, i);
    assert txs[i + 1..][j - i - 1] == txs[j];
  }

  /** A transaction of a tree is unknown before its turn. */
  lemma TreeNew(u: Utxos, pre: seq<Event>, txs: seq<Tx>, height: nat, j: nat)
    requires j < |txs| && Fresh(u, pre + TreeEvents(txs, height))
    ensures txs[j].id !in u && txs[j].id !in Created(pre + TreeEvents(txs[..j], height))
  {
    hide Fresh, TreeEvents, TxEvents, Created;
    var rest := TreeSplit(txs, height, j);
    var before, own := TreeEvents(txs[..j], height), TxEvents(txs[j], height, j);
    AssocEvents(pre, before + own, rest);
    AssocEvents(pre, before, own);
    FreshPrefix(u, pre + (before + own), rest);
    FreshPrefix(u, pre + before, own);
    CreatedByTx(txs[j], height, j);
  }

  /** What a view relies on when it looks at the regular tree of a block. */
  ghost predicate TreeFacts(txs: seq<Tx>) {
    && |txs| > 0
    && (forall j :: 0 <= j < |txs| ==> IdOk(txs[j].id) && txs[j].id.txType == Regular)
    && (forall j :: 0 <= j < |txs| ==> (txs[j].id.isCoinBase <==> j == 0))
    && (forall i, j :: 0 <= i < j < |txs| ==> txs[i].id != txs[j].id)
    && (forall j, m :: 0 <= j < |txs| && 0 <= m < |InputsOf(txs[j])| ==>
       InputsOf(txs[j])[m].prevOut.id !in Ids(txs[j..]))
  }

  lemma RegularFacts(n: BlockNode)
    requires ValidBlock(n)
    ensures TreeFacts(n.block.txs)
  {
    hide Valid, Fresh, Connect, TreeEvents, InputsOf, Ids, IdOk;
    var txs, h := n.block.txs, n.Height();
    forall j | 0 <= j < |txs| ensures IdOk(txs[j].id) {
      TreeIdsOk(Base(n), StakeEvents(n), txs, h, j);
    }
    forall i, j | 0 <= i < j < |txs| ensures txs[i].id != txs[j].id {
      DistinctIds(Base(n), StakeEvents(n), txs, h, i, j);
    }
    forall j | 0 <= j < |txs|
      ensures forall m :: 0 <= m < |InputsOf(txs[j])| ==> InputsOf(txs[j])[m].prevOut.id !in Ids(txs[j..])
    {
      InputsBeforeAll(Base(n), StakeEvents(n), txs, h, j);
    }
  }

  /** Stake transactions do not spend regular transactions of their own block. */
  lemma StakeInputsBefore(n: BlockNode, j: nat, m: nat)
    requires ValidBlock(n) && j < |n.block.stxs| && m < |InputsOf(n.block.stxs[j])|
    ensures InputsOf(n.block.stxs[j])[m].prevOut.id !in Ids(n.block.txs)
  {
    hide Valid, Fresh, Connect, TreeEvents, InputsOf, Created, TreesOk, Base, AfterStake, UtxosAt, SpendEvents, Ids;
    var stxs, h := n.block.stxs, n.Height();
    var ins, create := InputsOf(stxs[j]), [Create(stxs[j].id, h, j)];
    ConnectAppend(Base(n), StakeEvents(n), RegularEvents(n));
    assert [] + StakeEvents(n) == StakeEvents(n);
    TreeStep(Base(n), [], stxs, h, j);
    var rest := TreeSplit(stxs, h, j);
    var before := TreeEvents(stxs[..j], h);
    assert [] + before == before;
    SpendStep(Base(n), before, ins, create, m);
    SpendEventsSnoc(ins, m);
    var tail := SpendEvents(ins[m + 1..]) + create + rest;
    var front := before + SpendEvents(ins[..m]);
    assert StakeEvents(n) + RegularEvents(n) == front + [Spend(ins[m])] + (tail + RegularEvents(n));
    NoForwardSpend(Base(n), front, ins[m], tail + RegularEvents(n));
    CreatedAppend(tail, RegularEvents(n));
    CreatedByTree(n.block.txs, h);
  }

  /** New transactions of a valid block: unknown before it, and the two trees are disjoint. */
  lemma NewIds(n: BlockNode)
    requires ValidBlock(n)
    ensures Ids(n.block.txs) !! Base(n).Keys && Ids(n.block.stxs) !! Base(n).Keys
      && Ids(n.block.stxs) !! Ids(n.block.txs)
    ensures Ids(n.block.txs) !! AfterStake(n).Keys
    ensures Valid(Base(n), StakeEvents(n)) && Fresh(Base(n), StakeEvents(n))
    ensures AfterStake(n) == Connect(Base(n), StakeEvents(n))
    ensures UtxosAt(n) == Connect(Base(n), StakeEvents(n) + RegularEvents(n))
  {
    hide Valid, Fresh, Connect, TreeEvents, Created, Ids, TreesOk;
    ConnectAppend(Base(n), StakeEvents(n), RegularEvents(n));
    FreshPrefix(Base(n), StakeEvents(n), RegularEvents(n));
    CreatedByTree(n.block.txs, n.Height());
    CreatedByTree(n.block.stxs, n.Height());
    forall id | id in AfterStake(n) ensures id !in Ids(n.block.txs) {
      ConnectKeys(Base(n), StakeEvents(n), id);
    }
  }

  lemma {:induction false} ChainWellFormed(n: BlockNode)
    requires ValidChain(n)
    ensures WellFormed(UtxosAt(n)) && WellFormed(Base(n))
    ensures n.parent.Some? ==> WellFormed(AfterStake(n))
    decreases n
  {
    hide WellFormed, Valid, Fresh, TreesOk;
    EmptyWellFormed();
    if n.parent.Some? {
      ChainWellFormed(n.parent.value);
      ConnectAppend(Base(n), StakeEvents(n), RegularEvents(n));
      ConnectWellFormed(Base(n), StakeEvents(n));
      ConnectWellFormed(Base(n), StakeEvents(n) + RegularEvents(n));
    }
  }

  lemma EmptyWellFormed()
    ensures WellFormed(map[])
  {}

  /** A block with nothing but a new coinbase is valid on top of any chain. */
  lemma CoinbaseBlockIsValid(n: BlockNode)
    requires n.parent.Some? && n.block.approvesParent && n.block.stxs == [] && |n.block.txs| == 1
      && n.Height() < UtxoCodec.U32
    requires IsNewCoinbase(n, n.block.txs[0])
    ensures ValidBlock(n)
    ensures UtxosAt(n) == Step(Base(n), Create(n.block.txs[0].id, n.Height(), 0))
  {
    hide IdOk, Base, CoinsOf, StakeExtraOf, TreeEvents, TxEvents, Step;
    var create := Create(n.block.txs[0].id, n.Height(), 0);
    CoinbaseEvents(n.block.txs[0], n.Height());
    assert n.block.txs == [n.block.txs[0]];
    assert StakeEvents(n) + RegularEvents(n) == [] + [create];
    ConnectSnoc(Base(n), [], create);
  }

  lemma CoinbaseEvents(coinbase: Tx, height: nat)
    requires coinbase.id.isCoinBase
    ensures TreeEvents([coinbase], height) == [Create(coinbase.id, height, 0)] && TreeEvents([], height) == []
  {
    assert [coinbase][..0] == [];
    assert TreeEvents([coinbase], height) == TreeEvents([], height) + TxEvents(coinbase, height, 0);
  }

  predicate IsNewCoinbase(n: BlockNode, coinbase: Tx) {
    && coinbase.id.isCoinBase && coinbase.id.txType == Regular && |coinbase.ins| == 1
    && IdOk(coinbase.id) && coinbase.id !in Base(n)
  }

  predicate IsNewTicket(n: BlockNode, ticket: Tx) {
    && ticket.id.txType == SStx && !ticket.id.isCoinBase && IdOk(ticket.id) && CoinsOf(ticket.id) != map[]
    && ticket.id !in Base(n) && |ticket.ins| == 1 && ValidEvent(Base(n), Spend(ticket.ins[0]))
  }

  /** A block with a new coinbase and one new ticket bought with an unspent output. */
  predicate IsTicketBlock(n: BlockNode, ticket: Tx) {
    && n.parent.Some? && n.block.approvesParent && n.block.stxs == [ticket] && |n.block.txs| == 1
       && n.Height() < UtxoCodec.U32
    && IsNewCoinbase(n, n.block.txs[0]) && IsNewTicket(n, ticket)
  }

  /** Such a block is valid, and the ticket is unspent after it. */
  lemma TicketBlockIsValid(n: BlockNode, ticket: Tx)
    requires IsTicketBlock(n, ticket)
    ensures ValidBlock(n) && ticket.id in UtxosAt(n)
  {
    hide IdOk, Base, CoinsOf, StakeExtraOf;
    var spend, buy, pay := Spend(ticket.ins[0]), Create(ticket.id, n.Height(), 0),
      Create(n.block.txs[0].id, n.Height(), 0);
    TicketEvents(n, ticket);
    assert [spend, buy, pay] == [] + [spend] + [buy] + [pay];
    ConnectSnoc(Base(n), [], spend);
    ConnectSnoc(Base(n), [] + [spend], buy);
    ConnectSnoc(Base(n), [] + [spend] + [buy], pay);
  }

  lemma TicketEvents(n: BlockNode, ticket: Tx)
    requires IsTicketBlock(n, ticket)
    ensures StakeEvents(n) + RegularEvents(n) ==
            [Spend(ticket.ins[0]), Create(ticket.id, n.Height(), 0), Create(n.block.txs[0].id, n.Height(), 0)]
  {
    hide IdOk, Base, CoinsOf, ValidEvent;
    var stxs, txs := n.block.stxs, n.block.txs;
    assert stxs[..0] == [] && txs[..0] == [] && ticket.ins[0..] == ticket.ins;
    assert TreeEvents(stxs, n.Height()) == TxEvents(ticket, n.Height(), 0);
    assert TreeEvents(txs, n.Height()) == TxEvents(txs[0], n.Height(), 0);
  }
}
