/** Views of the unspent output set (blockchain/utxoviewpoint.go): an overlay of lazily loaded and
    changed entries over the stored set. */
module UtxoViews {
  import opened Wrappers
  import opened Transactions
  import opened ScriptCodec
  import opened SpendJournal
  import opened UtxoEntries
  import opened UtxoState
  import opened BlockNodes
  import opened UtxoCodec
  import Amounts
  import TxOutCodec
  import Vlq

  type Entries = map<TxId, Option<UtxoEntry>>

  /** The stored set: the bytes of an entry for each transaction with unspent outputs. */
  type Store = map<TxId, Bytes>

  // What an overlay stands for.

  ghost predicate OutputOk(curve: Curve, o: UtxoOutput, c: Coin) {
    o.amount == c.amount && o.scriptVersion == c.scriptVersion && ScriptRep(curve, o.compressed, o.pkScript, c.pkScript)
  }

  /** An entry of a view never lies about its transaction, whatever is spent or still missing. */
  ghost predicate EntryOk(curve: Curve, id: TxId, e: UtxoEntry) {
    && IdOk(id) && e.txVersion < TxOutCodec.U16
    && (forall i :: i in e.sparseOutputs ==> i in CoinsOf(id) && OutputOk(curve, e.sparseOutputs[i], CoinsOf(id)[i]))
    && e.header.isCoinBase == id.isCoinBase && e.header.hasExpiry == id.hasExpiry && e.header.txType == id.txType
    && (e.header.stakeExtra == StakeExtraOf(id) || e.header.stakeExtra == [])
  }

  /** The unspent outputs of an entry. */
  function Coins(id: TxId, e: UtxoEntry): map<nat, Coin> {
    map i | i in e.sparseOutputs && e.IsUnspent(i) && i in CoinsOf(id) :: CoinsOf(id)[i]
  }

  function AbsEntry(id: TxId, oe: Option<UtxoEntry>): Option<Entry> {
    if oe.None? || Coins(id, oe.value) == map[] then None else Some(Entry(oe.value.header, Coins(id, oe.value)))
  }

  /** What the bytes stored for a transaction say. */
  function Fetch(db: Store, id: TxId): Option<UtxoEntry> {
    if id in db && UtxoCodec.DecodeEntry(db[id]).Ok? then Some(UtxoCodec.DecodeEntry(db[id]).value) else None
  }

  /** What a transaction looks like through the view. */
  function Look(entries: Entries, db: Store, id: TxId): Option<Entry> {
    AbsEntry(id, if id in entries then entries[id] else Fetch(db, id))
  }

  /** Entries of transactions of the block itself that were added early, before their turn. */
  ghost predicate PendingOk(id: TxId, entries: Entries) {
    id in entries && entries[id].Some? && entries[id].value.modified
      && entries[id].value.header.stakeExtra == StakeExtraOf(id)
  }

  function Bared(oe: Option<Entry>, bare: bool): Option<Entry> {
    if bare && oe.Some? then Some(oe.value.(header := oe.value.header.(stakeExtra := []))) else oe
  }

  /** What a transaction is in `u`, without its ticket data for the tickets in `bare`. */
  function See(u: Utxos, id: TxId, bare: set<TxId>): Option<Entry> {
    Bared(Get(u, id), id in bare)
  }

  /** The overlay over the stored set stands for `u`, except where early additions are pending, and
      with the tickets in `bare` lacking their ticket data; what is not marked modified agrees with the
      stored set. */
  ghost predicate Stands(curve: Curve, entries: Entries, db: Store, u: Utxos, pend: set<TxId>, bare: set<TxId> := {}) {
    && (forall id :: id !in pend ==> Look(entries, db, id) == See(u, id, bare))
    && (forall id :: id in pend ==> PendingOk(id, entries))
    && (forall id :: id in entries && entries[id].Some? ==>
          EntryOk(curve, id, entries[id].value)
            && (entries[id].value.modified || Coins(id, entries[id].value) != map[]))
    && (forall id :: id in entries && (entries[id].Some? ==> !entries[id].value.modified) ==>
          AbsEntry(id, entries[id]) == AbsEntry(id, Fetch(db, id)))
  }

  /** Everything stored can be read, no empty entries are stored, nothing stored is marked modified, and
      stored tickets carry their ticket data. */
  ghost predicate StoreOk(curve: Curve, db: Store) {
    forall id :: id in db ==> Fetch(db, id).Some? && StoredEntryOk(curve, id, Fetch(db, id).value)
  }

  ghost predicate StoredEntryOk(curve: Curve, id: TxId, e: UtxoEntry) {
    EntryOk(curve, id, e) && !e.modified && Coins(id, e) != map[] && e.header.stakeExtra == StakeExtraOf(id)
  }

  /** The stored set holds exactly `u`. */
  ghost predicate Holds(curve: Curve, db: Store, u: Utxos) {
    StoreOk(curve, db) && forall id :: AbsEntry(id, Fetch(db, id)) == Get(u, id)
  }

  // Entries without unspent outputs, and tickets without ticket data.

  ghost predicate IsResidue(entries: Entries, id: TxId) {
    id in entries && entries[id].Some? && Coins(id, entries[id].value) == map[]
  }

  /** An entry without unspent outputs still has the header its transaction last had, so that an output
      given back to it comes back under the right height and index. */
  ghost predicate Kept(entries: Entries, u: Utxos, evs: seq<Event>, pend: set<TxId>) {
    forall id :: id !in pend && IsResidue(entries, id) && LastHeader(u, evs, id).Some? ==>
      entries[id].value.header == LastHeader(u, evs, id).value
  }

  /** The view can undo the block: it kept the headers of what the block spent last. */
  ghost predicate KeptFor(entries: Entries, n: BlockNode) {
    Kept(entries, Base(n), StakeEvents(n) + RegularEvents(n), {})
  }

  /** Entries without unspent outputs are the same as before, those in `pend` aside. */
  ghost predicate SameResidue(before: Entries, after: Entries, pend: set<TxId>) {
    forall id :: id !in pend && IsResidue(after, id) ==> id in before && before[id] == after[id]
  }

  /** The view has an entry for a ticket, and it lacks the ticket data. */
  predicate HasBare(entries: Entries, id: TxId) {
    id in entries && entries[id].Some? && id.txType == SStx && entries[id].value.header.stakeExtra == []
      && CoinsOf(id) != map[]
  }

  /** The tickets in `added` that the view had no entry for became bare. */
  ghost predicate BareAdded(before: Entries, after: Entries, added: set<TxId>) {
    forall id :: CoinsOf(id) != map[] ==>
      (HasBare(after, id) <==> HasBare(before, id) || (id in added && id.txType == SStx && id !in before))
  }

  ghost predicate SameBare(before: Entries, after: Entries) {
    forall id :: HasBare(after, id) <==> HasBare(before, id)
  }

  /** Between blocks a stored view only caches what is stored. */
  ghost predicate Clean(entries: Entries) {
    forall id :: id in entries ==>
      entries[id].Some? && !entries[id].value.modified && Coins(id, entries[id].value) != map[]
  }

  lemma TicketExtra(id: TxId)
    ensures id.txType == SStx && IdOk(id) ==> StakeExtraOf(id) != []
  {}

  /** What stands for a set stands for it with bare tickets when the set does not have those. */
  lemma StandsBare(curve: Curve, entries: Entries, db: Store, u: Utxos, pend: set<TxId>, bare: set<TxId>)
    requires Stands(curve, entries, db, u, pend) && bare !! u.Keys
    ensures Stands(curve, entries, db, u, pend, bare)
  {
    hide EntryOk, AbsEntry, Look;
  }

  /** A view with bare tickets stands for the set itself exactly when the set has none of them. */
  lemma BareExact(curve: Curve, entries: Entries, db: Store, u: Utxos, bare: set<TxId>)
    requires Stands(curve, entries, db, u, {}, bare) && WellFormed(u) && forall id :: id in bare ==> id.txType == SStx
    ensures Stands(curve, entries, db, u, {}) <==> bare !! u.Keys
  {
    hide EntryOk, AbsEntry, Look, StakeExtraOf, CoinsOf;
    if !(bare !! u.Keys) {
      var id :| id in bare && id in u;
      assert EntryWellFormed(id, u[id]);
      TicketExtra(id);
      assert Look(entries, db, id) == See(u, id, bare) != See(u, id, {});
    } else {
      forall id ensures See(u, id, bare) == See(u, id, {}) {}
    }
  }

  // Steps of `Kept`.

  /** Nothing is left to keep before the first event: what is not unspent has no header. */
  lemma KeptStart(curve: Curve, entries: Entries, db: Store, u: Utxos, bare: set<TxId>)
    requires Stands(curve, entries, db, u, {}, bare)
    ensures Kept(entries, u, [], {})
  {
    hide EntryOk, Coins;
    forall id | IsResidue(entries, id) ensures LastHeader(u, [], id) == None {
      assert Look(entries, db, id) == See(u, id, bare);
    }
  }

  lemma ResidueNotIn(curve: Curve, entries: Entries, db: Store, u: Utxos, pend: set<TxId>, bare: set<TxId>, id: TxId)
    requires Stands(curve, entries, db, u, pend, bare) && id !in pend && IsResidue(entries, id)
    ensures id !in u
  {
    hide EntryOk, Coins;
    assert Look(entries, db, id) == See(u, id, bare);
  }

  lemma KeptFetch(before: Entries, after: Entries, u: Utxos, evs: seq<Event>, pend0: set<TxId>, pend: set<TxId>)
    requires Kept(before, u, evs, pend0) && SameResidue(before, after, pend) && pend0 <= pend
    ensures Kept(after, u, evs, pend)
  {
    hide LastHeader, Coins;
    forall id | id !in pend && IsResidue(after, id) ensures IsResidue(before, id) && before[id] == after[id] {}
  }

  /** Spending keeps the header, also of what is spent completely. */
  lemma KeptSpend(curve: Curve, before: Entries, db: Store, u: Utxos, evs: seq<Event>, pend: set<TxId>, txIn: TxIn,
                  e: UtxoEntry)
    requires Kept(before, u, evs, pend) && Stands(curve, before, db, Connect(u, evs), pend)
    requires ValidEvent(Connect(u, evs), Spend(txIn)) && e.header == Connect(u, evs)[txIn.prevOut.id].header
    ensures Kept(before[txIn.prevOut.id := Some(e)], u, evs + [Spend(txIn)], pend)
  {
    hide LastHeader, Coins, Connect, Stands;
    var id, after := txIn.prevOut.id, before[txIn.prevOut.id := Some(e)];
    ConnectSnoc(u, evs, Spend(txIn));
    forall other | other !in pend && IsResidue(after, other) && LastHeader(u, evs + [Spend(txIn)], other).Some?
      ensures after[other].value.header == LastHeader(u, evs + [Spend(txIn)], other).value
    {
      if other != id {
        assert IsResidue(before, other);
        ResidueNotIn(curve, before, db, Connect(u, evs), pend, {}, other);
      }
      LastHeaderOf(u, evs, other);
      LastHeaderOf(u, evs + [Spend(txIn)], other);
      if other !in Connect(u, evs + [Spend(txIn)]) {
        LastHeaderSame(u, evs, Spend(txIn), other);
      }
    }
  }

  lemma LastHeaderOf(u: Utxos, evs: seq<Event>, id: TxId)
    ensures id in Connect(u, evs) ==> LastHeader(u, evs, id) == Some(Connect(u, evs)[id].header)
  {
    hide Connect;
  }

  lemma KeptCreate(curve: Curve, before: Entries, db: Store, u: Utxos, evs: seq<Event>, pend: set<TxId>,
                   id: TxId, height: nat, index: nat, e: UtxoEntry)
    requires Kept(before, u, evs, pend) && Stands(curve, before, db, Connect(u, evs), pend)
    requires id !in u && id !in Created(evs) && Coins(id, e) == CoinsOf(id)
    ensures Kept(before[id := Some(e)], u, evs + [Create(id, height, index)], pend - {id})
  {
    hide LastHeader, Coins, Connect, Stands, CoinsOf, Created;
    var ev, after := Create(id, height, index), before[id := Some(e)];
    ConnectSnoc(u, evs, ev);
    forall other | other !in pend - {id} && IsResidue(after, other) && LastHeader(u, evs + [ev], other).Some?
      ensures after[other].value.header == LastHeader(u, evs + [ev], other).value
    {
      if other != id {
        assert IsResidue(before, other);
        ResidueNotIn(curve, before, db, Connect(u, evs), pend, {}, other);
      } else {
        LastHeaderNew(u, evs, id);
      }
      LastHeaderSame(u, evs, ev, other);
    }
  }

  /** Clearing a new transaction again. */
  lemma KeptClear(curve: Curve, before: Entries, db: Store, u: Utxos, evs: seq<Event>, pend: set<TxId>,
                  id: TxId, height: nat, index: nat, oe: Option<UtxoEntry>)
    requires Kept(before, u, evs + [Create(id, height, index)], pend)
    requires Stands(curve, before, db, Connect(u, evs + [Create(id, height, index)]), pend)
    requires id !in u && id !in Created(evs)
    ensures Kept(before[id := oe], u, evs, pend - {id})
  {
    hide LastHeader, Coins, Connect, Stands, CoinsOf, Created;
    var ev, after := Create(id, height, index), before[id := oe];
    forall other | other !in pend - {id} && IsResidue(after, other) && LastHeader(u, evs, other).Some?
      ensures after[other].value.header == LastHeader(u, evs, other).value
    {
      if other != id {
        assert IsResidue(before, other);
        ResidueNotIn(curve, before, db, Connect(u, evs + [ev]), pend, {}, other);
        LastHeaderSame(u, evs, ev, other);
      } else {
        LastHeaderNew(u, evs, id);
      }
    }
  }

  /** Giving an output back. */
  lemma KeptRestore(curve: Curve, before: Entries, db: Store, u: Utxos, evs: seq<Event>, pend: set<TxId>, txIn: TxIn,
                    e: UtxoEntry)
    requires Kept(before, u, evs + [Spend(txIn)], pend)
      && Stands(curve, before, db, Connect(u, evs + [Spend(txIn)]), pend)
    requires Coins(txIn.prevOut.id, e) != map[]
    ensures Kept(before[txIn.prevOut.id := Some(e)], u, evs, pend)
  {
    hide LastHeader, Coins, Connect, Stands;
    var after := before[txIn.prevOut.id := Some(e)];
    forall other | other !in pend && IsResidue(after, other) && LastHeader(u, evs, other).Some?
      ensures after[other].value.header == LastHeader(u, evs, other).value
    {
      assert IsResidue(before, other);
      ResidueNotIn(curve, before, db, Connect(u, evs + [Spend(txIn)]), pend, {}, other);
      LastHeaderSame(u, evs, Spend(txIn), other);
    }
  }

  /** What a view kept of a transaction that is about to come back. */
  lemma KeptHeader(curve: Curve, entries: Entries, db: Store, u: Utxos, evs: seq<Event>, pend: set<TxId>, txIn: TxIn)
    requires Kept(entries, u, evs + [Spend(txIn)], pend)
      && Stands(curve, entries, db, Connect(u, evs + [Spend(txIn)]), pend)
    requires ValidEvent(Connect(u, evs), Spend(txIn)) && txIn.prevOut.id !in pend && IsResidue(entries, txIn.prevOut.id)
    ensures entries[txIn.prevOut.id].value.header == Connect(u, evs)[txIn.prevOut.id].header
  {
    hide LastHeader, Coins, Connect, Stands;
    ResidueNotIn(curve, entries, db, Connect(u, evs + [Spend(txIn)]), pend, {}, txIn.prevOut.id);
    LastHeaderSame(u, evs, Spend(txIn), txIn.prevOut.id);
    LastHeaderOf(u, evs, txIn.prevOut.id);
  }

  /** Replacing one entry changes what the view stands for at that transaction only. */
  lemma Replace(curve: Curve, entries: Entries, db: Store, u: Utxos, pend: set<TxId>,
                id: TxId, e: UtxoEntry, u': Utxos, pend': set<TxId>, bare: set<TxId> := {})
    requires Stands(curve, entries, db, u, pend, bare)
    requires e.modified && EntryOk(curve, id, e)
    requires pend' - {id} == pend - {id}
    requires forall other :: other != id ==> Get(u', other) == Get(u, other)
    requires if id in pend' then e.header.stakeExtra == StakeExtraOf(id) else AbsEntry(id, Some(e)) == See(u', id, bare)
    ensures Stands(curve, entries[id := Some(e)], db, u', pend', bare)
  {
    hide EntryOk, AbsEntry, Get;
    var after := entries[id := Some(e)];
    forall other | other !in pend' ensures Look(after, db, other) == See(u', other, bare) {
      if other != id {
        assert other in pend - {id} <==> other in pend' - {id};
        assert Look(after, db, other) == Look(entries, db, other);
      }
    }
    forall other | other in pend' ensures PendingOk(other, after) {
      if other != id {
        assert other in pend - {id} <==> other in pend' - {id};
        assert PendingOk(other, entries);
      }
    }
  }

  lemma LookLoaded(entries: Entries, db: Store, id: TxId, other: TxId)
    requires id !in entries
    ensures Look(entries[id := Fetch(db, id)], db, other) == Look(entries, db, other)
  {
    hide AbsEntry;
  }

  lemma FetchedOk(curve: Curve, db: Store, id: TxId)
    requires StoreOk(curve, db)
    ensures Fetch(db, id).Some? ==> StoredEntryOk(curve, id, Fetch(db, id).value)
  {
    hide UtxoCodec.DecodeEntry, StoredEntryOk;
  }

  lemma Readable(curve: Curve, db: Store, id: TxId)
    requires StoreOk(curve, db)
    ensures id in db ==> UtxoCodec.DecodeEntry(db[id]).Ok?
  {
    hide UtxoCodec.DecodeEntry, StoredEntryOk;
  }

  /** Loading an entry that the view does not have changes nothing. */
  lemma Load(curve: Curve, entries: Entries, db: Store, u: Utxos, pend: set<TxId>, id: TxId, bare: set<TxId> := {})
    requires Stands(curve, entries, db, u, pend, bare) && id !in entries && StoreOk(curve, db)
    ensures Stands(curve, entries[id := Fetch(db, id)], db, u, pend, bare)
  {
    hide EntryOk, AbsEntry, Coins, Get, See, Look, Fetch, StoreOk;
    FetchedOk(curve, db, id);
    var after := entries[id := Fetch(db, id)];
    forall other ensures Look(after, db, other) == Look(entries, db, other) {
      LookLoaded(entries, db, id, other);
    }
    forall other | other in pend ensures PendingOk(other, after) {
      assert PendingOk(other, entries);
    }
  }

  // The effect of single events.

  lemma CoinsEntry(curve: Curve, id: TxId, e: UtxoEntry)
    requires EntryOk(curve, id, e)
    ensures forall i :: i in Coins(id, e) <==> e.IsUnspent(i)
    ensures Coins(id, e) == map[] <==> e.IsFullySpent()
  {
    hide StakeExtraOf;
    if !e.IsFullySpent() {
      var i :| i in e.sparseOutputs && !e.sparseOutputs[i].spent;
      assert e.IsUnspent(i) && i in Coins(id, e);
    }
  }

  function Spent(e: UtxoEntry, i: nat): UtxoEntry
    requires i in e.sparseOutputs
  {
    e.(sparseOutputs := e.sparseOutputs[i := e.sparseOutputs[i].(spent := true)], modified := true)
  }

  lemma SpentCoins(curve: Curve, id: TxId, e: UtxoEntry, i: nat)
    requires EntryOk(curve, id, e) && e.IsUnspent(i)
    ensures EntryOk(curve, id, Spent(e, i)) && Coins(id, Spent(e, i)) == Coins(id, e) - {i}
    ensures Spent(e, i).header == e.header
  {
    hide StakeExtraOf, CoinsOf, IdOk, OutputOk, Coins;
    SpentOutputOk(curve, e.sparseOutputs[i], CoinsOf(id)[i]);
    SpentCoinsLeft(id, e, i);
  }

  lemma SpentOutputOk(curve: Curve, o: UtxoOutput, c: Coin)
    requires OutputOk(curve, o, c)
    ensures OutputOk(curve, o.(spent := true), c)
  {}

  lemma SpentCoinsLeft(id: TxId, e: UtxoEntry, i: nat)
    requires e.IsUnspent(i)
    ensures Coins(id, Spent(e, i)) == Coins(id, e) - {i}
  {
    hide CoinsOf;
    assert forall k :: Spent(e, i).IsUnspent(k) <==> e.IsUnspent(k) && k != i;
  }

  /** The entry with output i unspent again, its contents taken from the journal when missing. */
  function Restored(e: UtxoEntry, i: nat, txIn: TxIn, s: SpentTxOut): UtxoEntry {
    var o := if i in e.sparseOutputs then e.sparseOutputs[i].(spent := false)
             else UtxoOutput(txIn.valueIn, s.scriptVersion, s.pkScript, s.compressed, false);
    e.(sparseOutputs := e.sparseOutputs[i := o], modified := true)
  }

  lemma RestoredCoins(curve: Curve, id: TxId, e: UtxoEntry, i: nat, txIn: TxIn, s: SpentTxOut)
    requires EntryOk(curve, id, e) && i in CoinsOf(id) && e.header.stakeExtra == StakeExtraOf(id)
    requires txIn.valueIn == CoinsOf(id)[i].amount && s.scriptVersion == CoinsOf(id)[i].scriptVersion
    requires ScriptRep(curve, s.compressed, s.pkScript, CoinsOf(id)[i].pkScript)
    ensures EntryOk(curve, id, Restored(e, i, txIn, s)) && Restored(e, i, txIn, s).header == e.header
    ensures Coins(id, Restored(e, i, txIn, s)) == Coins(id, e)[i := CoinsOf(id)[i]]
  {
    hide StakeExtraOf, CoinsOf, IdOk, ScriptRep;
  }

  // Storing.

  /** What loading gives is the same entry as what was stored. */
  lemma LoadedSame(curve: Curve, id: TxId, e: UtxoEntry)
    requires EntryOk(curve, id, e) && Coins(id, e) != map[]
    ensures EntryOk(curve, id, Loaded(curve, e)) && Coins(id, Loaded(curve, e)) == Coins(id, e)
    ensures Loaded(curve, e).header == e.header && !Loaded(curve, e).modified
  {
    hide CoinsOf, IdOk, StakeExtraOf, OutputOk, Coins;
    forall i | i in e.sparseOutputs && OutputOk(curve, e.sparseOutputs[i], CoinsOf(id)[i])
      ensures OutputOk(curve, LoadedOutput(curve, e.sparseOutputs[i]), CoinsOf(id)[i])
    {
      LoadedOutputOk(curve, e.sparseOutputs[i], CoinsOf(id)[i]);
    }
    LoadedCoins(curve, id, e);
    NoExtra(id);
  }

  lemma LoadedOutputOk(curve: Curve, o: UtxoOutput, c: Coin)
    requires OutputOk(curve, o, c)
    ensures OutputOk(curve, LoadedOutput(curve, o), c)
  {
    hide Compress;
  }

  lemma LoadedCoins(curve: Curve, id: TxId, e: UtxoEntry)
    ensures Coins(id, Loaded(curve, e)) == Coins(id, e)
  {
    hide CoinsOf;
    assert forall i :: Loaded(curve, e).IsUnspent(i) <==> e.IsUnspent(i);
  }

  lemma NoExtra(id: TxId)
    ensures id.txType != SStx ==> StakeExtraOf(id) == []
  {}

  /** Entries of a view satisfy what the codec asks of the entries it stores, so storing and loading
      goes through its round trip. */
  lemma StorableEntry(curve: Curve, id: TxId, e: UtxoEntry)
    requires EntryOk(curve, id, e) && InBlockRange(e.header.height, e.header.index)
    ensures UtxoCodec.Storable(e)
  {
    hide Amounts.Compressed, StakeExtraOf, Compress, TxOutCodec.SelfDelimiting;
    forall i | i in e.sparseOutputs ensures i < U32 - 6 && StorableOutput(e.sparseOutputs[i]) {
      assert i in CoinsOf(id) && OutputOk(curve, e.sparseOutputs[i], CoinsOf(id)[i]);
      CompressedDelimits(curve, CoinsOf(id)[i].pkScript);
    }
  }

  lemma CompressedDelimits(curve: Curve, script: Bytes)
    requires |script| < 0x1_0000_0000
    ensures TxOutCodec.SelfDelimiting(Compress(curve, script)) && |Compress(curve, script)| < Vlq.U64 / 8
  {
    hide Compress, DecodeSize, HoldsScript, ExtractPubKeyHash, ExtractScriptHash, ExtractPubKey;
    CompressedLength(curve, script);
    forall tail: Bytes ensures DecodeSize(Compress(curve, script) + tail) == |Compress(curve, script)| {
      Delimits(curve, script, tail);
    }
  }

  // Facts about one transaction.

  lemma StandsAt(curve: Curve, entries: Entries, db: Store, u: Utxos, pend: set<TxId>, id: TxId, bare: set<TxId> := {})
    requires Stands(curve, entries, db, u, pend, bare)
    ensures id !in pend ==> Look(entries, db, id) == See(u, id, bare)
    ensures id in pend ==> PendingOk(id, entries)
    ensures id in entries && entries[id].Some? ==> EntryOk(curve, id, entries[id].value)
  {}

  /** A transaction that is unspent and loaded has its entry in the view. */
  lemma UnspentEntry(curve: Curve, entries: Entries, db: Store, u: Utxos, pend: set<TxId>, id: TxId,
                     bare: set<TxId> := {})
    requires Stands(curve, entries, db, u, pend, bare) && id in entries && id !in pend && id in u
    ensures entries[id].Some?
    ensures EntryOk(curve, id, entries[id].value)
    ensures Coins(id, entries[id].value) == u[id].coins
    ensures entries[id].value.header == if id in bare then u[id].header.(stakeExtra := []) else u[id].header
  {
    hide EntryOk, Coins;
    StandsAt(curve, entries, db, u, pend, id, bare);
  }

  function Plain(e: UtxoEntry, i: nat, script: Bytes): UtxoEntry
    requires i in e.sparseOutputs
  {
    e.(sparseOutputs := e.sparseOutputs[i := e.sparseOutputs[i].(pkScript := script, compressed := false)])
  }

  lemma PlainSame(curve: Curve, id: TxId, e: UtxoEntry, i: nat)
    requires EntryOk(curve, id, e) && i in e.sparseOutputs
    ensures i in CoinsOf(id)
    ensures var p := Plain(e, i, CoinsOf(id)[i].pkScript);
            EntryOk(curve, id, p) && Coins(id, p) == Coins(id, e) && p.header == e.header && p.modified == e.modified
            && p.IsFullySpent() == e.IsFullySpent()
  {
    hide StakeExtraOf, CoinsOf, IdOk;
    var p := Plain(e, i, CoinsOf(id)[i].pkScript);
    assert forall k :: p.IsUnspent(k) == e.IsUnspent(k);
    assert forall k :: k in p.sparseOutputs ==> p.sparseOutputs[k].spent == e.sparseOutputs[k].spent;
  }

  /** The script of an output, decompressed when it is still compressed. */
  function ScriptOf(curve: Curve, o: UtxoOutput): Bytes {
    if !o.compressed then o.pkScript
    else if o.pkScript != [] && HoldsScript(o.pkScript) && Decompress(curve, o.pkScript).Some?
    then Decompress(curve, o.pkScript).value
    else []
  }

  lemma ScriptIsCoins(curve: Curve, id: TxId, e: UtxoEntry, i: nat)
    requires EntryOk(curve, id, e) && i in e.sparseOutputs && RecoversKeys(curve)
    ensures i in CoinsOf(id) && ScriptOf(curve, e.sparseOutputs[i]) == CoinsOf(id)[i].pkScript
    ensures e.sparseOutputs[i].scriptVersion == CoinsOf(id)[i].scriptVersion
  {
    hide Compress, Decompress, StakeExtraOf;
    DecompressUndoesCompress(curve, CoinsOf(id)[i].pkScript);
  }

  /** What the entry of a transaction added to a view carries: the ticket data it had, or the right. */
  ghost function ExtraBefore(entries: Entries, id: TxId): Bytes {
    if id in entries && entries[id].Some? then entries[id].value.header.stakeExtra else StakeExtraOf(id)
  }

  /** Making all outputs of a transaction available creates it in the set the view stands for. */
  lemma CreatedStands(curve: Curve, entries: Entries, db: Store, u: Utxos, pend: set<TxId>, id: TxId, height: nat,
                      index: nat,
                      e: UtxoEntry, bare: set<TxId>)
    requires Stands(curve, entries, db, u, pend, bare) && ValidEvent(u, Create(id, height, index))
    requires id in bare <==> HasBare(entries, id)
    requires EntryOk(curve, id, e) && e.modified && Coins(id, e) == CoinsOf(id)
    requires e.header == HeaderOf(id, height, index).(stakeExtra := ExtraBefore(entries, id))
    ensures Stands(curve, entries[id := Some(e)], db, Step(u, Create(id, height, index)), pend - {id}, bare)
    ensures SameBare(entries, entries[id := Some(e)])
  {
    hide Stands, CoinsOf, StakeExtraOf, Compress;
    StandsAt(curve, entries, db, u, pend, id, bare);
    NoExtra(id);
    TicketExtra(id);
    CreateElsewhere(u, id, height, index);
    Replace(curve, entries, db, u, pend, id, e, Step(u, Create(id, height, index)), pend - {id}, bare);
  }

  /** An entry with one more output of its transaction, or with it replaced in every field. */
  function WithOutput(e: UtxoEntry, i: nat, txOut: TxOut): UtxoEntry {
    e.(sparseOutputs := e.sparseOutputs[i := UtxoOutput(txOut.value, txOut.version, txOut.pkScript, false, false)])
  }

  /** The entry has the output unspent, with its value, version and script as they are. */
  predicate HasOutput(e: UtxoEntry, k: nat, txOut: TxOut) {
    && e.IsUnspent(k) && e.sparseOutputs[k].amount == txOut.value && e.sparseOutputs[k].scriptVersion == txOut.version
    && e.sparseOutputs[k].pkScript == txOut.pkScript && !e.sparseOutputs[k].compressed
  }

  lemma WithOutputOk(curve: Curve, id: TxId, e: UtxoEntry, i: nat)
    requires EntryOk(curve, id, e) && i < |id.outs| && !id.outs[i].unspendable
    ensures var r := WithOutput(e, i, id.outs[i]);
            EntryOk(curve, id, r) && r.header == e.header && r.modified == e.modified && r.IsUnspent(i)
            && forall k :: e.IsUnspent(k) ==> r.IsUnspent(k)
  {
    hide StakeExtraOf, Compress, IdOk;
  }

  lemma AllOutputs(id: TxId, e: UtxoEntry)
    requires forall k :: 0 <= k < |id.outs| && !id.outs[k].unspendable ==> e.IsUnspent(k)
    ensures Coins(id, e) == CoinsOf(id)
  {}

  lemma HeaderChange(curve: Curve, id: TxId, e: UtxoEntry, height: nat, index: nat)
    requires EntryOk(curve, id, e)
    ensures EntryOk(curve, id, e.(header := e.header.(height := height, index := index)))
    ensures e.header.(height := height, index := index) ==
      HeaderOf(id, height, index).(stakeExtra := e.header.stakeExtra)
  {
    hide CoinsOf, StakeExtraOf, IdOk;
  }

  lemma MarkedOk(curve: Curve, id: TxId, e: UtxoEntry)
    requires EntryOk(curve, id, e)
    ensures EntryOk(curve, id, e.(modified := true))
  {
    hide CoinsOf, StakeExtraOf, IdOk;
  }

  lemma NewEntryOk(curve: Curve, id: TxId, e: UtxoEntry, height: nat, index: nat)
    requires IdOk(id) && e.sparseOutputs == map[] && e.txVersion == id.version
    requires e.header == HeaderOf(id, height, index)
    ensures EntryOk(curve, id, e)
  {}

  lemma SameHeaderBare(entries: Entries, id: TxId, e: UtxoEntry)
    requires id in entries && entries[id].Some? && entries[id].value.header == e.header
    ensures SameBare(entries, entries[id := Some(e)])
  {
    hide CoinsOf;
  }

  /** A coinbase and regular transactions after it. */
  ghost predicate IsRegularTree(txs: seq<Tx>) {
    |txs| > 0 && txs[0].id.isCoinBase && forall i :: 1 <= i < |txs| ==>
      !txs[i].id.isCoinBase && txs[i].id.txType == Regular
  }

  /** A stake tree has no coinbase, a regular tree begins with it. */
  ghost predicate TreePlace(txs: seq<Tx>, j: nat, stakeTree: bool)
    requires j < |txs|
  {
    if stakeTree then !txs[j].id.isCoinBase else txs[j].id.txType == Regular && (txs[j].id.isCoinBase <==> j == 0)
  }

  /** The transactions of a tree from position j on have been undone. */
  ghost predicate PartlyUndone(curve: Curve, entries: Entries, db: Store, u0: Utxos, pre: seq<Event>, txs: seq<Tx>,
                               height: nat,
                               j: nat, stxos: seq<SpentTxOut>, pend: set<TxId>, ku: Utxos, kh: seq<Event>)
    requires j <= |txs|
  {
    var evs := pre + TreeEvents(txs[..j], height);
    && Valid(u0, evs) && Stands(curve, entries, db, Connect(u0, evs), pend - Ids(txs[j..]))
    && Adequate(curve, u0, evs, stxos) && Kept(entries, ku, kh + evs, pend - Ids(txs[j..]))
  }

  lemma UndoneStart(curve: Curve, entries: Entries, db: Store, u0: Utxos, pre: seq<Event>, txs: seq<Tx>, height: nat,
                    stxos: seq<SpentTxOut>, pend: set<TxId>, ku: Utxos, kh: seq<Event>)
    requires Valid(u0, pre + TreeEvents(txs, height)) && Adequate(curve, u0, pre + TreeEvents(txs, height), stxos)
    requires Stands(curve, entries, db, Connect(u0, pre + TreeEvents(txs, height)), pend)
    requires Kept(entries, ku, kh + (pre + TreeEvents(txs, height)), pend)
    ensures PartlyUndone(curve, entries, db, u0, pre, txs, height, |txs|, stxos, pend, ku, kh)
    ensures Ids(txs[|txs|..]) == {} && forall e: Entries :: BareAdded(e, e, {})
  {
    hide Stands, Valid, Connect, Adequate, Kept, HasBare, TreeEvents, CoinsOf;
    assert txs[..|txs|] == txs && txs[|txs|..] == [];
    NoTreeEvents(txs, height);
    assert pend - {} == pend;
  }

  lemma UndoneEnd(curve: Curve, entries: Entries, db: Store, u0: Utxos, pre: seq<Event>, txs: seq<Tx>, height: nat,
                  stxos: seq<SpentTxOut>, pend: set<TxId>, ku: Utxos, kh: seq<Event>)
    requires PartlyUndone(curve, entries, db, u0, pre, txs, height, 0, stxos, pend, ku, kh) && pend <= Ids(txs)
    ensures Valid(u0, pre) && Stands(curve, entries, db, Connect(u0, pre), {}) && Kept(entries, ku, kh + pre, {})
  {
    hide Stands, Valid, Connect, Adequate, Kept, TreeEvents, Ids;
    NoTreeEvents(txs, height);
    assert txs[0..] == txs && pre + [] == pre;
    assert pend - Ids(txs) == {};
  }

  lemma StaysLoaded(tx: Tx, keys: set<TxId>, more: set<TxId>)
    requires InputsLoaded(tx, keys) && keys <= more
    ensures InputsLoaded(tx, more)
  {}

  class UtxoViewpoint {
    const curve: Curve
    var entries: Entries
    var bestHash: Hash

    constructor (curve: Curve)
      ensures this.curve == curve && entries == map[]
    {
      this.curve := curve;
      entries := map[];
      bestHash := Hash(0);
    }

    /** Make all outputs of a transaction available, whatever the view knew about it before.  Of an
        entry that is already there only height and index change; a new one gets the ticket data. */
    method AddTxOuts(id: TxId, height: nat, index: nat)
      requires IdOk(id) && (id in entries && entries[id].Some? ==> EntryOk(curve, id, entries[id].value))
      modifies this`entries
      ensures id in entries && entries[id].Some? && entries == old(entries)[id := entries[id]]
      ensures EntryOk(curve, id, entries[id].value) && entries[id].value.modified
      ensures entries[id].value.header == HeaderOf(id, height, index).(stakeExtra := ExtraBefore(old(entries), id))
      ensures Coins(id, entries[id].value) == CoinsOf(id)
      ensures var e := entries[id].value;
              && e.header.height == height && e.header.index == index
              && e.header.isCoinBase == id.isCoinBase && e.header.hasExpiry == id.hasExpiry
              && e.header.txType == id.txType
      ensures !(id in old(entries) && old(entries)[id].Some?) ==>
        entries[id].value.txVersion == id.version
          && entries[id].value.header.stakeExtra == if id.txType == SStx then TxOutCodec.EncodeMinimal(id.outs) else []
      ensures forall k :: 0 <= k < |id.outs| && !id.outs[k].unspendable ==>
        HasOutput(entries[id].value, k, id.outs[k])
    {
      hide TxOutCodec.EncodeMinimal, TxOutCodec.InRange, EntryOk, Coins, CoinsOf;
      ghost var extra := ExtraBefore(entries, id);
      var entry: UtxoEntry;
      if id in entries && entries[id].Some? {
        entry := entries[id].value;
        HeaderChange(curve, id, entry, height, index);
        entry := entry.(header := entry.header.(height := height, index := index));
      } else {
        var stakeExtra := [];
        if id.txType == SStx {
          stakeExtra := TxOutCodec.MinimalOutputs(id.outs);
        }
        entry := UtxoEntry(map[], Header(height, index, id.isCoinBase, id.hasExpiry, id.txType, stakeExtra), id.version,
                           false);
        NewEntryOk(curve, id, entry, height, index);
      }
      MarkedOk(curve, id, entry);
      ghost var txVersion := entry.txVersion;
      entry := entry.(modified := true);
      for i := 0 to |id.outs|
        invariant EntryOk(curve, id, entry) && entry.modified && entry.txVersion == txVersion
          && entry.header == HeaderOf(id, height, index).(stakeExtra := extra)
        invariant entries == old(entries)
        invariant forall k :: 0 <= k < i && !id.outs[k].unspendable ==> HasOutput(entry, k, id.outs[k])
      {
        var txOut := id.outs[i];
        if !txOut.unspendable {
          WithOutputOk(curve, id, entry, i);
          entry := WithOutput(entry, i, txOut);
        }
      }
      AllOutputs(id, entry);
      entries := entries[id := Some(entry)];
    }

    /** The journal entry of a spend, from the entry after it. */
    method JournalSpend(txIn: TxIn, entry: UtxoEntry, ghost u: Utxos, ghost bare: set<TxId>) returns (stxo: SpentTxOut)
      requires RecoversKeys(curve) && WellFormed(u) && ValidEvent(u, Spend(txIn))
        && txIn.prevOut.index in entry.sparseOutputs
      requires var id := txIn.prevOut.id;
               && EntryOk(curve, id, entry) && Coins(id, entry) == u[id].coins - {txIn.prevOut.index}
               && entry.header == (if id in bare then u[id].header.(stakeExtra := []) else u[id].header)
               && entry.sparseOutputs[txIn.prevOut.index].pkScript == CoinsOf(id)[txIn.prevOut.index].pkScript
      ensures bare == {} ==> Restores(curve, stxo, txIn, u)
    {
      hide WellFormed, CoinsOf, StakeExtraOf, IdOk, Compress, RecoversKeys;
      var id, i := txIn.prevOut.id, txIn.prevOut.index;
      CoinsKnown(u, id, i);
      CoinsEntry(curve, id, entry);
      stxo := SpentTxOut(txIn.valueIn, entry.sparseOutputs[i].scriptVersion, entry.sparseOutputs[i].pkScript, false,
                         false, 0, 0, 0, false, false, Regular, []);
      if entry.IsFullySpent() {
        var h := entry.header;
        stxo := stxo.(txFullySpent := true, txVersion := entry.txVersion, height := h.height, index := h.index,
                      isCoinBase := h.isCoinBase, hasExpiry := h.hasExpiry, txType := h.txType,
                      stakeExtra := if h.txType == SStx then h.stakeExtra else []);
      }
    }

    /** Spend the output an input refers to; when asked to, append its journal entry.  The missing
        entry the source guards against cannot occur for a valid spend. */
    method SpendInput(txIn: TxIn, collect: bool, stxos: seq<SpentTxOut>, ghost db: Store, ghost u: Utxos,
                      ghost pend: set<TxId>,
                      ghost bare: set<TxId> := {})
      returns (more: seq<SpentTxOut>)
      requires RecoversKeys(curve) && Stands(curve, entries, db, u, pend, bare) && WellFormed(u)
      requires ValidEvent(u, Spend(txIn)) && txIn.prevOut.id in entries && txIn.prevOut.id !in pend
      modifies this`entries
      ensures Stands(curve, entries, db, Step(u, Spend(txIn)), pend, bare)
      ensures entries.Keys == old(entries).Keys && SameBare(old(entries), entries)
      ensures entries[txIn.prevOut.id].Some? && entries == old(entries)[txIn.prevOut.id := entries[txIn.prevOut.id]]
      ensures bare == {} ==> entries[txIn.prevOut.id].value.header == u[txIn.prevOut.id].header
      ensures if collect then |more| == |stxos| + 1 && more[..|stxos|] == stxos
        && (bare == {} ==> Restores(curve, more[|stxos|], txIn, u))
              else more == stxos
    {
      hide Stands, WellFormed, CoinsOf, StakeExtraOf, IdOk, Compress, RecoversKeys, EntryOk, Coins, HasBare, SameBare,
           Restores, Step, ScriptOf;
      var id, i := txIn.prevOut.id, txIn.prevOut.index;
      UnspentEntry(curve, entries, db, u, pend, id, bare);
      if entries[id].None? {
        assert false;
      }
      ghost var before := entries[id].value;
      CoinsEntry(curve, id, before);
      SpentCoins(curve, id, before, i);
      var entry := Spent(entries[id].value, i);
      CoinsEntry(curve, id, entry);
      SpendLook(u, txIn, id, entry, bare);
      more := stxos;
      if collect {
        ScriptIsCoins(curve, id, entry, i);
        PlainSame(curve, id, entry, i);
        var script := ScriptOf(curve, entry.sparseOutputs[i]);
        entry := Plain(entry, i, script);
        var stxo := JournalSpend(txIn, entry, u, bare);
        more := stxos + [stxo];
      }
      Replace(curve, entries, db, u, pend, id, entry, Step(u, Spend(txIn)), pend, bare);
      SameHeaderBare(entries, id, entry);
      entries := entries[id := Some(entry)];
    }

    /** Give back the output an input spent, from the view when it still has it and from the journal
        otherwise.  A transaction the view knows nothing of was fully spent, and then the journal
        entry is the one that says so: the source's assertion failure cannot occur. */
    method RestoreInput(spender: TxId, txIn: TxIn, stxo: SpentTxOut, ghost db: Store, ghost u: Utxos,
                        ghost pend: set<TxId>)
      requires WellFormed(u) && ValidEvent(u, Spend(txIn)) && Restores(curve, stxo, txIn, u)
        && spender.version < TxOutCodec.U16
      requires Stands(curve, entries, db, Step(u, Spend(txIn)), pend) && txIn.prevOut.id in entries
      requires txIn.prevOut.id !in pend && IsResidue(entries, txIn.prevOut.id) ==>
        entries[txIn.prevOut.id].value.header == u[txIn.prevOut.id].header
      modifies this`entries
      ensures Stands(curve, entries, db, u, pend) && entries.Keys == old(entries).Keys
        && SameBare(old(entries), entries)
      ensures entries[txIn.prevOut.id].Some? && entries == old(entries)[txIn.prevOut.id := entries[txIn.prevOut.id]]
      ensures Coins(txIn.prevOut.id, entries[txIn.prevOut.id].value) != map[]
      ensures var now, before := entries[txIn.prevOut.id].value, old(entries)[txIn.prevOut.id];
              now.txVersion == if before.None? then spender.version else before.value.txVersion
    {
      hide Stands, WellFormed, CoinsOf, StakeExtraOf, IdOk, Compress;
      var id, i := txIn.prevOut.id, txIn.prevOut.index;
      StandsAt(curve, entries, db, Step(u, Spend(txIn)), pend, id);
      CoinsKnown(u, id, i);
      var entry: UtxoEntry;
      if entries[id].None? {
        RevivedFully(u, txIn, stxo, entries, db);
        if !stxo.txFullySpent {
          assert false;
        }
        entry := UtxoEntry(map[], Header(stxo.height, stxo.index, stxo.isCoinBase, stxo.hasExpiry, stxo.txType,
                                         if stxo.txType == SStx then stxo.stakeExtra else []), spender.version, false);
      } else {
        entry := entries[id].value;
        if id !in pend {
          HeaderKept(u, txIn, entry, entries, db);
        }
      }
      RestoredCoins(curve, id, entry, i, txIn, stxo);
      RestoreLook(u, txIn, entry, Restored(entry, i, txIn, stxo), entries, db, pend);
      Replace(curve, entries, db, Step(u, Spend(txIn)), pend, id, Restored(entry, i, txIn, stxo), u, pend);
      assert i in Coins(id, Restored(entry, i, txIn, stxo));
      RestoredNotBare(curve, entries, id, Restored(entry, i, txIn, stxo));
      entries := entries[id := Some(Restored(entry, i, txIn, stxo))];
    }

    /** Clear a transaction of the block from the view, leaving an empty entry as a marker. */
    method ClearTx(id: TxId, height: nat, index: nat, isCoinBase: bool, txType: TxType, ghost db: Store, ghost u: Utxos,
                   ghost pend: set<TxId>)
      requires IdOk(id) && id.isCoinBase == isCoinBase && id.txType == txType
      requires ValidEvent(u, Create(id, height, index))
      requires Stands(curve, entries, db, Step(u, Create(id, height, index)), pend)
      modifies this`entries
      ensures Stands(curve, entries, db, u, pend - {id}) && entries.Keys == old(entries).Keys + {id}
      ensures entries == old(entries)[id := entries[id]]
      ensures BareAdded(old(entries), entries, {id})
    {
      hide Stands, CoinsOf, Compress, HasBare, StakeExtraOf, EntryOk, AbsEntry, Coins, IdOk, BareAdded;
      ghost var before := entries;
      StandsAt(curve, entries, db, Step(u, Create(id, height, index)), pend, id);
      var entry: UtxoEntry;
      if id !in entries || entries[id].None? {
        entry := UtxoEntry(map[], Header(height, index, isCoinBase, id.hasExpiry, txType, []), id.version, false);
      } else {
        entry := entries[id].value;
      }
      entry := entry.(modified := true, sparseOutputs := map[]);
      ClearedEntry(curve, id, if id in entries then entries[id] else None, entry);
      ClearedBare(before, id, entry, u, height, index, db, pend);
      CreateElsewhere(u, id, height, index);
      Replace(curve, before, db, Step(u, Create(id, height, index)), pend, id, entry, u, pend - {id});
      entries := entries[id := Some(entry)];
    }

    method CreateOutputs(id: TxId, height: nat, index: nat, ghost db: Store, ghost u: Utxos, ghost pend: set<TxId>,
                         ghost bare: set<TxId> := {})
      requires Stands(curve, entries, db, u, pend, bare) && ValidEvent(u, Create(id, height, index))
      requires id in bare <==> HasBare(entries, id)
      modifies this`entries
      ensures Stands(curve, entries, db, Step(u, Create(id, height, index)), pend - {id}, bare)
      ensures entries.Keys == old(entries).Keys + {id} && SameBare(old(entries), entries)
      ensures entries[id].Some? && Coins(id, entries[id].value) == CoinsOf(id)
        && entries == old(entries)[id := entries[id]]
    {
      hide Stands, CoinsOf, StakeExtraOf, Compress, HasBare, SameBare, EntryOk, Coins, Step, HeaderOf;
      StandsAt(curve, entries, db, u, pend, id, bare);
      ghost var before := entries;
      assert IdOk(id);
      AddTxOuts(id, height, index);
      CreatedStands(curve, before, db, u, pend, id, height, index, entries[id].value, bare);
    }

    /** Connecting a transaction spends its inputs in order and then makes its outputs available. */
    method ConnectTransaction(tx: Tx, height: nat, index: nat, collect: bool, stxos: seq<SpentTxOut>,
                              ghost db: Store, ghost u0: Utxos, ghost pre: seq<Event>, ghost pend: set<TxId>,
                                ghost bare: set<TxId> := {})
      returns (more: seq<SpentTxOut>)
      requires RecoversKeys(curve) && WellFormed(u0) && Valid(u0, pre + TxEvents(tx, height, index)) && Valid(u0, pre)
      requires Stands(curve, entries, db, Connect(u0, pre), pend, bare) && pend !! Connect(u0, pre).Keys
      requires InputsLoaded(tx, entries.Keys) && (tx.id in bare <==> HasBare(entries, tx.id))
      requires tx.id !in u0 && tx.id !in Created(pre)
      requires collect && bare == {} ==> Adequate(curve, u0, pre, stxos)
      modifies this`entries
      ensures Stands(curve, entries, db, Connect(u0, pre + TxEvents(tx, height, index)), pend - {tx.id}, bare)
      ensures (pend - {tx.id}) !! Connect(u0, pre + TxEvents(tx, height, index)).Keys
      ensures entries.Keys == old(entries).Keys + {tx.id} && SameBare(old(entries), entries)
      ensures if collect then bare == {} ==>
        Adequate(curve, u0, pre + TxEvents(tx, height, index), more) else more == stxos
      ensures bare == {} && Kept(old(entries), u0, pre, pend) ==>
        Kept(entries, u0, pre + TxEvents(tx, height, index), pend - {tx.id})
    {
      hide Stands, WellFormed, Valid, ValidEvent, Connect, Step, Adequate, Restores, Kept, HasBare, RecoversKeys,
           SpendEvents, InputsOf, Progress, Created;
      ghost var ins, create := InputsOf(tx), [Create(tx.id, height, index)];
      ghost var done := pre;
      ghost var keeps := bare == {} && Kept(entries, u0, pre, pend);
      more := stxos;
      NoSpendEvents(ins);
      ProgressEnds(tx);
      assert pre + [] == pre;
      if !tx.id.isCoinBase {
        var isVote := tx.id.txType == SSGen;
        for txInIdx := 0 to |tx.ins|
          invariant entries.Keys == old(entries).Keys && SameBare(old(entries), entries)
          invariant Progress(tx, txInIdx) <= |ins| && done == pre + SpendEvents(ins[..Progress(tx, txInIdx)])
            && Valid(u0, done)
          invariant Stands(curve, entries, db, Connect(u0, done), pend, bare) && pend !! Connect(u0, done).Keys
          invariant if collect then bare == {} ==> Adequate(curve, u0, done, more) else more == stxos
          invariant keeps ==> Kept(entries, u0, done, pend)
        {
          if !(isVote && txInIdx == 0) {
            ghost var m := Progress(tx, txInIdx);
            InputAt(tx, txInIdx);
            SpendStep(u0, pre, ins, create, m);
            more := SpendNext(tx.ins[txInIdx], collect, more, db, u0, done, pend, bare);
            done := pre + SpendEvents(ins[..m + 1]);
          } else {
            ProgressSkips(tx);
          }
        }
      }
      AssocEvents(pre, SpendEvents(ins), create);
      assert ins[..|ins|] == ins && done == pre + SpendEvents(ins);
      ConnectSnoc(u0, done, create[0]);
      AddTxOutsLast(curve, u0, done, tx.id, height, index, more, pend, collect && bare == {});
      NoCreation(ins);
      CreatedAppend(pre, SpendEvents(ins));
      ghost var before := entries;
      CreateOutputs(tx.id, height, index, db, Connect(u0, done), pend, bare);
      if keeps {
        KeptCreate(curve, before, db, u0, done, pend, tx.id, height, index, entries[tx.id].value);
      }
    }

    /** One more input of a transaction. */
    method SpendNext(txIn: TxIn, collect: bool, stxos: seq<SpentTxOut>, ghost db: Store, ghost u0: Utxos,
                     ghost done: seq<Event>,
                     ghost pend: set<TxId>, ghost bare: set<TxId>)
      returns (more: seq<SpentTxOut>)
      requires RecoversKeys(curve) && WellFormed(u0) && Valid(u0, done) && Valid(u0, done + [Spend(txIn)])
      requires ValidEvent(Connect(u0, done), Spend(txIn)) && txIn.prevOut.id in entries
      requires Stands(curve, entries, db, Connect(u0, done), pend, bare) && pend !! Connect(u0, done).Keys
      requires collect && bare == {} ==> Adequate(curve, u0, done, stxos)
      modifies this`entries
      ensures Stands(curve, entries, db, Connect(u0, done + [Spend(txIn)]), pend, bare)
      ensures pend !! Connect(u0, done + [Spend(txIn)]).Keys
      ensures entries.Keys == old(entries).Keys && SameBare(old(entries), entries)
      ensures if collect then bare == {} ==> Adequate(curve, u0, done + [Spend(txIn)], more) else more == stxos
      ensures bare == {} && Kept(old(entries), u0, done, pend) ==> Kept(entries, u0, done + [Spend(txIn)], pend)
    {
      hide Stands, WellFormed, Valid, ValidEvent, Connect, Step, Adequate, Restores, Kept, HasBare, RecoversKeys;
      ghost var u, before := Connect(u0, done), entries;
      ConnectWellFormed(u0, done);
      SpendKeys(u, txIn);
      ConnectSnoc(u0, done, Spend(txIn));
      more := SpendInput(txIn, collect, stxos, db, u, pend, bare);
      if collect && bare == {} {
        AdequateMore(curve, u0, done, txIn, stxos, more);
      }
      if bare == {} && Kept(before, u0, done, pend) {
        KeptSpend(curve, before, db, u0, done, pend, txIn, entries[txIn.prevOut.id].value);
      }
    }

    /** Connecting a tree of transactions, in order. */
    method ConnectTree(txs: seq<Tx>, height: nat, collect: bool, stxos: seq<SpentTxOut>,
                       ghost db: Store, ghost u0: Utxos, ghost pre: seq<Event>, ghost pend: set<TxId>,
                         ghost bare: set<TxId> := {})
      returns (more: seq<SpentTxOut>)
      requires RecoversKeys(curve) && WellFormed(u0) && Valid(u0, pre + TreeEvents(txs, height)) && Valid(u0, pre)
      requires Fresh(u0, pre + TreeEvents(txs, height))
      requires Stands(curve, entries, db, Connect(u0, pre), pend, bare) && pend !! Connect(u0, pre).Keys
      requires forall j :: 0 <= j < |txs| ==> InputsLoaded(txs[j], entries.Keys)
      requires forall j :: 0 <= j < |txs| ==> (txs[j].id in bare <==> HasBare(entries, txs[j].id))
      requires collect && bare == {} ==> Adequate(curve, u0, pre, stxos)
      modifies this`entries
      ensures Stands(curve, entries, db, Connect(u0, pre + TreeEvents(txs, height)), pend - Ids(txs), bare)
      ensures (pend - Ids(txs)) !! Connect(u0, pre + TreeEvents(txs, height)).Keys
      ensures entries.Keys >= old(entries).Keys && SameBare(old(entries), entries)
      ensures if collect then bare == {} ==> Adequate(curve, u0, pre + TreeEvents(txs, height), more) else more == stxos
      ensures bare == {} && Kept(old(entries), u0, pre, pend) ==>
        Kept(entries, u0, pre + TreeEvents(txs, height), pend - Ids(txs))
    {
      hide Stands, WellFormed, Valid, Fresh, Connect, Adequate, Kept, HasBare, RecoversKeys, TreeEvents, TxEvents,
           Ids, InputsOf, Created;
      ghost var keeps := bare == {} && Kept(entries, u0, pre, pend);
      more := stxos;
      NoTreeEvents(txs, height);
      assert pre + [] == pre && pend - {} == pend;
      for j := 0 to |txs|
        invariant entries.Keys >= old(entries).Keys && SameBare(old(entries), entries)
        invariant Valid(u0, pre + TreeEvents(txs[..j], height))
        invariant Stands(curve, entries, db, Connect(u0, pre + TreeEvents(txs[..j], height)), pend - Ids(txs[..j]),
                         bare)
        invariant (pend - Ids(txs[..j])) !! Connect(u0, pre + TreeEvents(txs[..j], height)).Keys
        invariant if collect then bare == {} ==>
          Adequate(curve, u0, pre + TreeEvents(txs[..j], height), more) else more == stxos
        invariant keeps ==> Kept(entries, u0, pre + TreeEvents(txs[..j], height), pend - Ids(txs[..j]))
      {
        TreeStep(u0, pre, txs, height, j);
        TreeNew(u0, pre, txs, height, j);
        assert txs[..j + 1] == txs[..j] + [txs[j]];
        IdsSnoc(txs[..j], txs[j]);
        assert pend - Ids(txs[..j]) - {txs[j].id} == pend - Ids(txs[..j + 1]);
        more := ConnectTransaction(txs[j], height, j, collect, more, db, u0, pre + TreeEvents(txs[..j], height),
                                   pend - Ids(txs[..j]), bare);
      }
      assert txs[..|txs|] == txs;
    }

    /** Disconnecting a transaction clears it and gives its inputs back in reverse order; the index of
        the last journal entry not yet used moves along.  `kh` is a history that led to `u0`. */
    method DisconnectTx(tx: Tx, height: nat, index: nat, isCoinBase: bool, txType: TxType, stxos: seq<SpentTxOut>,
                        last: int,
                        ghost db: Store, ghost u0: Utxos, ghost pre: seq<Event>, ghost pend: set<TxId>, ghost ku: Utxos,
                          ghost kh: seq<Event>)
      returns (stxoIdx: int)
      requires tx.id.isCoinBase == isCoinBase && tx.id.txType == txType && -1 <= last < |stxos|
      requires WellFormed(u0) && Valid(u0, pre + TxEvents(tx, height, index)) && Valid(u0, pre)
      requires Stands(curve, entries, db, Connect(u0, pre + TxEvents(tx, height, index)), pend)
      requires Adequate(curve, u0, pre + TxEvents(tx, height, index), stxos[..last + 1])
      requires InputsLoaded(tx, entries.Keys)
      requires Connect(ku, kh) == u0 && tx.id !in ku && tx.id !in Created(kh + pre)
      requires Kept(entries, ku, kh + (pre + TxEvents(tx, height, index)), pend)
      modifies this`entries
      ensures Stands(curve, entries, db, Connect(u0, pre), pend - {tx.id})
      ensures -1 <= stxoIdx < |stxos| && Adequate(curve, u0, pre, stxos[..stxoIdx + 1])
      ensures Kept(entries, ku, kh + pre, pend - {tx.id}) && entries.Keys == old(entries).Keys + {tx.id}
      ensures BareAdded(old(entries), entries, {tx.id})
    {
      hide Stands, WellFormed, Valid, ValidEvent, Connect, Step, Adequate, Restores, Kept, HasBare, SpendEvents,
           Created, CoinsOf;
      ghost var ins, create := InputsOf(tx), [Create(tx.id, height, index)];
      ghost var done, left := pre + SpendEvents(ins), pend - {tx.id};
      AssocEvents(pre, SpendEvents(ins), create);
      ConnectSnoc(u0, done, create[0]);
      AdequateSnoc(curve, u0, done, create[0], stxos[..last + 1]);
      VersionOk(Connect(u0, done), tx.id, height, index);
      AssocEvents(kh, done, create);
      HistoryConnect(ku, kh, done + create, u0);
      NoCreation(ins);
      AssocEvents(kh, pre, SpendEvents(ins));
      CreatedAppend(kh + pre, SpendEvents(ins));
      ghost var before := entries;
      ClearTx(tx.id, height, index, isCoinBase, txType, db, Connect(u0, done), pend);
      KeptClear(curve, before, db, ku, kh + done, pend, tx.id, height, index, entries[tx.id]);
      ghost var cleared := entries;
      stxoIdx := last;
      assert ins[..|ins|] == ins;
      NoSpendEvents(ins);
      assert pre + [] == pre;
      if isCoinBase {
        return;
      }
      var isVote := txType == SSGen;
      var txInIdx := |tx.ins| - 1;
      while txInIdx > -1
        invariant -1 <= txInIdx < |tx.ins| && -1 <= stxoIdx < |stxos|
        invariant entries.Keys == old(entries).Keys + {tx.id} && SameBare(cleared, entries)
        invariant Progress(tx, txInIdx + 1) <= |ins| && done == pre + SpendEvents(ins[..Progress(tx, txInIdx + 1)])
          && Valid(u0, done)
        invariant Stands(curve, entries, db, Connect(u0, done), left) && Kept(entries, ku, kh + done, left)
        invariant Adequate(curve, u0, done, stxos[..stxoIdx + 1])
      {
        if !(isVote && txInIdx == 0) {
          ghost var m := Progress(tx, txInIdx);
          SpendStep(u0, pre, ins, create, m);
          ghost var earlier := pre + SpendEvents(ins[..m]);
          AdequateSnoc(curve, u0, earlier, Spend(ins[m]), stxos[..stxoIdx + 1]);
          assert stxos[..stxoIdx + 1][..stxoIdx] == stxos[..stxoIdx];
          assert InputsOf(tx)[m].prevOut.id in old(entries).Keys;
          RestoreNext(tx.id, tx.ins[txInIdx], stxos[stxoIdx], db, u0, earlier, left, ku, kh);
          stxoIdx := stxoIdx - 1;
          done := earlier;
        }
        txInIdx := txInIdx - 1;
      }
    }

    /** Give back one more input of a transaction. */
    method RestoreNext(spender: TxId, txIn: TxIn, stxo: SpentTxOut, ghost db: Store, ghost u0: Utxos,
                       ghost earlier: seq<Event>,
                       ghost pend: set<TxId>, ghost ku: Utxos, ghost kh: seq<Event>)
      requires WellFormed(u0) && Valid(u0, earlier) && ValidEvent(Connect(u0, earlier), Spend(txIn))
      requires Restores(curve, stxo, txIn, Connect(u0, earlier)) && spender.version < TxOutCodec.U16
      requires Stands(curve, entries, db, Connect(u0, earlier + [Spend(txIn)]), pend) && txIn.prevOut.id in entries
      requires Connect(ku, kh) == u0 && Kept(entries, ku, kh + (earlier + [Spend(txIn)]), pend)
      modifies this`entries
      ensures Stands(curve, entries, db, Connect(u0, earlier), pend) && Kept(entries, ku, kh + earlier, pend)
      ensures entries.Keys == old(entries).Keys && SameBare(old(entries), entries)
    {
      hide Stands, WellFormed, Valid, ValidEvent, Connect, Step, Restores, Kept, HasBare;
      ghost var before := entries;
      ConnectWellFormed(u0, earlier);
      ConnectSnoc(u0, earlier, Spend(txIn));
      AssocEvents(kh, earlier, [Spend(txIn)]);
      HistoryConnect(ku, kh, earlier, u0);
      HistoryConnect(ku, kh, earlier + [Spend(txIn)], u0);
      if txIn.prevOut.id !in pend && IsResidue(entries, txIn.prevOut.id) {
        KeptHeader(curve, entries, db, ku, kh + earlier, pend, txIn);
      }
      RestoreInput(spender, txIn, stxo, db, Connect(u0, earlier), pend);
      KeptRestore(curve, before, db, ku, kh + earlier, pend, txIn, entries[txIn.prevOut.id].value);
    }

    /** Disconnect one transaction of a tree, whose later ones have been disconnected. */
    method DisconnectLast(txs: seq<Tx>, height: nat, stakeTree: bool, stxos: seq<SpentTxOut>, last: int, txIdx: nat,
                          ghost db: Store, ghost u0: Utxos, ghost pre: seq<Event>, ghost pend: set<TxId>,
                          ghost ku: Utxos, ghost kh: seq<Event>)
      returns (stxoIdx: int)
      requires txIdx < |txs| && -1 <= last < |stxos|
      requires WellFormed(u0) && Valid(u0, pre + TreeEvents(txs, height)) && InputsLoaded(txs[txIdx], entries.Keys)
      requires PartlyUndone(curve, entries, db, u0, pre, txs, height, txIdx + 1, stxos[..last + 1], pend, ku, kh)
      requires Connect(ku, kh) == u0 && Fresh(ku, kh + pre + TreeEvents(txs, height))
      requires TreePlace(txs, txIdx, stakeTree)
      modifies this`entries
      ensures -1 <= stxoIdx < |stxos|
      ensures PartlyUndone(curve, entries, db, u0, pre, txs, height, txIdx, stxos[..stxoIdx + 1], pend, ku, kh)
      ensures entries.Keys == old(entries).Keys + {txs[txIdx].id} && BareAdded(old(entries), entries, {txs[txIdx].id})
    {
      hide Stands, WellFormed, Valid, Fresh, Connect, Adequate, Kept, HasBare, BareAdded, InputsLoaded, TreeEvents,
           TxEvents, InputsOf, Ids, Created, CoinsOf;
      var tx := txs[txIdx];
      TreeStep(u0, pre, txs, height, txIdx);
      TreeNew(ku, kh + pre, txs, height, txIdx);
      AssocEvents(kh, pre, TreeEvents(txs[..txIdx], height));
      IdsCons(txs, txIdx);
      ghost var left := pend - Ids(txs[txIdx + 1..]);
      assert pend - Ids(txs[txIdx..]) == left - {tx.id};
      stxoIdx := DisconnectTx(tx, height, txIdx, !stakeTree && txIdx == 0, if stakeTree then tx.id.txType else Regular,
                              stxos, last, db, u0, pre + TreeEvents(txs[..txIdx], height), left, ku, kh);
    }

    /** Disconnecting a tree of transactions, last one first. */
    method DisconnectTree(txs: seq<Tx>, height: nat, stakeTree: bool, stxos: seq<SpentTxOut>, last: int,
                          ghost db: Store, ghost u0: Utxos, ghost pre: seq<Event>, ghost pend: set<TxId>,
                          ghost ku: Utxos, ghost kh: seq<Event>)
      requires -1 <= last < |stxos|
      requires WellFormed(u0) && Valid(u0, pre + TreeEvents(txs, height)) && Valid(u0, pre)
      requires Stands(curve, entries, db, Connect(u0, pre + TreeEvents(txs, height)), pend) && pend <= Ids(txs)
      requires Adequate(curve, u0, pre + TreeEvents(txs, height), stxos[..last + 1])
      requires forall j :: 0 <= j < |txs| ==> InputsLoaded(txs[j], entries.Keys)
      requires Connect(ku, kh) == u0 && Fresh(ku, kh + (pre + TreeEvents(txs, height)))
      requires Kept(entries, ku, kh + (pre + TreeEvents(txs, height)), pend)
      requires forall j :: 0 <= j < |txs| ==> TreePlace(txs, j, stakeTree)
      modifies this`entries
      ensures Stands(curve, entries, db, Connect(u0, pre), {}) && Kept(entries, ku, kh + pre, {})
      ensures entries.Keys == old(entries).Keys + Ids(txs) && BareAdded(old(entries), entries, Ids(txs))
    {
      hide Stands, WellFormed, Valid, Fresh, Connect, Adequate, Kept, HasBare, BareAdded, InputsLoaded, TreeEvents,
           TxEvents, InputsOf, Ids, Created, CoinsOf, PartlyUndone, TreePlace;
      UndoneStart(curve, entries, db, u0, pre, txs, height, stxos[..last + 1], pend, ku, kh);
      AssocEvents(kh, pre, TreeEvents(txs, height));
      var stxoIdx, txIdx := last, |txs| - 1;
      while txIdx > -1
        invariant -1 <= txIdx < |txs| && -1 <= stxoIdx < |stxos|
        invariant entries.Keys == old(entries).Keys + Ids(txs[txIdx + 1..])
        invariant PartlyUndone(curve, entries, db, u0, pre, txs, height, txIdx + 1, stxos[..stxoIdx + 1], pend, ku, kh)
        invariant BareAdded(old(entries), entries, Ids(txs[txIdx + 1..]))
      {
        ghost var sofar := entries;
        IdNotLater(ku, kh + pre, txs, height, txIdx);
        IdsCons(txs, txIdx);
        StaysLoaded(txs[txIdx], old(entries).Keys, entries.Keys);
        stxoIdx := DisconnectLast(txs, height, stakeTree, stxos, stxoIdx, txIdx, db, u0, pre, pend, ku, kh);
        BareMore(old(entries), sofar, entries, Ids(txs[txIdx + 1..]), txs[txIdx].id);
        txIdx := txIdx - 1;
      }
      assert txs[0..] == txs;
      UndoneEnd(curve, entries, db, u0, pre, txs, height, stxos[..stxoIdx + 1], pend, ku, kh);
    }

    method AddPending(id: TxId, height: nat, index: nat, ghost db: Store, ghost u: Utxos, ghost pend: set<TxId>,
                      ghost bare: set<TxId>)
      requires Stands(curve, entries, db, u, pend, bare) && IdOk(id) && id.txType == Regular
      modifies this`entries
      ensures Stands(curve, entries, db, u, pend + {id}, bare) && entries.Keys == old(entries).Keys + {id}
      ensures SameBare(old(entries), entries) && entries == old(entries)[id := entries[id]]
    {
      hide Stands, CoinsOf, StakeExtraOf, Compress;
      StandsAt(curve, entries, db, u, pend, id, bare);
      NoExtra(id);
      ghost var before := entries;
      AddTxOuts(id, height, index);
      assert (pend + {id}) - {id} == pend - {id};
      Replace(curve, before, db, u, pend, id, entries[id].value, u, pend + {id}, bare);
    }

    /** Add the outputs of earlier transactions of the same tree that its inputs refer to, and collect
        the other transactions the view does not have yet. */
    method AddRegularInputUtxos(txs: seq<Tx>, height: nat, ghost db: Store, ghost u: Utxos, ghost bare: set<TxId>)
      returns (filteredSet: set<TxId>, ghost pend: set<TxId>)
      requires TreeFacts(txs) && Stands(curve, entries, db, u, {}, bare)
      modifies this`entries
      ensures Stands(curve, entries, db, u, pend, bare) && pend <= Ids(txs) && filteredSet !! entries.Keys
      ensures entries.Keys == old(entries).Keys + pend && filteredSet <= TreeInputIds(txs)
      ensures forall j :: 0 <= j < |txs| ==> InputsLoaded(txs[j], entries.Keys + filteredSet)
      ensures SameResidue(old(entries), entries, pend) && SameBare(old(entries), entries)
    {
      hide Stands, StakeExtraOf, HasBare, IsResidue, IdOk, Ids, TreeInputIds;
      var txInFlight: map<TxId, nat> := map[];
      for i := 0 to |txs|
        invariant forall id :: id in txInFlight ==> txInFlight[id] < |txs| && txs[txInFlight[id]].id == id
        invariant forall j :: 0 <= j < i ==> txs[j].id in txInFlight
      {
        txInFlight := txInFlight[txs[i].id := i];
      }
      filteredSet, pend := {}, {};
      assert InputsOf(txs[0]) == [];
      SameResidueStart(entries);
      for i := 1 to |txs|
        invariant Stands(curve, entries, db, u, pend, bare) && pend <= Ids(txs)
        invariant filteredSet !! entries.Keys && filteredSet !! Ids(txs) && filteredSet <= TreeInputIds(txs)
        invariant entries.Keys == old(entries).Keys + pend
        invariant forall j :: 0 <= j < i ==> InputsLoaded(txs[j], entries.Keys + filteredSet)
        invariant SameResidue(old(entries), entries, pend) && SameBare(old(entries), entries)
      {
        ghost var loaded := entries.Keys + filteredSet;
        filteredSet, pend := AddTxInputs(txs, height, i, txInFlight, filteredSet, db, u, pend, bare, old(entries));
        LoadedMore(txs, i, loaded, entries.Keys + filteredSet);
      }
    }

    /** The inputs of one transaction of the regular tree. */
    method AddTxInputs(txs: seq<Tx>, height: nat, i: nat, txInFlight: map<TxId, nat>, known: set<TxId>,
                       ghost db: Store, ghost u: Utxos, ghost pend0: set<TxId>, ghost bare: set<TxId>,
                         ghost start: Entries)
      returns (filteredSet: set<TxId>, ghost pend: set<TxId>)
      requires TreeFacts(txs) && 1 <= i < |txs| && Stands(curve, entries, db, u, pend0, bare) && pend0 <= Ids(txs)
      requires forall id :: id in txInFlight ==> txInFlight[id] < |txs| && txs[txInFlight[id]].id == id
      requires forall j :: 0 <= j < |txs| ==> txs[j].id in txInFlight
      requires known !! entries.Keys && known !! Ids(txs) && known <= TreeInputIds(txs)
      requires SameResidue(start, entries, pend0) && entries.Keys == start.Keys + pend0
      modifies this`entries
      ensures Stands(curve, entries, db, u, pend, bare) && pend0 <= pend <= Ids(txs)
      ensures filteredSet !! entries.Keys && filteredSet !! Ids(txs) && known <= filteredSet <= TreeInputIds(txs)
      ensures old(entries).Keys <= entries.Keys && InputsLoaded(txs[i], entries.Keys + filteredSet)
      ensures SameResidue(start, entries, pend) && SameBare(old(entries), entries) && entries.Keys == start.Keys + pend
    {
      hide Stands, StakeExtraOf, HasBare, IsResidue, TreeFacts, Ids, IdOk, TreeInputIds;
      filteredSet, pend := known, pend0;
      var ins := txs[i].ins;
      for k := 0 to |ins|
        invariant Stands(curve, entries, db, u, pend, bare) && pend0 <= pend <= Ids(txs)
        invariant filteredSet !! entries.Keys && filteredSet !! Ids(txs) && known <= filteredSet <= TreeInputIds(txs)
        invariant old(entries).Keys <= entries.Keys
        invariant forall m :: 0 <= m < k ==> ins[m].prevOut.id in entries.Keys + filteredSet
        invariant SameResidue(start, entries, pend) && SameBare(old(entries), entries)
          && entries.Keys == start.Keys + pend
      {
        var originHash := ins[k].prevOut.id;
        InputIsEarlier(txs, i, k);
        if originHash in txInFlight && i - 1 >= txInFlight[originHash] {
          var inFlightIndex := txInFlight[originHash];
          FactsAt(txs, inFlightIndex);
          ghost var before := entries;
          AddPending(originHash, height, inFlightIndex, db, u, pend, bare);
          SameResidueAdd(start, before, entries, pend, originHash);
          pend := pend + {originHash};
        } else {
          assert originHash !in Ids(txs);
          if originHash !in entries {
            InputIdIn(txs, i, k);
            filteredSet := filteredSet + {originHash};
          }
        }
      }
      RegularInputs(txs, i);
    }

    /** Read the entry of a transaction: nothing when it has none, an error when its bytes cannot be
        read. */
    method FetchUtxoEntry(db: Store, id: TxId) returns (r: Result<Option<UtxoEntry>, TxOutCodec.DecodeError>)
      ensures id !in db ==> r == Ok(None)
      ensures id in db ==> (r.Ok? <==> UtxoCodec.DecodeEntry(db[id]).Ok?)
      ensures r.Ok? ==> r.value == Fetch(db, id)
    {
      hide UtxoCodec.DecodeEntry;
      if id !in db {
        return Ok(None);
      }
      var read := DeserializeUtxoEntry(db[id]);
      if read.Err? {
        return Err(read.error);
      }
      return Ok(Some(read.value));
    }

    /** The bytes of an entry that is not fully spent. */
    method SerializeEntry(entry: UtxoEntry) returns (serialized: Bytes)
      requires UtxoCodec.Storable(entry) && !entry.IsFullySpent()
      ensures UtxoCodec.DecodeEntry(serialized) == Ok(Loaded(curve, entry))
    {
      hide UtxoCodec.DecodeEntry, UtxoCodec.EncodeEntry, UtxoCodec.Storable, Loaded;
      var result := SerializeUtxoEntry(curve, entry);
      serialized := result.value.value;
      ghost var n: nat :| n < U32 && Reaches(entry, n) && result == Ok(Some(UtxoCodec.EncodeEntry(curve, entry, n)));
      UtxoCodec.EntryRoundTrip(curve, entry, n);
    }

    /** Load the requested transactions; one that is not stored is remembered as missing. */
    method FetchUtxosMain(db: Store, filteredSet: set<TxId>, ghost u: Utxos, ghost pend: set<TxId>,
                          ghost bare: set<TxId>)
      requires StoreOk(curve, db) && Stands(curve, entries, db, u, pend, bare) && filteredSet !! entries.Keys
      modifies this`entries
      ensures Stands(curve, entries, db, u, pend, bare) && entries.Keys == old(entries).Keys + filteredSet
      ensures SameResidue(old(entries), entries, {}) && SameBare(old(entries), entries)
    {
      hide Stands, StakeExtraOf, CoinsOf, IdOk, StoreOk, HasBare, IsResidue;
      SameResidueStart(entries);
      var todo := filteredSet;
      while todo != {}
        invariant todo <= filteredSet && Stands(curve, entries, db, u, pend, bare)
        invariant entries.Keys == old(entries).Keys + (filteredSet - todo)
        invariant SameResidue(old(entries), entries, {}) && SameBare(old(entries), entries)
        decreases todo
      {
        var id :| id in todo;
        Load(curve, entries, db, u, pend, id, bare);
        StoredFull(curve, old(entries), entries, db, id);
        var read := FetchUtxoEntry(db, id);
        Readable(curve, db, id);
        if read.Err? {
          assert false;
        }
        entries := entries[id := read.value];
        todo := todo - {id};
      }
    }

    method FetchRegularInputUtxos(db: Store, txs: seq<Tx>, height: nat, ghost u: Utxos, ghost bare: set<TxId> := {})
      returns (ghost pend: set<TxId>)
      requires TreeFacts(txs) && StoreOk(curve, db) && Stands(curve, entries, db, u, {}, bare)
      modifies this`entries
      ensures Stands(curve, entries, db, u, pend, bare) && pend <= Ids(txs)
      ensures forall j :: 0 <= j < |txs| ==> InputsLoaded(txs[j], entries.Keys)
      ensures SameResidue(old(entries), entries, pend) && SameBare(old(entries), entries)
    {
      hide *;
      var filteredSet;
      filteredSet, pend := AddRegularInputUtxos(txs, height, db, u, bare);
      ghost var added := entries;
      FetchUtxosMain(db, filteredSet, u, pend, bare);
      SameResidueTwice(old(entries), added, entries, pend);
    }

    method FetchInputUtxos(db: Store, block: Block, height: nat, ghost u: Utxos, ghost bare: set<TxId> := {})
      returns (ghost pend: set<TxId>)
      requires TreeFacts(block.txs) && StoreOk(curve, db) && Stands(curve, entries, db, u, {}, bare)
      requires forall j :: 0 <= j < |block.stxs| ==> !block.stxs[j].id.isCoinBase
      modifies this`entries
      ensures Stands(curve, entries, db, u, pend, bare) && pend <= Ids(block.txs)
      ensures forall j :: 0 <= j < |block.txs| ==> InputsLoaded(block.txs[j], entries.Keys)
      ensures forall j :: 0 <= j < |block.stxs| ==> InputsLoaded(block.stxs[j], entries.Keys)
      ensures SameResidue(old(entries), entries, pend) && SameBare(old(entries), entries)
      ensures entries.Keys <= old(entries).Keys + Ids(block.txs) + InputIds(block) && old(entries).Keys <= entries.Keys
    {
      hide *;
      var filteredSet;
      filteredSet, pend := AddRegularInputUtxos(block.txs, height, db, u, bare);
      ghost var loaded, added := entries.Keys + filteredSet, entries;
      InputIdsTrees(block);
      for i := 0 to |block.stxs|
        invariant filteredSet !! entries.Keys && loaded <= entries.Keys + filteredSet && filteredSet <= InputIds(block)
        invariant forall j :: 0 <= j < i ==> InputsLoaded(block.stxs[j], entries.Keys + filteredSet)
        modifies {}
      {
        ghost var before := entries.Keys + filteredSet;
        filteredSet := AddStakeInputs(block.stxs, i, filteredSet);
        LoadedMore(block.stxs, i, before, entries.Keys + filteredSet);
      }
      LoadedMore(block.txs, |block.txs|, loaded, entries.Keys + filteredSet);
      FetchUtxosMain(db, filteredSet, u, pend, bare);
      SameResidueTwice(old(entries), added, entries, pend);
    }

    method AddStakeInputs(stxs: seq<Tx>, i: nat, known: set<TxId>) returns (filteredSet: set<TxId>)
      requires i < |stxs| && !stxs[i].id.isCoinBase && known !! entries.Keys
      ensures known <= filteredSet <= known + TreeInputIds(stxs)
      ensures filteredSet !! entries.Keys && InputsLoaded(stxs[i], entries.Keys + filteredSet)
    {
      hide TreeInputIds;
      var tx := stxs[i];
      filteredSet := known;
      var isVote := tx.id.txType == SSGen;
      for txInIdx := 0 to |tx.ins|
        invariant known <= filteredSet <= known + TreeInputIds(stxs) && filteredSet !! entries.Keys
        invariant forall m :: FirstSpend(tx) <= m < txInIdx ==> tx.ins[m].prevOut.id in entries.Keys + filteredSet
      {
        if !(isVote && txInIdx == 0) {
          var originHash := tx.ins[txInIdx].prevOut.id;
          if originHash !in entries {
            StakeInputIn(stxs, i, txInIdx);
            filteredSet := filteredSet + {originHash};
          }
        }
      }
    }

    /** Undo only the regular tree of a block that its child disapproves. */
    method DisconnectDisapprovedBlock(db: Store, n: BlockNode, stxos: seq<SpentTxOut>)
      requires ValidChain(n) && JournalOk(curve, n, stxos) && StoreOk(curve, db)
      requires Stands(curve, entries, db, UtxosAt(n), {}) && KeptFor(entries, n)
      modifies this`entries
      ensures Stands(curve, entries, db, AfterStake(n), {}) && SameBare(old(entries), entries)
    {
      hide Stands, StoreOk, WellFormed, Valid, Fresh, Connect, Adequate, Kept, HasBare, IsResidue, TreeFacts,
           TreeEvents, InputsLoaded, Ids, UtxosAt, AfterStake, Base;
      RegularFacts(n);
      NewIds(n);
      ChainWellFormed(n);
      TreeShape(n);
      ghost var start := entries;
      var pend := FetchRegularInputUtxos(db, n.block.txs, n.Height(), UtxosAt(n));
      ghost var evs := StakeEvents(n) + RegularEvents(n);
      KeptFetch(start, entries, Base(n), evs, {}, pend);
      var count := CountSpentOutputs(n.block);
      JournalLength(curve, n, stxos);
      if |stxos| != count {
        assert false;
      }
      assert stxos[..|stxos| - 1 + 1] == stxos;
      ConnectNothing(curve, Base(n));
      assert [] + evs == evs;
      ghost var fetched := entries;
      DisconnectTree(n.block.txs, n.Height(), false, stxos, |stxos| - 1, db, Base(n), StakeEvents(n), pend, Base(n),
                     []);
      RegularNotBare(fetched, entries, n.block.txs);
    }

    /** Connecting a block to a view of its parent gives a view of the block in which just those tickets
        of the block lack their ticket data that the view had an entry without ticket data for.  So it
        stands for the block exactly when none of those is unspent afterwards; for a block that does not
        spend its own tickets, exactly when there are none.  Then the collected journal can undo it. */
    method ConnectBlock(db: Store, n: BlockNode, parentStxos: seq<SpentTxOut>, collect: bool := true)
      returns (stxos: seq<SpentTxOut>)
      requires RecoversKeys(curve) && ValidChain(n) && ValidBlock(n) && StoreOk(curve, db)
      requires Stands(curve, entries, db, UtxosAt(n.parent.value), {})
      requires !n.block.approvesParent ==>
        JournalOk(curve, n.parent.value, parentStxos) && KeptFor(entries, n.parent.value)
      modifies this
      ensures Stands(curve, entries, db, UtxosAt(n), {}, BareTickets(old(entries), n)) && bestHash == n.hash
      ensures Stands(curve, entries, db, UtxosAt(n), {}) <==> BareTickets(old(entries), n) !! UtxosAt(n).Keys
      ensures BareTickets(old(entries), n) !! InputIds(n.block) ==>
        (Stands(curve, entries, db, UtxosAt(n), {}) <==> BareTickets(old(entries), n) == {})
      ensures BareTickets(old(entries), n) == {} ==> KeptFor(entries, n) && (collect ==> JournalOk(curve, n, stxos))
    {
      hide Stands, StoreOk, WellFormed, Valid, Fresh, Connect, Adequate, Kept, HasBare, IsResidue, TreeFacts,
           TreeEvents, InputsLoaded, Ids, UtxosAt, AfterStake, RecoversKeys, InputsOf, BareTickets;
      ghost var p, bare := n.parent.value, BareTickets(entries, n);
      if !n.block.approvesParent {
        DisconnectDisapprovedBlock(db, n.parent.value, parentStxos);
      }
      RegularFacts(n);
      NewIds(n);
      ChainWellFormed(n);
      TreeShape(n);
      ConnectNothing(curve, Base(n));
      BareAreNew(old(entries), n);
      StandsBare(curve, entries, db, Base(n), {}, bare);
      KeptStart(curve, entries, db, Base(n), bare);
      ghost var start := entries;
      var pend := FetchInputUtxos(db, n.block, n.Height(), Base(n), bare);
      KeptFetch(start, entries, Base(n), [], {}, pend);
      BareOfTrees(old(entries), entries, n);
      ghost var fetched := entries;
      assert [] + StakeEvents(n) == StakeEvents(n);
      stxos := ConnectTree(n.block.stxs, n.Height(), collect, [], db, Base(n), [], pend, bare);
      assert pend - Ids(n.block.stxs) == pend;
      LoadedAll(n.block.txs, entries.Keys);
      BareOfTrees(old(entries), entries, n);
      stxos := ConnectTree(n.block.txs, n.Height(), collect, stxos, db, Base(n), StakeEvents(n), pend, bare);
      assert pend - Ids(n.block.txs) == {};
      BareExact(curve, entries, db, UtxosAt(n), bare);
      if bare !! InputIds(n.block) {
        BareStay(old(entries), n);
      }
      bestHash := n.hash;
    }

    /** Disconnecting a block from a view of it gives a view of its parent, also when the block had
        disapproved that parent. */
    method DisconnectBlock(db: Store, n: BlockNode, stxos: seq<SpentTxOut>)
      requires RecoversKeys(curve) && ValidChain(n) && JournalOk(curve, n, stxos) && StoreOk(curve, db)
      requires Stands(curve, entries, db, UtxosAt(n), {}) && KeptFor(entries, n)
      modifies this
      ensures Stands(curve, entries, db, UtxosAt(n.parent.value), {}) && bestHash == n.parent.value.hash
      ensures NewSinceParent(n) && KeptSinceParent(old(entries), n) ==> KeptFor(entries, n.parent.value)
      ensures BareAfterUndo(old(entries), entries, n)
    {
      hide Stands, StoreOk, WellFormed, Valid, Fresh, Connect, Adequate, Kept, HasBare, IsResidue, TreeFacts,
           TreeEvents, InputsLoaded, Ids, UtxosAt, AfterStake, RecoversKeys, InputsOf, CoinsOf, Base, InputIds;
      var count := CountSpentOutputs(n.block);
      JournalLength(curve, n, stxos);
      if |stxos| != count {
        assert false;
      }
      var regular := CountSpentRegularOutputs(n.block.txs);
      AdequatePrefix(curve, Base(n), StakeEvents(n), RegularEvents(n), stxos);
      ConnectNothing(curve, Base(n));
      FreshTrees(n);
      ghost var start := entries;
      ghost var since := NewSinceParent(n) && KeptSinceParent(entries, n);
      ghost var ku, kh := if since then Base(n.parent.value) else Base(n), if since then SinceParent(n) else [];
      BaseIs(n);
      if since {
        HistoryOf(n);
      }
      UndoTrees(db, n, stxos, regular, ku, kh);
      if !n.block.approvesParent {
        ReconnectRegular(db, n.parent.value);
      }
      bestHash := n.parent.value.hash;
    }

    /** Undo both trees of a block, the regular tree first. */
    method UndoTrees(db: Store, n: BlockNode, stxos: seq<SpentTxOut>, regular: nat, ghost ku: Utxos,
                     ghost kh: seq<Event>)
      requires ValidChain(n) && JournalOk(curve, n, stxos) && StoreOk(curve, db)
      requires regular == |SpendsIn(RegularEvents(n))| <= |stxos|
      requires Stands(curve, entries, db, UtxosAt(n), {})
      requires Connect(ku, kh) == Base(n) && Fresh(ku, kh + (StakeEvents(n) + RegularEvents(n)))
      requires Kept(entries, ku, kh + (StakeEvents(n) + RegularEvents(n)), {})
      modifies this`entries
      ensures Stands(curve, entries, db, Base(n), {}) && Kept(entries, ku, kh, {})
      ensures BareAfterUndo(old(entries), entries, n)
    {
      hide Stands, StoreOk, WellFormed, Valid, Fresh, Connect, Adequate, Kept, HasBare, IsResidue, TreeFacts,
           TreeEvents, InputsLoaded, Ids, UtxosAt, AfterStake, InputsOf, CoinsOf, Base, InputIds, SpendsIn, BareAdded,
           SameBare, BareAfterUndo;
      ghost var start := entries;
      RegularFacts(n);
      NewIds(n);
      ChainWellFormed(n);
      TreeShape(n);
      AdequatePrefix(curve, Base(n), StakeEvents(n), RegularEvents(n), stxos);
      ConnectNothing(curve, Base(n));
      assert [] + StakeEvents(n) == StakeEvents(n) && stxos[..|stxos| - 1 + 1] == stxos && kh + [] == kh;
      AssocEvents(kh, StakeEvents(n), RegularEvents(n));
      FreshPrefix(ku, kh + StakeEvents(n), RegularEvents(n));
      var pend := FetchInputUtxos(db, n.block, n.Height(), UtxosAt(n));
      KeptFetch(start, entries, ku, kh + (StakeEvents(n) + RegularEvents(n)), {}, pend);
      ghost var fetched := entries;
      DisconnectTree(n.block.txs, n.Height(), false, stxos, |stxos| - 1, db, Base(n), StakeEvents(n), pend, ku, kh);
      ghost var middle := entries;
      LoadedMore(n.block.stxs, |n.block.stxs|, fetched.Keys, entries.Keys);
      DisconnectTree(n.block.stxs, n.Height(), true, stxos, |stxos| - regular - 1, db, Base(n), [], {}, ku, kh);
      BareOfUndo(start, fetched, middle, entries, n);
    }

    /** Connect the regular tree of a block again. */
    method ReconnectRegular(db: Store, p: BlockNode)
      requires RecoversKeys(curve) && ValidChain(p) && ValidBlock(p) && StoreOk(curve, db)
      requires Stands(curve, entries, db, AfterStake(p), {})
      modifies this`entries
      ensures Stands(curve, entries, db, UtxosAt(p), {}) && SameBare(old(entries), entries)
      ensures Kept(old(entries), Base(p), StakeEvents(p), {}) ==> KeptFor(entries, p)
    {
      hide Stands, StoreOk, WellFormed, Valid, Fresh, Connect, Kept, HasBare, IsResidue, TreeEvents, InputsLoaded,
           Ids, UtxosAt, AfterStake, RecoversKeys, InputsOf;
      ghost var start := entries;
      RegularFacts(p);
      NewIds(p);
      ChainWellFormed(p);
      TreeShape(p);
      var pend := FetchRegularInputUtxos(db, p.block.txs, p.Height(), AfterStake(p));
      if Kept(start, Base(p), StakeEvents(p), {}) {
        KeptFetch(start, entries, Base(p), StakeEvents(p), {}, pend);
      }
      NoneBare(entries, p.block.txs);
      var none := ConnectTree(p.block.txs, p.Height(), false, [], db, Base(p), StakeEvents(p), pend);
      assert pend - Ids(p.block.txs) == {};
    }

    method CountSpentRegularOutputs(txs: seq<Tx>) returns (numSpent: nat)
      requires IsRegularTree(txs)
      ensures forall height :: numSpent == |SpendsIn(TreeEvents(txs, height))|
    {
      numSpent := 0;
      for i := 1 to |txs|
        invariant numSpent == |SpentInputs(txs[1..i])|
      {
        assert txs[1..i + 1][..i - 1] == txs[1..i];
        numSpent := numSpent + |txs[i].ins|;
      }
      assert txs[1..|txs|] == txs[1..];
      forall height ensures numSpent == |SpendsIn(TreeEvents(txs, height))| {
        SpendsInRegular(txs, height);
      }
    }

    method CountSpentStakeOutputs(stxs: seq<Tx>) returns (numSpent: nat)
      requires VotesSpendOneTicket(stxs) && forall i :: 0 <= i < |stxs| ==> !stxs[i].id.isCoinBase
      ensures forall height :: numSpent == |SpendsIn(TreeEvents(stxs, height))|
    {
      numSpent := 0;
      for i := 0 to |stxs|
        invariant numSpent == CountStxos(stxs[..i])
      {
        assert stxs[..i + 1][..i] == stxs[..i];
        numSpent := numSpent + if stxs[i].id.txType == SSGen then 1 else |stxs[i].ins|;
      }
      assert stxs[..|stxs|] == stxs;
      CountIsSpends(stxs);
      forall height ensures numSpent == |SpendsIn(TreeEvents(stxs, height))| {
        SpendsInTree(stxs, height);
      }
    }

    method CountSpentOutputs(block: Block) returns (numSpent: nat)
      requires TreesOk(block)
      ensures forall height ::
        numSpent == |SpendsIn(TreeEvents(block.stxs, height))| + |SpendsIn(TreeEvents(block.txs, height))|
    {
      hide SpendsIn, TreeEvents, VotesSpendOneTicket;
      var regular := CountSpentRegularOutputs(block.txs);
      var stake := CountSpentStakeOutputs(block.stxs);
      numSpent := regular + stake;
    }

    /** Write the changed entries of the view: what is fully spent is removed, everything else is stored
        without its spent outputs. */
    method PutUtxoView(db: Store, ghost u: Utxos) returns (after: Store)
      requires RecoversKeys(curve) && StoreOk(curve, db) && Stands(curve, entries, db, u, {}) && WellFormed(u)
      ensures Holds(curve, after, u)
    {
      hide StakeExtraOf, CoinsOf, IdOk, Compress, Stands, StoreOk, Holds, RecoversKeys, UtxoCodec.DecodeEntry, Loaded,
           UtxoCodec.Storable, WellFormed;
      after := db;
      AllReadable(curve, db);
      var todo := entries.Keys;
      while todo != {}
        invariant todo <= entries.Keys
        invariant forall id :: id in after ==> Fetch(after, id).Some?
        invariant forall id :: Fetch(after, id) == if id in entries && id !in todo then Written(curve, entries, db, id)
          else Fetch(db, id)
        decreases todo
      {
        var id :| id in todo;
        if entries[id].Some? && entries[id].value.modified {
          if entries[id].value.IsFullySpent() {
            after := after - {id};
          } else {
            WriteOk(curve, entries, db, u, id);
            var serialized := SerializeEntry(entries[id].value);
            after := after[id := serialized];
          }
        }
        todo := todo - {id};
      }
      AllWritten(curve, entries, db, after, u);
    }

    /** After the view has been stored: prune what is fully spent, mark the rest unmodified. */
    method Commit(ghost db: Store, ghost after: Store, ghost u: Utxos)
      requires Stands(curve, entries, db, u, {}) && Holds(curve, after, u)
      modifies this`entries
      ensures Clean(entries) && Stands(curve, entries, after, u, {})
    {
      hide StakeExtraOf, CoinsOf, IdOk, Compress, Stands, Holds;
      ghost var before := entries;
      var todo := entries.Keys;
      while todo != {}
        invariant todo <= before.Keys
        invariant forall id :: id in entries <==>
          id in before && (id in todo
                           || !(before[id].None? || (before[id].value.modified && before[id].value.IsFullySpent())))
        invariant forall id :: id in entries ==>
          entries[id] == if id in todo then before[id] else Some(before[id].value.(modified := false))
        decreases todo
      {
        var id :| id in todo;
        if entries[id].None? || (entries[id].value.modified && entries[id].value.IsFullySpent()) {
          entries := entries - {id};
        } else {
          entries := entries[id := Some(entries[id].value.(modified := false))];
        }
        todo := todo - {id};
      }
      Committed(curve, before, entries, db, after, u);
    }
  }

  lemma SpendLook(u: Utxos, txIn: TxIn, id: TxId, e: UtxoEntry, bare: set<TxId>)
    requires ValidEvent(u, Spend(txIn)) && id == txIn.prevOut.id
    requires e.header == (if id in bare then u[id].header.(stakeExtra := []) else u[id].header)
    requires Coins(id, e) == u[id].coins - {txIn.prevOut.index}
    ensures AbsEntry(id, Some(e)) == See(Step(u, Spend(txIn)), id, bare)
    ensures forall other :: other != id ==> Get(Step(u, Spend(txIn)), other) == Get(u, other)
  {
    hide Coins;
  }

  lemma CoinsKnown(u: Utxos, id: TxId, i: nat)
    requires WellFormed(u) && id in u && i in u[id].coins
    ensures i in CoinsOf(id) && u[id].coins[i] == CoinsOf(id)[i] && IdOk(id)
    ensures u[id].header == HeaderOf(id, u[id].header.height, u[id].header.index)
    ensures id.txType != SStx ==> StakeExtraOf(id) == []
  {
    assert EntryWellFormed(id, u[id]);
  }
  lemma RevivedFully(u: Utxos, txIn: TxIn, s: SpentTxOut, entries: Entries, db: Store)
    requires ValidEvent(u, Spend(txIn))
    requires Look(entries, db, txIn.prevOut.id) == Get(Step(u, Spend(txIn)), txIn.prevOut.id)
    requires txIn.prevOut.id in entries && entries[txIn.prevOut.id].None?
    ensures u[txIn.prevOut.id].coins - {txIn.prevOut.index} == map[]
  {}

  lemma HeaderKept(u: Utxos, txIn: TxIn, e: UtxoEntry, entries: Entries, db: Store)
    requires ValidEvent(u, Spend(txIn))
    requires Look(entries, db, txIn.prevOut.id) == Get(Step(u, Spend(txIn)), txIn.prevOut.id)
    requires txIn.prevOut.id in entries && entries[txIn.prevOut.id] == Some(e)
    requires Coins(txIn.prevOut.id, e) == map[] ==> e.header == u[txIn.prevOut.id].header
    ensures e.header == u[txIn.prevOut.id].header
    ensures Coins(txIn.prevOut.id, e) == u[txIn.prevOut.id].coins - {txIn.prevOut.index}
  {
    hide Coins;
  }

  lemma RestoreLook(u: Utxos, txIn: TxIn, e: UtxoEntry, r: UtxoEntry, entries: Entries, db: Store, pend: set<TxId>)
    requires WellFormed(u) && ValidEvent(u, Spend(txIn)) && r.header == e.header
    requires var id, i := txIn.prevOut.id, txIn.prevOut.index;
             i in CoinsOf(id) && Coins(id, r) == Coins(id, e)[i := CoinsOf(id)[i]]
             && (id !in pend ==> e.header == u[id].header && Coins(id, e) == u[id].coins - {i})
    ensures var id := txIn.prevOut.id;
            (id !in pend ==> AbsEntry(id, Some(r)) == Get(u, id))
            && forall other :: other != id ==> Get(u, other) == Get(Step(u, Spend(txIn)), other)
  {
    hide Coins, CoinsOf, WellFormed, StakeExtraOf, IdOk;
    var id, i := txIn.prevOut.id, txIn.prevOut.index;
    CoinsKnown(u, id, i);
    assert (u[id].coins - {i})[i := u[id].coins[i]] == u[id].coins;
  }

  lemma ClearedEntry(curve: Curve, id: TxId, oe: Option<UtxoEntry>, e: UtxoEntry)
    requires IdOk(id) && (oe.Some? ==> EntryOk(curve, id, oe.value))
    requires e.sparseOutputs == map[]
    requires if oe.Some? then e.header == oe.value.header && e.txVersion == oe.value.txVersion
             else e.txVersion == id.version && e.header.stakeExtra == [] && e.header.txType == id.txType
                  && e.header.isCoinBase == id.isCoinBase && e.header.hasExpiry == id.hasExpiry
    ensures EntryOk(curve, id, e) && Coins(id, e) == map[] && AbsEntry(id, Some(e)) == None
  {
    hide StakeExtraOf, CoinsOf;
  }

  /** A cleared transaction is bare when it was, or when the view did not know it. */
  lemma ClearedBare(entries: Entries, id: TxId, e: UtxoEntry, u: Utxos, height: nat, index: nat, db: Store,
                    pend: set<TxId>)
    requires id in pend ==> PendingOk(id, entries)
    requires id !in pend ==> Look(entries, db, id) == Get(Step(u, Create(id, height, index)), id)
    requires e.header.stakeExtra == if id in entries && entries[id].Some? then entries[id].value.header.stakeExtra
      else []
    ensures BareAdded(entries, entries[id := Some(e)], {id})
  {
    hide StakeExtraOf, CoinsOf, Coins;
  }

  /** An entry that was given back an output carries its ticket data. */
  lemma RestoredNotBare(curve: Curve, entries: Entries, id: TxId, e: UtxoEntry)
    requires IdOk(id) && e.header.stakeExtra == StakeExtraOf(id)
    requires id in entries && (entries[id].Some? ==> entries[id].value.header == e.header)
    ensures SameBare(entries, entries[id := Some(e)])
  {
    hide StakeExtraOf, CoinsOf, IdOk;
    TicketExtra(id);
  }

  lemma CreateElsewhere(u: Utxos, id: TxId, height: nat, index: nat)
    ensures forall other :: other != id ==> Get(u, other) == Get(Step(u, Create(id, height, index)), other)
  {}

  /** The number of events behind the first k inputs of a transaction. */
  function Progress(tx: Tx, k: int): nat {
    if k < FirstSpend(tx) then 0 else k - FirstSpend(tx)
  }

  lemma ProgressEnds(tx: Tx)
    ensures Progress(tx, 0) == 0 && (tx.id.isCoinBase ==> InputsOf(tx) == [])
    ensures !tx.id.isCoinBase ==> Progress(tx, |tx.ins|) == |InputsOf(tx)|
  {}

  lemma ProgressSkips(tx: Tx)
    requires tx.id.txType == SSGen
    ensures Progress(tx, 1) == 0
  {}

  lemma InputAt(tx: Tx, k: nat)
    requires !tx.id.isCoinBase && k < |tx.ins| && !(tx.id.txType == SSGen && k == 0)
    ensures var m := Progress(tx, k);
            m < |InputsOf(tx)| && InputsOf(tx)[m] == tx.ins[k] && Progress(tx, k + 1) == m + 1
  {}

  ghost predicate InputsLoaded(tx: Tx, keys: set<TxId>) {
    forall m :: 0 <= m < |InputsOf(tx)| ==> InputsOf(tx)[m].prevOut.id in keys
  }

  lemma NoSpendEvents(ins: seq<TxIn>)
    ensures SpendEvents(ins[..0]) == [] && (ins == [] ==> SpendEvents(ins) == [])
  {}

  lemma NoTreeEvents(txs: seq<Tx>, height: nat)
    ensures TreeEvents(txs[..0], height) == [] && Ids(txs[..0]) == {} && Ids([]) == {}
  {}

  lemma SpendKeys(u: Utxos, txIn: TxIn)
    requires ValidEvent(u, Spend(txIn))
    ensures txIn.prevOut.id in u && Step(u, Spend(txIn)).Keys <= u.Keys
  {}

  lemma VersionOk(u: Utxos, id: TxId, height: nat, index: nat)
    requires ValidEvent(u, Create(id, height, index))
    ensures IdOk(id) && id.version < TxOutCodec.U16
  {}

  lemma AdequateMore(curve: Curve, u0: Utxos, done: seq<Event>, txIn: TxIn, stxos: seq<SpentTxOut>,
                     more: seq<SpentTxOut>)
    requires Valid(u0, done) && Valid(u0, done + [Spend(txIn)]) && Adequate(curve, u0, done, stxos)
    requires ValidEvent(Connect(u0, done), Spend(txIn))
    requires |more| == |stxos| + 1 && more[..|stxos|] == stxos
      && Restores(curve, more[|stxos|], txIn, Connect(u0, done))
    ensures Adequate(curve, u0, done + [Spend(txIn)], more)
  {
    hide Restores, Connect, ValidEvent, Valid;
    AdequateSnoc(curve, u0, done, Spend(txIn), more);
  }

  lemma AddTxOutsLast(curve: Curve, u0: Utxos, done: seq<Event>, id: TxId, height: nat, index: nat,
                      stxos: seq<SpentTxOut>, pend: set<TxId>, collect: bool)
    requires Valid(u0, done + [Create(id, height, index)]) && Valid(u0, done) && pend !! Connect(u0, done).Keys
    requires collect ==> Adequate(curve, u0, done, stxos)
    ensures ValidEvent(Connect(u0, done), Create(id, height, index))
    ensures (pend - {id}) !! Connect(u0, done + [Create(id, height, index)]).Keys
    ensures collect ==> Adequate(curve, u0, done + [Create(id, height, index)], stxos)
  {
    hide Restores, CoinsOf, HeaderOf;
    AdequateSnoc(curve, u0, done, Create(id, height, index), stxos);
    ConnectSnoc(u0, done, Create(id, height, index));
  }

  lemma NotLater(txs: seq<Tx>, i: nat, id: TxId)
    requires i <= |txs| && id !in Ids(txs[i..])
    ensures forall j :: i <= j < |txs| ==> txs[j].id != id
  {
    forall j | i <= j < |txs| ensures txs[j].id != id {
      assert txs[i..][j - i] == txs[j];
    }
  }

  /** An input refers to an earlier transaction of the tree or to none of it. */
  lemma InputIsEarlier(txs: seq<Tx>, i: nat, k: nat)
    requires TreeFacts(txs) && 1 <= i < |txs| && k < |txs[i].ins|
    ensures var id := txs[i].ins[k].prevOut.id;
            (forall j :: i <= j < |txs| ==> txs[j].id != id)
            && (id in Ids(txs) ==> exists j :: 0 <= j < i && txs[j].id == id)
  {
    hide IdOk;
    var id := txs[i].ins[k].prevOut.id;
    assert InputsOf(txs[i])[k].prevOut.id == id;
    NotLater(txs, i, id);
  }

  lemma RegularInputs(txs: seq<Tx>, i: nat)
    requires TreeFacts(txs) && 1 <= i < |txs|
    ensures InputsOf(txs[i]) == txs[i].ins
  {}

  lemma FactsAt(txs: seq<Tx>, i: nat)
    requires TreeFacts(txs) && i < |txs|
    ensures IdOk(txs[i].id) && txs[i].id.txType == Regular && txs[i].id in Ids(txs)
  {}

  lemma LoadedMore(txs: seq<Tx>, i: nat, keys: set<TxId>, more: set<TxId>)
    requires keys <= more && i <= |txs| && forall j :: 0 <= j < i ==> InputsLoaded(txs[j], keys)
    ensures forall j :: 0 <= j < i ==> InputsLoaded(txs[j], more)
  {
    hide InputsOf;
  }

  /** What is stored is neither residue nor bare. */
  lemma StoredFull(curve: Curve, start: Entries, entries: Entries, db: Store, id: TxId)
    requires StoreOk(curve, db) && id !in entries && start.Keys <= entries.Keys
    requires SameResidue(start, entries, {}) && SameBare(start, entries)
    ensures SameResidue(start, entries[id := Fetch(db, id)], {}) && SameBare(start, entries[id := Fetch(db, id)])
  {
    hide StakeExtraOf, CoinsOf, Coins, IdOk;
    var after := entries[id := Fetch(db, id)];
    TicketExtra(id);
    forall other | IsResidue(after, other) ensures other in start && start[other] == after[other] {
      assert other != id;
      assert IsResidue(entries, other);
    }
    forall other ensures HasBare(after, other) <==> HasBare(start, other) {
      assert HasBare(entries, other) <==> HasBare(start, other);
    }
  }

  lemma SameResidueStart(entries: Entries)
    ensures SameResidue(entries, entries, {}) && SameBare(entries, entries)
  {}

  lemma SameResidueAdd(start: Entries, before: Entries, after: Entries, pend: set<TxId>, id: TxId)
    requires SameResidue(start, before, pend) && id in after && after == before[id := after[id]]
    ensures SameResidue(start, after, pend + {id})
  {
    hide Coins;
    forall other | other !in pend + {id} && IsResidue(after, other)
      ensures other in start && start[other] == after[other]
    {
      assert IsResidue(before, other);
    }
  }

  lemma SameResidueTwice(a: Entries, b: Entries, c: Entries, pend: set<TxId>)
    requires SameResidue(a, b, pend) && SameResidue(b, c, {})
    requires SameBare(a, b) && SameBare(b, c)
    ensures SameResidue(a, c, pend) && SameBare(a, c)
  {
    hide Coins;
    forall id | id !in pend && IsResidue(c, id) ensures id in a && a[id] == c[id] {
      assert IsResidue(b, id);
    }
  }

  /** A view that only caches what is stored can undo any block and has no bare tickets. */
  lemma CleanFacts(curve: Curve, entries: Entries, db: Store, u: Utxos)
    requires Clean(entries) && Stands(curve, entries, db, u, {}) && WellFormed(u)
    ensures forall id :: !IsResidue(entries, id) && !HasBare(entries, id)
  {
    hide StakeExtraOf, CoinsOf, IdOk, Coins;
    forall id | id in entries ensures !HasBare(entries, id) {
      assert Look(entries, db, id) == See(u, id, {});
      assert EntryWellFormed(id, u[id]);
      TicketExtra(id);
    }
  }

  lemma NothingToKeep(entries: Entries, n: BlockNode)
    requires forall id :: !IsResidue(entries, id)
    ensures KeptFor(entries, n)
  {
    hide IsResidue, LastHeader;
  }

  lemma CleanView(curve: Curve, entries: Entries, db: Store, tip: BlockNode, n: BlockNode)
    requires Clean(entries) && ValidChain(tip) && Stands(curve, entries, db, UtxosAt(tip), {})
    ensures KeptFor(entries, tip) && BareTickets(entries, n) == {}
  {
    hide Clean, Stands, WellFormed, ValidChain, Kept, HasBare, IsResidue, UtxosAt, Ids;
    ChainWellFormed(tip);
    CleanFacts(curve, entries, db, UtxosAt(tip));
    NothingToKeep(entries, tip);
  }

  // Histories.

  /** What has happened between the parent's own base and the base of the block. */
  function SinceParent(n: BlockNode): seq<Event>
    requires n.parent.Some?
  {
    var p := n.parent.value;
    if n.block.approvesParent then StakeEvents(p) + RegularEvents(p) else StakeEvents(p)
  }

  /** The transactions of the block were unknown when its parent was connected, too. */
  ghost predicate NewSinceParent(n: BlockNode)
    requires n.parent.Some?
  {
    n.parent.value.parent.Some? && Fresh(Base(n.parent.value), SinceParent(n) + (StakeEvents(n) + RegularEvents(n)))
  }

  ghost predicate KeptSinceParent(entries: Entries, n: BlockNode)
    requires n.parent.Some?
  {
    Kept(entries, Base(n.parent.value), SinceParent(n) + (StakeEvents(n) + RegularEvents(n)), {})
  }

  lemma BaseIs(n: BlockNode)
    requires n.parent.Some?
    ensures Base(n) == if n.block.approvesParent then UtxosAt(n.parent.value) else AfterStake(n.parent.value)
  {}

  lemma HistoryOf(n: BlockNode)
    requires n.parent.Some? && n.parent.value.parent.Some?
    ensures Connect(Base(n.parent.value), SinceParent(n)) == Base(n)
  {
    hide Connect, StakeEvents, RegularEvents;
  }

  lemma HistoryConnect(ku: Utxos, kh: seq<Event>, evs: seq<Event>, u0: Utxos)
    requires Connect(ku, kh) == u0
    ensures Connect(ku, kh + evs) == Connect(u0, evs)
  {
    ConnectAppend(ku, kh, evs);
  }

  lemma FreshTrees(n: BlockNode)
    requires ValidBlock(n)
    ensures Fresh(Base(n), [] + (StakeEvents(n) + RegularEvents(n)))
    ensures [] + (StakeEvents(n) + RegularEvents(n)) == StakeEvents(n) + RegularEvents(n)
  {
    hide Fresh, Valid, Base, StakeEvents, RegularEvents;
    assert [] + (StakeEvents(n) + RegularEvents(n)) == StakeEvents(n) + RegularEvents(n);
  }

  lemma IdNotLater(u: Utxos, pre: seq<Event>, txs: seq<Tx>, height: nat, j: nat)
    requires j < |txs| && Fresh(u, pre + TreeEvents(txs, height))
    ensures txs[j].id !in Ids(txs[j + 1..])
  {
    hide Fresh, TreeEvents;
    forall i | j < i < |txs| ensures txs[i].id != txs[j].id {
      DistinctIds(u, pre, txs, height, j, i);
    }
    var rest := txs[j + 1..];
    forall i | 0 <= i < |rest| ensures rest[i].id != txs[j].id {
      assert rest[i] == txs[j + 1 + i];
    }
  }

  // Bare tickets.

  /** The tickets of the block that the view has an entry without ticket data for. */
  function BareTickets(entries: Entries, n: BlockNode): set<TxId> {
    set id | id in Ids(n.block.stxs) && HasBare(entries, id)
  }

  lemma BareAreNew(entries: Entries, n: BlockNode)
    requires Ids(n.block.stxs) !! Base(n).Keys
    ensures BareTickets(entries, n) !! Base(n).Keys && forall id :: id in BareTickets(entries, n) ==> id.txType == SStx
  {}

  /** Tickets that their own block does not spend are unspent after it. */
  lemma BareStay(entries: Entries, n: BlockNode)
    requires ValidBlock(n) && BareTickets(entries, n) !! InputIds(n.block)
    ensures BareTickets(entries, n) <= UtxosAt(n).Keys
  {
    hide Connect, Valid, Fresh, CoinsOf, Ids, Created, TreeInputIds;
    var evs := StakeEvents(n) + RegularEvents(n);
    CreatedByTree(n.block.stxs, n.Height());
    CreatedAppend(StakeEvents(n), RegularEvents(n));
    forall id | id in BareTickets(entries, n) ensures id in UtxosAt(n) {
      TreeSpends(n.block.stxs, n.Height(), id);
      TreeSpends(n.block.txs, n.Height(), id);
      NeverSpentBoth(StakeEvents(n), RegularEvents(n), id);
      CreatedStays(Base(n), evs, id);
    }
  }

  lemma NeverSpentBoth(a: seq<Event>, b: seq<Event>, id: TxId)
    requires NeverSpent(a, id) && NeverSpent(b, id)
    ensures NeverSpent(a + b, id)
  {}

  /** A tree spends only outputs of transactions its inputs refer to. */
  lemma {:induction false} TreeSpends(txs: seq<Tx>, height: nat, id: TxId)
    requires id !in TreeInputIds(txs)
    ensures NeverSpent(TreeEvents(txs, height), id)
  {
    hide InputsOf;
    if txs != [] {
      var init, last := txs[..|txs| - 1], txs[|txs| - 1];
      forall j, m | 0 <= j < |init| && 0 <= m < |InputsOf(init[j])|
        ensures InputsOf(init[j])[m].prevOut.id in TreeInputIds(txs)
      {
        assert init[j] == txs[j];
      }
      TreeSpends(init, height, id);
      assert NeverSpent(TxEvents(last, height, |init|), id);
      NeverSpentBoth(TreeEvents(init, height), TxEvents(last, height, |init|), id);
    }
  }

  lemma BareOfTrees(start: Entries, entries: Entries, n: BlockNode)
    requires SameBare(start, entries) && Ids(n.block.stxs) !! Ids(n.block.txs)
    requires forall j :: 0 <= j < |n.block.txs| ==> n.block.txs[j].id.txType == Regular
    ensures forall j :: 0 <= j < |n.block.stxs| ==>
      (n.block.stxs[j].id in BareTickets(start, n) <==> HasBare(entries, n.block.stxs[j].id))
    ensures forall j :: 0 <= j < |n.block.txs| ==>
      (n.block.txs[j].id in BareTickets(start, n) <==> HasBare(entries, n.block.txs[j].id))
  {
    hide CoinsOf;
  }

  lemma NoneBare(entries: Entries, txs: seq<Tx>)
    requires forall j :: 0 <= j < |txs| ==> txs[j].id.txType == Regular
    ensures forall j :: 0 <= j < |txs| ==> !HasBare(entries, txs[j].id)
  {
    hide CoinsOf;
  }

  lemma RegularNotBare(before: Entries, after: Entries, txs: seq<Tx>)
    requires BareAdded(before, after, Ids(txs)) && forall j :: 0 <= j < |txs| ==> txs[j].id.txType == Regular
    ensures SameBare(before, after)
  {
    hide CoinsOf;
  }

  lemma BareMore(start: Entries, sofar: Entries, now: Entries, added: set<TxId>, id: TxId)
    requires BareAdded(start, sofar, added) && BareAdded(sofar, now, {id})
    requires sofar.Keys == start.Keys + added && id !in added
    ensures BareAdded(start, now, {id} + added)
  {
    hide CoinsOf;
  }

  ghost predicate BecomesBare(before: Entries, n: BlockNode, id: TxId) {
    id in Ids(n.block.stxs) && id.txType == SStx && id !in before && id !in InputIds(n.block)
  }

  /** Undoing a block leaves entries without ticket data for its tickets that the view did not know and
      the block does not spend itself. */
  ghost predicate BareAfterUndo(before: Entries, after: Entries, n: BlockNode) {
    forall id :: CoinsOf(id) != map[] ==>
      (HasBare(after, id) <==> HasBare(before, id) || BecomesBare(before, n, id))
  }

  lemma BareOfUndo(start: Entries, fetched: Entries, middle: Entries, entries: Entries, n: BlockNode)
    requires SameBare(start, fetched) && start.Keys <= fetched.Keys <= start.Keys + Ids(n.block.txs) + InputIds(n.block)
    requires BareAdded(fetched, middle, Ids(n.block.txs)) && middle.Keys == fetched.Keys + Ids(n.block.txs)
    requires BareAdded(middle, entries, Ids(n.block.stxs)) && Ids(n.block.stxs) !! Ids(n.block.txs)
    requires forall j :: 0 <= j < |n.block.txs| ==> n.block.txs[j].id.txType == Regular
    requires forall j :: 0 <= j < |n.block.txs| ==> InputsLoaded(n.block.txs[j], fetched.Keys)
    requires forall j :: 0 <= j < |n.block.stxs| ==> InputsLoaded(n.block.stxs[j], fetched.Keys)
    ensures BareAfterUndo(start, entries, n)
  {
    hide CoinsOf, HasBare, InputsOf;
    RegularNotBareAll(fetched, middle, n.block.txs);
    assert InputIds(n.block) <= fetched.Keys;
  }

  lemma RegularNotBareAll(before: Entries, after: Entries, txs: seq<Tx>)
    requires BareAdded(before, after, Ids(txs)) && forall j :: 0 <= j < |txs| ==> txs[j].id.txType == Regular
    ensures SameBare(before, after) && forall id :: id in Ids(txs) ==> id.txType != SStx
  {
    RegularNotBare(before, after, txs);
  }

  // The transactions a tree refers to.

  function TreeInputIds(txs: seq<Tx>): set<TxId> {
    set j, m | 0 <= j < |txs| && 0 <= m < |InputsOf(txs[j])| :: InputsOf(txs[j])[m].prevOut.id
  }

  function InputIds(block: Block): set<TxId> {
    TreeInputIds(block.stxs) + TreeInputIds(block.txs)
  }

  lemma InputIdsTrees(block: Block)
    ensures TreeInputIds(block.stxs) <= InputIds(block) && TreeInputIds(block.txs) <= InputIds(block)
  {}

  lemma InputIdIn(txs: seq<Tx>, i: nat, k: nat)
    requires TreeFacts(txs) && 1 <= i < |txs| && k < |txs[i].ins|
    ensures txs[i].ins[k].prevOut.id in TreeInputIds(txs)
  {
    hide IdOk;
    assert InputsOf(txs[i])[k] == txs[i].ins[k];
  }

  lemma StakeInputIn(stxs: seq<Tx>, i: nat, k: nat)
    requires i < |stxs| && !stxs[i].id.isCoinBase && k < |stxs[i].ins| && !(stxs[i].id.txType == SSGen && k == 0)
    ensures stxs[i].ins[k].prevOut.id in TreeInputIds(stxs)
  {
    InputAt(stxs[i], k);
    assert InputsOf(stxs[i])[Progress(stxs[i], k)] == stxs[i].ins[k];
  }

  lemma TreeShape(n: BlockNode)
    requires ValidBlock(n)
    ensures forall j :: 0 <= j < |n.block.txs| ==>
      n.block.txs[j].id.txType == Regular && (n.block.txs[j].id.isCoinBase <==> j == 0)
    ensures forall j :: 0 <= j < |n.block.stxs| ==> !n.block.stxs[j].id.isCoinBase
    ensures TreesOk(n.block) && Valid(Base(n), StakeEvents(n) + RegularEvents(n))
      && Fresh(Base(n), StakeEvents(n) + RegularEvents(n))
    ensures StakeEvents(n) == TreeEvents(n.block.stxs, n.Height())
      && RegularEvents(n) == TreeEvents(n.block.txs, n.Height())
  {
    hide Valid, Fresh, TreeEvents;
  }

  lemma JournalLength(curve: Curve, n: BlockNode, stxos: seq<SpentTxOut>)
    requires ValidBlock(n) && Adequate(curve, Base(n), StakeEvents(n) + RegularEvents(n), stxos)
    ensures |stxos| == |SpendsIn(StakeEvents(n))| + |SpendsIn(RegularEvents(n))|
    ensures TreesOk(n.block)
    ensures n.block.txs[0].id.isCoinBase && |n.block.txs| > 0
    ensures forall i :: 1 <= i < |n.block.txs| ==> !n.block.txs[i].id.isCoinBase && n.block.txs[i].id.txType == Regular
  {
    hide Valid, Fresh, TreeEvents, Adequate, SpendsIn;
    AdequateLength(curve, Base(n), StakeEvents(n) + RegularEvents(n), stxos);
    SpendsInAppend(StakeEvents(n), RegularEvents(n));
  }

  lemma ConnectNothing(curve: Curve, u: Utxos)
    ensures Connect(u, []) == u && Valid(u, []) && Adequate(curve, u, [], [])
  {}

  lemma LoadedAll(txs: seq<Tx>, keys: set<TxId>)
    ensures forall less: set<TxId> :: less <= keys && (forall j :: 0 <= j < |txs| ==> InputsLoaded(txs[j], less)) ==>
              forall j :: 0 <= j < |txs| ==> InputsLoaded(txs[j], keys)
  {
    hide InputsOf;
  }

  function Written(curve: Curve, entries: Entries, db: Store, id: TxId): Option<UtxoEntry>
    requires id in entries
  {
    if entries[id].None? || !entries[id].value.modified then Fetch(db, id)
    else if entries[id].value.IsFullySpent() then None
    else Some(Loaded(curve, entries[id].value))
  }

  lemma WrittenLook(curve: Curve, entries: Entries, db: Store, u: Utxos, id: TxId)
    requires StoreOk(curve, db) && Stands(curve, entries, db, u, {}) && id in entries && WellFormed(u)
    ensures AbsEntry(id, Written(curve, entries, db, id)) == Get(u, id)
    ensures var w := Written(curve, entries, db, id);
            w.Some? ==> StoredEntryOk(curve, id, w.value)
  {
    hide EntryOk, Loaded, Coins, StakeExtraOf, CoinsOf, IdOk;
    assert Look(entries, db, id) == See(u, id, {});
    if id in u {
      assert EntryWellFormed(id, u[id]);
    }
    if entries[id].Some? && entries[id].value.modified {
      CoinsEntry(curve, id, entries[id].value);
      if !entries[id].value.IsFullySpent() {
        LoadedSame(curve, id, entries[id].value);
      }
    }
  }

  lemma AllReadable(curve: Curve, db: Store)
    requires StoreOk(curve, db)
    ensures forall id :: id in db ==> Fetch(db, id).Some?
  {
    hide UtxoCodec.DecodeEntry, EntryOk, Coins;
  }

  /** An entry that is to be written has a stored form. */
  lemma WriteOk(curve: Curve, entries: Entries, db: Store, u: Utxos, id: TxId)
    requires Stands(curve, entries, db, u, {}) && WellFormed(u)
    requires id in entries && entries[id].Some? && !entries[id].value.IsFullySpent()
    ensures UtxoCodec.Storable(entries[id].value)
  {
    hide Coins, StakeExtraOf, CoinsOf, UtxoCodec.Storable, EntryOk, Amounts.Compressed, Fetch;
    var e := entries[id].value;
    CoinsEntry(curve, id, e);
    assert Look(entries, db, id) == See(u, id, {});
    assert EntryWellFormed(id, u[id]);
    StorableEntry(curve, id, e);
  }

  lemma AllWritten(curve: Curve, entries: Entries, db: Store, after: Store, u: Utxos)
    requires StoreOk(curve, db) && Stands(curve, entries, db, u, {}) && WellFormed(u)
    requires forall id :: Fetch(after, id) == if id in entries then Written(curve, entries, db, id) else Fetch(db, id)
    requires forall id :: id in after ==> Fetch(after, id).Some?
    ensures Holds(curve, after, u)
  {
    hide EntryOk, AbsEntry, Coins, Written, Get, StakeExtraOf, WellFormed, StoredEntryOk, UtxoCodec.DecodeEntry;
    forall id
      ensures AbsEntry(id, Fetch(after, id)) == Get(u, id)
      ensures id in after ==> StoredEntryOk(curve, id, Fetch(after, id).value)
    {
      if id in entries {
        WrittenLook(curve, entries, db, u, id);
        assert Fetch(after, id) == Written(curve, entries, db, id);
      } else {
        assert Look(entries, db, id) == See(u, id, {});
        assert Fetch(after, id) == Fetch(db, id);
      }
    }
  }

  lemma Committed(curve: Curve, before: Entries, entries: Entries, db: Store, after: Store, u: Utxos)
    requires Stands(curve, before, db, u, {}) && Holds(curve, after, u)
    requires forall id :: id in entries <==>
      id in before && !(before[id].None? || (before[id].value.modified && before[id].value.IsFullySpent()))
    requires forall id :: id in entries ==> entries[id] == Some(before[id].value.(modified := false))
    ensures Clean(entries) && Stands(curve, entries, after, u, {})
  {
    hide EntryOk, Coins, AbsEntry, StoreOk;
    forall id
      ensures Look(entries, after, id) == Get(u, id)
      ensures id in entries ==> EntryOk(curve, id, entries[id].value) && Coins(id, entries[id].value) != map[]
      ensures id in entries ==> AbsEntry(id, entries[id]) == AbsEntry(id, Fetch(after, id))
    {
      assert Look(before, db, id) == See(u, id, {}) && AbsEntry(id, Fetch(after, id)) == Get(u, id);
      if id in entries {
        CommittedEntry(curve, id, before[id].value);
      }
    }
  }

  lemma CommittedEntry(curve: Curve, id: TxId, e: UtxoEntry)
    requires EntryOk(curve, id, e) && (e.modified || Coins(id, e) != map[])
    ensures var c := e.(modified := false);
            EntryOk(curve, id, c) && AbsEntry(id, Some(c)) == AbsEntry(id, Some(e))
            && (!(e.modified && e.IsFullySpent()) ==> Coins(id, c) != map[])
  {
    hide StakeExtraOf, CoinsOf, IdOk;
    CoinsEntry(curve, id, e);
    assert Coins(id, e.(modified := false)) == Coins(id, e);
  }

  /** Connecting a block on a view and disconnecting it again with the collected journal, nothing being
      stored between, makes every transaction look as it did before. */
  method UndoOnView(view: UtxoViewpoint, db: Store, n: BlockNode, parentStxos: seq<SpentTxOut>)
    requires RecoversKeys(view.curve) && ValidChain(n) && ValidBlock(n) && StoreOk(view.curve, db)
    requires Stands(view.curve, view.entries, db, UtxosAt(n.parent.value), {}) && BareTickets(view.entries, n) == {}
    requires !n.block.approvesParent ==>
      JournalOk(view.curve, n.parent.value, parentStxos) && KeptFor(view.entries, n.parent.value)
    modifies view
    ensures Stands(view.curve, view.entries, db, UtxosAt(n.parent.value), {})
    ensures forall id :: Look(view.entries, db, id) == Look(old(view.entries), db, id)
  {
    hide ValidChain, Valid, Fresh, RecoversKeys, UtxosAt, Base, Adequate, AbsEntry, EntryOk, Get, Kept, BareTickets;
    ghost var before := view.entries;
    var stxos := view.ConnectBlock(db, n, parentStxos);
    view.DisconnectBlock(db, n, stxos);
    SameLook(view.curve, before, view.entries, db, UtxosAt(n.parent.value));
  }

  lemma SameLook(curve: Curve, a: Entries, b: Entries, db: Store, u: Utxos)
    requires Stands(curve, a, db, u, {}) && Stands(curve, b, db, u, {})
    ensures forall id :: Look(a, db, id) == Look(b, db, id)
  {
    hide EntryOk, Look, AbsEntry, Get;
    forall id ensures Look(a, db, id) == Look(b, db, id) {
      assert Look(a, db, id) == See(u, id, {});
    }
  }

  /** A new view stands for what is stored. */
  lemma FreshView(curve: Curve, db: Store, u: Utxos)
    requires Holds(curve, db, u)
    ensures Stands(curve, map[], db, u, {}) && StoreOk(curve, db) && Clean(map[])
    ensures forall id :: !IsResidue(map[], id) && !HasBare(map[], id)
  {
    hide AbsEntry, Get;
  }

  /** Connecting a block to the stored set and disconnecting it again with its journal entry, each
      through a view of its own, gives back exactly the unspent outputs there were before. */
  method UndoRestores(curve: Curve, db: Store, n: BlockNode, parentStxos: seq<SpentTxOut>)
    returns (connected: Store, restored: Store)
    requires RecoversKeys(curve) && ValidChain(n) && ValidBlock(n) && Holds(curve, db, UtxosAt(n.parent.value))
    requires !n.block.approvesParent ==> JournalOk(curve, n.parent.value, parentStxos)
    ensures Holds(curve, connected, UtxosAt(n)) && Holds(curve, restored, UtxosAt(n.parent.value))
    ensures forall id :: AbsEntry(id, Fetch(restored, id)) == AbsEntry(id, Fetch(db, id))
  {
    hide Valid, Fresh, RecoversKeys, UtxosAt, Base, Adequate, AbsEntry, EntryOk, Get, Kept, WellFormed;
    var view := new UtxoViewpoint(curve);
    FreshView(curve, db, UtxosAt(n.parent.value));
    NothingToKeep(view.entries, n.parent.value);
    assert BareTickets(view.entries, n) == {};
    ChainWellFormed(n);
    ChainWellFormed(n.parent.value);
    var stxos := view.ConnectBlock(db, n, parentStxos);
    connected := view.PutUtxoView(db, UtxosAt(n));
    var undoView := new UtxoViewpoint(curve);
    FreshView(curve, connected, UtxosAt(n));
    NothingToKeep(undoView.entries, n);
    undoView.DisconnectBlock(connected, n, stxos);
    restored := undoView.PutUtxoView(connected, UtxosAt(n.parent.value));
  }
}
