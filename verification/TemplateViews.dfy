/** Views for block templates that build on the parent of the tip: the tip is disconnected and the
    template connected on one view that is never stored (blockchain/headercmt.go,
    blockchain/validate.go). */
module TemplateViews {
  import opened Wrappers
  import opened Transactions
  import opened ScriptCodec
  import opened SpendJournal
  import opened UtxoState
  import opened UtxoViews
  import opened BlockNodes

  /** The tickets of both blocks that are unspent after the template and that the tip does not spend
      itself. */
  ghost predicate IsSharedTicket(tip: BlockNode, template: BlockNode, id: TxId) {
    && id.txType == SStx && id in Ids(tip.block.stxs) && id in Ids(template.block.stxs)
    && id in UtxosAt(template) && id !in InputIds(tip.block)
  }

  ghost function SharedTickets(tip: BlockNode, template: BlockNode): set<TxId> {
    set id | id in Ids(template.block.stxs) && IsSharedTicket(tip, template, id)
  }

  /** A template goes with the parent of the tip. */
  predicate BesideTip(tip: BlockNode, template: BlockNode) {
    tip.parent.Some? && template.parent == tip.parent
  }

  /** Anything but a template on the parent of the tip is refused.  Disconnecting the tip leaves empty
      entries without ticket data for its tickets, and connecting does not fill the data in.  So the view
      stands for the template exactly when no ticket that both blocks buy is unspent after the template
      and not spent by the tip itself. */
  method FetchUtxoViewParentTemplate(curve: Curve, db: Store, tip: BlockNode, template: BlockNode,
                                     tipStxos: seq<SpentTxOut>, parentStxos: seq<SpentTxOut>)
    returns (r: Option<UtxoViewpoint>)
    requires RecoversKeys(curve) && ValidChain(tip) && ValidChain(template) && template.parent.Some?
    requires tip.parent.Some? && template.parent.value.hash == tip.parent.value.hash ==> template.parent == tip.parent
    requires tip.parent.Some? ==> Holds(curve, db, UtxosAt(tip)) && JournalOk(curve, tip, tipStxos)
    requires BesideTip(tip, template) && !template.block.approvesParent ==>
      JournalOk(curve, tip.parent.value, parentStxos) && NewSinceParent(tip)
    ensures r.Some? <==> BesideTip(tip, template)
    ensures r.Some? ==> IsTemplateView(curve, db, tip, template, r.value) && fresh(r.value)
  {
    hide Valid, Fresh, RecoversKeys, UtxosAt, Base, Adequate, Kept, Stands, WellFormed, HasBare, IsResidue, InputIds,
         BareTickets;
    if tip.parent.None? || template.parent.value.hash != tip.parent.value.hash {
      return None;
    }
    var view := TemplateView(curve, db, tip, template, tipStxos, parentStxos);
    r := Some(view);
  }

  ghost predicate IsTemplateView(curve: Curve, db: Store, tip: BlockNode, template: BlockNode, view: UtxoViewpoint)
    reads view
  {
    && view.curve == curve && view.bestHash == template.hash
    && (Stands(curve, view.entries, db, UtxosAt(template), {}) <==> forall id :: !IsSharedTicket(tip, template, id))
    && Stands(curve, view.entries, db, UtxosAt(template), {}, SharedTickets(tip, template))
  }

  method TemplateView(curve: Curve, db: Store, tip: BlockNode, template: BlockNode,
                      tipStxos: seq<SpentTxOut>, parentStxos: seq<SpentTxOut>) returns (view: UtxoViewpoint)
    requires RecoversKeys(curve) && ValidChain(tip) && ValidChain(template)
    requires BesideTip(tip, template)
    requires Holds(curve, db, UtxosAt(tip)) && JournalOk(curve, tip, tipStxos)
    requires !template.block.approvesParent ==> JournalOk(curve, tip.parent.value, parentStxos) && NewSinceParent(tip)
    ensures fresh(view) && view.curve == curve && view.bestHash == template.hash
    ensures Stands(curve, view.entries, db, UtxosAt(template), {}) <==> forall id :: !IsSharedTicket(tip, template, id)
    ensures Stands(curve, view.entries, db, UtxosAt(template), {}, SharedTickets(tip, template))
  {
    hide Valid, Fresh, RecoversKeys, UtxosAt, Base, Adequate, Kept, Stands, WellFormed, HasBare, IsResidue, InputIds,
         BareTickets;
    view := new UtxoViewpoint(curve);
    FreshView(curve, db, UtxosAt(tip));
    NothingToKeep(view.entries, tip);
    NothingKeptSince(view.entries, tip);
    view.DisconnectBlock(db, tip, tipStxos);
    ghost var undone := view.entries;
    var none := view.ConnectBlock(db, template, parentStxos, false);
    ChainWellFormed(template);
    SharedAreBare(undone, tip, template);
    BareOnlyUnspent(curve, view.entries, db, template, BareTickets(undone, template),
                    SharedTickets(tip, template));
  }

  lemma NothingKeptSince(entries: Entries, n: BlockNode)
    requires n.parent.Some? && forall id :: !IsResidue(entries, id)
    ensures KeptSinceParent(entries, n)
  {
    hide IsResidue, LastHeader;
  }

  lemma SharedAreBare(undone: Entries, tip: BlockNode, template: BlockNode)
    requires BareAfterUndo(map[], undone, tip) && WellFormed(UtxosAt(template))
    ensures forall id :: id in BareTickets(undone, template) && id in UtxosAt(template) <==>
      IsSharedTicket(tip, template, id)
  {
    hide InputIds, CoinsOf, UtxosAt;
    forall id ensures id in BareTickets(undone, template) && id in UtxosAt(template) <==>
      IsSharedTicket(tip, template, id) {
      if id in UtxosAt(template) {
        SomeCoins(UtxosAt(template), id);
      }
    }
  }

  lemma SomeCoins(u: Utxos, id: TxId)
    requires WellFormed(u) && id in u
    ensures CoinsOf(id) != map[]
  {
    hide CoinsOf;
    assert EntryWellFormed(id, u[id]);
    var i :| i in u[id].coins;
  }

  /** Bare tickets that are not there make no difference. */
  lemma BareOnlyUnspent(curve: Curve, entries: Entries, db: Store, n: BlockNode, bare: set<TxId>, shared: set<TxId>)
    requires Stands(curve, entries, db, UtxosAt(n), {}, bare)
    requires forall id :: id in shared <==> id in bare && id in UtxosAt(n)
    ensures Stands(curve, entries, db, UtxosAt(n), {}, shared)
  {
    hide UtxosAt, EntryOk, AbsEntry, Look;
    forall id ensures See(UtxosAt(n), id, shared) == See(UtxosAt(n), id, bare) {}
  }

  /** A tip and a template that buy the same ticket with the same output: the view has the ticket
      without its ticket data and does not stand for the template. */
  method SharedTicketExample(curve: Curve, db: Store, tip: BlockNode, template: BlockNode, ticket: Tx,
                             tipStxos: seq<SpentTxOut>)
    returns (view: UtxoViewpoint)
    requires RecoversKeys(curve) && IsTicketBlock(tip, ticket) && IsTicketBlock(template, ticket)
      && template.parent == tip.parent
    requires ValidChain(tip.parent.value)
    requires Holds(curve, db, UtxosAt(tip)) && JournalOk(curve, tip, tipStxos)
    ensures !Stands(curve, view.entries, db, UtxosAt(template), {})
  {
    hide Valid, Fresh, RecoversKeys, UtxosAt, Base, Adequate, Kept, Stands, ValidEvent;
    TicketBlockIsValid(tip, ticket);
    TicketBlockIsValid(template, ticket);
    TicketIsShared(tip, template, ticket);
    view := TemplateView(curve, db, tip, template, tipStxos, []);
  }

  lemma TicketIsShared(tip: BlockNode, template: BlockNode, ticket: Tx)
    requires IsTicketBlock(tip, ticket) && IsTicketBlock(template, ticket)
    requires ticket.id in UtxosAt(template)
    ensures IsSharedTicket(tip, template, ticket.id)
  {
    hide UtxosAt, Base, IdOk, CoinsOf;
    assert tip.block.stxs[0] == ticket && template.block.stxs[0] == ticket;
    assert InputsOf(tip.block.txs[0]) == [];
  }
}
