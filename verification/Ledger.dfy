/**
  The append-only ledger: the row checks, the reversal trigger and the unique indexes that decide
  which rows may be appended. Amounts are in ten-thousandths of the currency unit.
 */
module Ledger {
  import opened Wrappers

  datatype Kind =
    Allocation | Reservation | Commitment | Actual | Release | Reversal | Transfer | Adjustment

  datatype Bucket = Allocated | Reserved | Committed | Spent

  datatype Source = Requisition | PurchaseOrder | Manual | TransferSource | Import | System

  datatype Entry = Entry(
    id: nat,
    org: string,
    bu: string,
    project: string,
    kind: Kind,
    bucket: Bucket,
    amount: int,
    currency: string,
    source: Source,
    sourceId: Option<string>,
    transferGroup: Option<string>,
    reverses: Option<nat>,
    releases: Option<nat>,
    converts: Option<nat>,
    reason: Option<string>,
    idempotencyKey: Option<string>)

  const AMOUNT_LIMIT: int := 1_000_000_000_000_000_000  // numeric(18,4)

  predicate TypeBucketOk(e: Entry) {
    || (e.kind in {Allocation, Transfer, Adjustment} && e.bucket == Allocated)
    || (e.kind == Reservation && e.bucket == Reserved)
    || (e.kind == Commitment && e.bucket == Committed)
    || (e.kind == Actual && e.bucket == Spent)
    || (e.kind == Release && e.bucket in {Reserved, Committed})
    || e.kind == Reversal
  }

  predicate SignOk(e: Entry) {
    || (e.kind in {Allocation, Reservation, Commitment, Actual} && e.amount > 0)
    || (e.kind == Release && e.amount < 0)
    || e.kind in {Transfer, Adjustment, Reversal}
  }

  predicate SourceLinkOk(e: Entry) {
    || (e.source in {Requisition, PurchaseOrder, TransferSource, Import} && e.sourceId.Some?)
    || (e.source == Manual && e.reason.Some?)
    || e.source == System
  }

  /** The checks on one row by itself. */
  predicate RowOk(e: Entry) {
    && e.amount != 0 && -AMOUNT_LIMIT < e.amount < AMOUNT_LIMIT
    && TypeBucketOk(e)
    && SignOk(e)
    && SourceLinkOk(e)
    && (e.kind == Transfer ==> e.transferGroup.Some?)
    && (e.kind == Reversal <==> e.reverses.Some?)
    && (e.kind == Adjustment ==> e.reason.Some?)
  }

  /** The check that came with the link from a release to what it releases. */
  predicate ReleaseLinkOk(e: Entry) { e.kind == Release <==> e.releases.Some? }

  ghost predicate Linked(ledger: seq<Entry>) {
    forall i :: 0 <= i < |ledger| ==> ReleaseLinkOk(ledger[i])
  }

  datatype Refusal =
    CheckViolation | DuplicateKey | MissingEntry | BadReversal | AlreadyReversed

  /** What the reversal trigger demands of the entry reversed. */
  predicate Negates(e: Entry, original: Entry) {
    && original.org == e.org
    && e.bucket == original.bucket
    && e.amount == -original.amount
    && e.currency == original.currency
    && e.project == original.project
    && e.bu == original.bu
  }

  predicate HasId(ledger: seq<Entry>, id: nat) {
    exists i :: 0 <= i < |ledger| && ledger[i].id == id
  }

  predicate TriggerOk(ledger: seq<Entry>, e: Entry) {
    e.kind == Reversal && e.reverses.Some? ==>
      && (exists i :: 0 <= i < |ledger| && ledger[i].id == e.reverses.value && Negates(e, ledger[i]))
      && forall i :: 0 <= i < |ledger| ==> ledger[i].reverses != e.reverses
  }

  predicate KeysOk(ledger: seq<Entry>, e: Entry) {
    forall i :: 0 <= i < |ledger| ==>
      && ledger[i].id != e.id
      && (e.idempotencyKey.Some? ==>
            ledger[i].org != e.org || ledger[i].idempotencyKey != e.idempotencyKey)
      && (e.reverses.Some? ==> ledger[i].reverses != e.reverses)
  }

  /** Foreign keys are checked once the row is in, so a link to the row itself passes. */
  predicate LinksOk(ledger: seq<Entry>, e: Entry) {
    && (e.reverses.Some? ==> e.reverses.value == e.id || HasId(ledger, e.reverses.value))
    && (e.releases.Some? ==> e.releases.value == e.id || HasId(ledger, e.releases.value))
    && (e.converts.Some? ==> e.converts.value == e.id || HasId(ledger, e.converts.value))
  }

  predicate Permitted(ledger: seq<Entry>, e: Entry) {
    TriggerOk(ledger, e) && RowOk(e) && KeysOk(ledger, e) && LinksOk(ledger, e)
  }

  /** Every ledger that permitted inserts can build, with or without the release link. */
  ghost predicate Reachable(ledger: seq<Entry>) {
    forall i :: 0 <= i < |ledger| ==> Permitted(ledger[..i], ledger[i])
  }

  lemma ReachableAppend(ledger: seq<Entry>, e: Entry)
    ensures Reachable(ledger + [e]) <==> Reachable(ledger) && Permitted(ledger, e)
  {
    var more := ledger + [e];
    assert more[..|ledger|] == ledger;
    forall i | 0 <= i < |ledger| ensures more[..i] == ledger[..i] && more[i] == ledger[i] {
    }
  }

  /** The table with its insert guard; updates, deletes and truncation are refused outright. */
  class Table {
    var entries: seq<Entry>

    constructor ()
      ensures entries == [] && Reachable(entries) && Linked(entries)
    {
      entries := [];
    }

    /** The trigger that runs before a reversal is inserted. */
    method BeforeReversal(e: Entry) returns (refusal: Option<Refusal>)
      requires Reachable(entries) && e.kind == Reversal && e.reverses.Some?
      ensures refusal == None <==> TriggerOk(entries, e)
      ensures refusal in {None, Some(BadReversal), Some(AlreadyReversed)}
      ensures refusal == Some(BadReversal) <==>
                forall i :: 0 <= i < |entries| ==>
                  entries[i].id != e.reverses.value || !Negates(e, entries[i])
    {
      var at := 0;
      while at < |entries| && entries[at].id != e.reverses.value
        invariant 0 <= at <= |entries|
        invariant forall i :: 0 <= i < at ==> entries[i].id != e.reverses.value
      {
        at := at + 1;
      }
      if at == |entries| || !Negates(e, entries[at]) {
        NotTheOriginal(entries, e, at);
        return Some(BadReversal);
      }
      if exists i :: 0 <= i < |entries| && entries[i].reverses == e.reverses {
        return Some(AlreadyReversed);
      }
      refusal := None;
    }

    /** One insert: the trigger, the checks, the keys and the links, in this order; the first that
        refuses the row is the one reported. */
    method Insert(e: Entry) returns (refusal: Option<Refusal>)
      requires Reachable(entries) && Linked(entries)
      modifies this
      ensures Reachable(entries) && Linked(entries)
      ensures refusal == None <==>
                Permitted(old(entries), e) && (e.kind == Release <==> e.releases.Some?)
      ensures entries == if refusal == None then old(entries) + [e] else old(entries)
      ensures match refusal
              case None => true
              case Some(BadReversal) => !TriggerOk(old(entries), e)
              case Some(AlreadyReversed) => !TriggerOk(old(entries), e)
              case Some(CheckViolation) =>
                TriggerOk(old(entries), e) && !(RowOk(e) && (e.kind == Release <==> e.releases.Some?))
              case Some(DuplicateKey) =>
                TriggerOk(old(entries), e) && RowOk(e) && !KeysOk(old(entries), e)
              case Some(MissingEntry) =>
                TriggerOk(old(entries), e) && RowOk(e) && KeysOk(old(entries), e)
                && !LinksOk(old(entries), e)
    {
      if e.kind == Reversal && e.reverses.Some? {
        refusal := BeforeReversal(e);
        if refusal.Some? { return; }
      }
      if !RowOk(e) || !ReleaseLinkOk(e) { return Some(CheckViolation); }
      if !KeysOk(entries, e) { return Some(DuplicateKey); }
      if !LinksOk(entries, e) { return Some(MissingEntry); }
      ReachableAppend(entries, e);
      entries := entries + [e];
      refusal := None;
    }
  }

  /** Identifiers are unique, so the first entry found is the only candidate. */
  lemma NotTheOriginal(ledger: seq<Entry>, e: Entry, at: nat)
    requires Reachable(ledger) && e.kind == Reversal && e.reverses.Some? && at <= |ledger|
    requires forall i :: 0 <= i < at ==> ledger[i].id != e.reverses.value
    requires at < |ledger| ==> ledger[at].id == e.reverses.value && !Negates(e, ledger[at])
    ensures !TriggerOk(ledger, e)
    ensures forall i :: 0 <= i < |ledger| ==>
              ledger[i].id != e.reverses.value || !Negates(e, ledger[i])
  {
    forall i | 0 <= i < |ledger| && ledger[i].id == e.reverses.value ensures !Negates(e, ledger[i]) {
      if i != at { UniqueIds(ledger, at, i); }
    }
  }

  lemma UniqueIds(ledger: seq<Entry>, i: nat, j: nat)
    requires Reachable(ledger) && i < |ledger| && j < |ledger| && i != j
    ensures ledger[i].id != ledger[j].id
  {
    var a, b := if i < j then i else j, if i < j then j else i;
    assert Permitted(ledger[..b], ledger[b]);
    assert ledger[..b][a] == ledger[a];
  }

  /** A reversal comes after the one entry it reverses, negates it, and is its only reversal. */
  lemma ReversalLink(ledger: seq<Entry>, k: nat) returns (t: nat)
    requires Reachable(ledger) && k < |ledger| && ledger[k].reverses.Some?
    ensures t < k && ledger[k].reverses == Some(ledger[t].id) && Negates(ledger[k], ledger[t])
    ensures forall j :: 0 <= j < |ledger| && j != k ==> ledger[j].reverses != ledger[k].reverses
  {
    assert Permitted(ledger[..k], ledger[k]);
    t :| 0 <= t < k && ledger[..k][t].id == ledger[k].reverses.value
         && Negates(ledger[k], ledger[..k][t]);
    forall j | 0 <= j < |ledger| && j != k ensures ledger[j].reverses != ledger[k].reverses {
      if j < k {
        assert ledger[..k][j] == ledger[j];
      } else {
        assert Permitted(ledger[..j], ledger[j]);
        assert ledger[..j][k] == ledger[k];
      }
    }
  }
}
