/**
  What the insert guard admits, as a property of the whole ledger: the ledgers that permitted inserts
  can build are exactly those whose rows, keys and links are in order.
 */
module LedgerRules {
  import opened Wrappers
  import opened Ledger

  /** What a row of each kind may hold. */
  predicate RowFits(e: Entry) {
    && e.amount != 0
    && -1_000_000_000_000_000_000 < e.amount < 1_000_000_000_000_000_000
    && (match e.kind
        case Allocation => e.bucket == Allocated && e.amount > 0 && e.reverses == None
        case Reservation => e.bucket == Reserved && e.amount > 0 && e.reverses == None
        case Commitment => e.bucket == Committed && e.amount > 0 && e.reverses == None
        case Actual => e.bucket == Spent && e.amount > 0 && e.reverses == None
        case Release =>
          (e.bucket == Reserved || e.bucket == Committed) && e.amount < 0 && e.reverses == None
        case Transfer => e.bucket == Allocated && e.transferGroup.Some? && e.reverses == None
        case Adjustment => e.bucket == Allocated && e.reason.Some? && e.reverses == None
        case Reversal => e.reverses.Some?)
    && match e.source
       case Manual => e.reason.Some?
       case System => true
       case _ => e.sourceId.Some?
  }

  /** Two rows that may be in one ledger. */
  predicate Apart(a: Entry, b: Entry) {
    && a.id != b.id
    && !(a.org == b.org && a.idempotencyKey.Some? && a.idempotencyKey == b.idempotencyKey)
    && !(a.reverses.Some? && a.reverses == b.reverses)
  }

  /** The row negates an earlier one: same organization, unit, project, bucket and currency, and the
      opposite amount. */
  predicate Undoes(e: Entry, original: Entry) {
    && e.reverses == Some(original.id) && e.amount + original.amount == 0
    && e.org == original.org && e.bu == original.bu && e.project == original.project
    && e.bucket == original.bucket && e.currency == original.currency
  }

  /** The link is to a row up to the `i`th. */
  predicate Resolves(ledger: seq<Entry>, i: nat, link: Option<nat>)
    requires i < |ledger|
  {
    link.Some? ==> exists j :: 0 <= j <= i && ledger[j].id == link.value
  }

  predicate InOrder(ledger: seq<Entry>, i: nat)
    requires i < |ledger|
  {
    && RowFits(ledger[i])
    && (forall j :: 0 <= j < i ==> Apart(ledger[j], ledger[i]))
    && (ledger[i].reverses.Some? ==> exists j :: 0 <= j < i && Undoes(ledger[i], ledger[j]))
    && Resolves(ledger, i, ledger[i].releases)
    && Resolves(ledger, i, ledger[i].converts)
  }

  lemma RowExact(e: Entry)
    ensures RowOk(e) <==> RowFits(e)
  {
  }

  lemma ResolvesExact(ledger: seq<Entry>, i: nat, link: Option<nat>)
    requires i < |ledger|
    ensures Resolves(ledger, i, link) <==>
              (link.Some? ==> link.value == ledger[i].id || HasId(ledger[..i], link.value))
  {
    if link.Some? {
      if HasId(ledger[..i], link.value) {
        var j :| 0 <= j < i && ledger[..i][j].id == link.value;
        assert ledger[j].id == link.value;
      }
      if j :| 0 <= j <= i && ledger[j].id == link.value {
        assert j < i ==> ledger[..i][j].id == link.value;
      }
    }
  }

  lemma KeysExact(ledger: seq<Entry>, i: nat)
    requires i < |ledger|
    ensures KeysOk(ledger[..i], ledger[i]) <==> forall j :: 0 <= j < i ==> Apart(ledger[j], ledger[i])
  {
    assert forall j :: 0 <= j < i ==> ledger[..i][j] == ledger[j];
    if KeysOk(ledger[..i], ledger[i]) {
      forall j | 0 <= j < i ensures Apart(ledger[j], ledger[i]) {
        assert ledger[..i][j].id != ledger[i].id;
      }
    }
  }

  lemma TriggerExact(ledger: seq<Entry>, i: nat)
    requires i < |ledger| && RowFits(ledger[i])
    requires forall j :: 0 <= j < i ==> Apart(ledger[j], ledger[i])
    ensures TriggerOk(ledger[..i], ledger[i]) <==>
              (ledger[i].reverses.Some? ==> exists j :: 0 <= j < i && Undoes(ledger[i], ledger[j]))
  {
    var before, e := ledger[..i], ledger[i];
    assert forall j :: 0 <= j < i ==> before[j] == ledger[j];
    if e.reverses.Some? {
      if TriggerOk(before, e) {
        var j :| 0 <= j < |before| && before[j].id == e.reverses.value && Negates(e, before[j]);
        assert Undoes(e, ledger[j]);
      }
      if j :| 0 <= j < i && Undoes(e, ledger[j]) {
        assert before[j].id == e.reverses.value && Negates(e, before[j]);
        forall k | 0 <= k < |before| ensures before[k].reverses != e.reverses {
          assert Apart(ledger[k], ledger[i]);
        }
      }
    }
  }

  lemma PermittedExact(ledger: seq<Entry>, i: nat)
    requires i < |ledger|
    ensures Permitted(ledger[..i], ledger[i]) <==> InOrder(ledger, i)
  {
    RowExact(ledger[i]);
    KeysExact(ledger, i);
    ResolvesExact(ledger, i, ledger[i].reverses);
    ResolvesExact(ledger, i, ledger[i].releases);
    ResolvesExact(ledger, i, ledger[i].converts);
    if RowFits(ledger[i]) && KeysOk(ledger[..i], ledger[i]) {
      TriggerExact(ledger, i);
      if j :| 0 <= j < i && Undoes(ledger[i], ledger[j]) {
        assert ledger[j].id == ledger[i].reverses.value;
      }
    }
  }

  /** A ledger can be built by permitted inserts if and only if every row fits its kind; no two rows
      share an identifier, an organization's idempotency key or a reversed entry; every reversal
      negates an earlier row; and no other link is to a later row or to none. */
  lemma ReachableExact(ledger: seq<Entry>)
    ensures Reachable(ledger) <==>
              && (forall i :: 0 <= i < |ledger| ==> RowFits(ledger[i]))
              && (forall i, j :: 0 <= i < j < |ledger| ==> Apart(ledger[i], ledger[j]))
              && (forall i :: 0 <= i < |ledger| && ledger[i].reverses.Some? ==>
                    exists j :: 0 <= j < i && Undoes(ledger[i], ledger[j]))
              && (forall i :: 0 <= i < |ledger| ==>
                    Resolves(ledger, i, ledger[i].releases) && Resolves(ledger, i, ledger[i].converts))
  {
    forall i | 0 <= i < |ledger|
      ensures Permitted(ledger[..i], ledger[i]) <==> InOrder(ledger, i)
    {
      PermittedExact(ledger, i);
    }
    if forall i :: 0 <= i < |ledger| ==> InOrder(ledger, i) {
      forall i, j | 0 <= i < j < |ledger| ensures Apart(ledger[i], ledger[j]) {
        assert InOrder(ledger, j);
      }
    }
  }
}
