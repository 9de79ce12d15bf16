/** The two payment-status classifiers: the master ledger's `getDynamicStatus`
    and the dashboard's detail-row status, and the ledger's balance colouring. */
module Status {
  import opened Records

  /** The master ledger's statuses. */
  datatype LedgerStatus = Paid | PartiallyPaid | Unpaid | NoFeesDue

  /** `getDynamicStatus`: with nothing (more than the tolerance) to pay, a student
      who paid something is `paid`; otherwise paying at least the fees is `paid`,
      paying part of them `partially_paid`, and paying nothing `unpaid`. */
  function LedgerStatusOf(fees: real, paid: real): (st: LedgerStatus)
    ensures fees <= Epsilon ==> (st == Paid <==> paid > 0.0) && (st == NoFeesDue <==> paid <= 0.0)
    ensures fees > Epsilon ==> st != NoFeesDue
    ensures fees > Epsilon ==> (st == Paid <==> paid >= fees)
    ensures fees > Epsilon ==> (st == PartiallyPaid <==> 0.0 < paid < fees)
    ensures fees > Epsilon ==> (st == Unpaid <==> paid <= 0.0)
  {
    if fees <= Epsilon then (if paid > 0.0 then Paid else NoFeesDue)
    else if paid >= fees then Paid
    else if paid > 0.0 && paid < fees then PartiallyPaid
    else Unpaid
  }

  /** The status code the ledger shows and exports. */
  function LedgerStatusCode(st: LedgerStatus): string {
    match st
    case Paid => "paid"
    case PartiallyPaid => "partially_paid"
    case Unpaid => "unpaid"
    case NoFeesDue => "no_fees_due"
  }

  /** The dashboard's detail-row statuses. */
  datatype DetailStatus = NoDues | DetailPaid | Partial | DetailUnpaid

  /** The dashboard's status chain: an assigned total within the tolerance is
      "No Dues" whatever was paid; otherwise "Paid", "Partial" or "Unpaid". */
  function DetailStatusOf(total: real, paid: real): (st: DetailStatus)
    ensures st == NoDues <==> total <= Epsilon
    ensures st == DetailPaid <==> total > Epsilon && paid >= total
    ensures st == Partial <==> total > Epsilon && 0.0 < paid < total
    ensures st == DetailUnpaid <==> total > Epsilon && paid <= 0.0
  {
    if total <= Epsilon then NoDues
    else if paid >= total then DetailPaid
    else if paid > 0.0 then Partial
    else DetailUnpaid
  }

  /** The label of a detail status. */
  function DetailLabel(st: DetailStatus): string {
    match st
    case NoDues => "No Dues"
    case DetailPaid => "Paid"
    case Partial => "Partial"
    case DetailUnpaid => "Unpaid"
  }

  /** The ledger status that corresponds to a detail status. */
  function AsLedgerStatus(st: DetailStatus): LedgerStatus {
    match st
    case NoDues => NoFeesDue
    case DetailPaid => Paid
    case Partial => PartiallyPaid
    case DetailUnpaid => Unpaid
  }

  /** The two classifiers agree on every input except one: nothing due and
      something paid, which the ledger calls paid and the dashboard "No Dues". */
  lemma ClassifiersAgreeExceptPrepaid(fees: real, paid: real)
    ensures (AsLedgerStatus(DetailStatusOf(fees, paid)) == LedgerStatusOf(fees, paid))
            <==> !(fees <= Epsilon && paid > 0.0)
    ensures fees <= Epsilon && paid > 0.0 ==>
              LedgerStatusOf(fees, paid) == Paid && DetailStatusOf(fees, paid) == NoDues
  {
  }

  /** How the ledger colours a balance (fees minus paid). */
  datatype Tone = Outstanding | Advance | Settled

  /** Red when more than the tolerance is owed, "(Adv)" when more than the
      tolerance has been paid in advance, plain otherwise. */
  function BalanceTone(balance: real): (t: Tone)
    ensures t == Outstanding <==> balance > Epsilon
    ensures t == Advance <==> balance < -Epsilon
  {
    if balance > Epsilon then Outstanding else if balance < -Epsilon then Advance else Settled
  }

  /** A balance shown as outstanding never belongs to a `paid` student, and a
      student paid in advance on non-negative fees is `paid`. */
  lemma ToneMatchesStatus(fees: real, paid: real)
    ensures BalanceTone(fees - paid) == Outstanding ==> LedgerStatusOf(fees, paid) != Paid
    ensures BalanceTone(fees - paid) == Advance && fees >= 0.0 ==> LedgerStatusOf(fees, paid) == Paid
    ensures LedgerStatusOf(fees, paid) == PartiallyPaid ==> BalanceTone(fees - paid) != Advance
  {
  }
}
