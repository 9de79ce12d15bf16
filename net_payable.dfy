/** The four fallback chains by which the pages compute the net payable amount
    of one fee line, and how they relate. */
module NetPayable {
  import opened Wrappers
  import opened Records

  /** Master ledger: `(assigned ?? default ?? 0) - (discount || 0)`; the stored
      net payable amount plays no part and the result is never clamped. */
  function LedgerNet(l: FeeLine): real {
    Nullish(l.assignedAmount, Nullish(DefaultOf(l.feeType), 0.0)) - OrElse(l.discount, 0.0)
  }

  /** Record payment and dashboard: `net ?? assigned ?? (default || 0)`; the
      discount is not subtracted when the stored net is missing. */
  function RecordNet(l: FeeLine): real {
    Nullish(l.netPayableAmount, Nullish(l.assignedAmount, OrElse(DefaultOf(l.feeType), 0.0)))
  }

  /** Fee types (recomputing `total_fees`):
      `net ?? (assigned ?? default ?? 0) - (discount ?? 0)`. */
  function RecalcNet(l: FeeLine): real {
    Nullish(l.netPayableAmount,
            Nullish(l.assignedAmount, Nullish(DefaultOf(l.feeType), 0.0)) - Nullish(l.discount, 0.0))
  }

  /** The assigned amount the registration page shows:
      `assigned || default || 0`, so a stored 0 falls through to the default. */
  function RegistrationAssigned(l: FeeLine): real {
    OrElse(l.assignedAmount, OrElse(DefaultOf(l.feeType), 0.0))
  }

  /** Student registration: `net ?? (assigned || default || 0) - (discount || 0)`. */
  function RegistrationNet(l: FeeLine): real {
    Nullish(l.netPayableAmount, RegistrationAssigned(l) - OrElse(l.discount, 0.0))
  }

  /** The ledger ignores the stored net payable amount: changing it leaves the
      ledger's net unchanged, and it is `assigned - discount` with the default
      filling in a missing assigned amount. */
  lemma LedgerIgnoresStoredNet(l: FeeLine, stored: Option<real>)
    ensures LedgerNet(l.(netPayableAmount := stored)) == LedgerNet(l)
    ensures l.assignedAmount.Some? ==> LedgerNet(l) == l.assignedAmount.value - Nullish(l.discount, 0.0)
    ensures l.assignedAmount.None? && l.feeType.Some? ==>
              LedgerNet(l) == l.feeType.value.defaultAmount - Nullish(l.discount, 0.0)
  {
  }

  /** The recomputation agrees with the ledger exactly when no net is stored or
      the stored net equals the ledger's `assigned - discount`. */
  lemma RecalcVersusLedger(l: FeeLine)
    ensures RecalcNet(l) == LedgerNet(l) <==>
              l.netPayableAmount.None? || l.netPayableAmount.value == LedgerNet(l)
  {
  }

  /** Record payment agrees with the recomputation exactly when a net is stored
      or the discount is 0: on the fallback path it omits the discount. */
  lemma RecordVersusRecalc(l: FeeLine)
    ensures l.netPayableAmount.None? ==> RecordNet(l) == RecalcNet(l) + Nullish(l.discount, 0.0)
    ensures RecordNet(l) == RecalcNet(l) <==>
              l.netPayableAmount.Some? || Nullish(l.discount, 0.0) == 0.0
  {
  }

  /** Registration agrees with the recomputation exactly when a net is stored or
      it is not the case that a stored assigned amount of 0 lets a non-zero
      default through. */
  lemma RegistrationVersusRecalc(l: FeeLine)
    ensures RegistrationNet(l) == RecalcNet(l) <==>
              l.netPayableAmount.Some?
              || !(l.assignedAmount == Some(0.0) && Nullish(DefaultOf(l.feeType), 0.0) != 0.0)
  {
  }

  /** A line with a stored assigned amount of 0, a default of 500 and no stored
      net: registration shows 500 where the other pages count 0. */
  lemma RegistrationZeroFallsThrough()
    ensures var l := FeeLine("t", Some(0.0), None, None, None,
                             Some(FeeType("t", "Bus", 500.0, None, None, None)));
            RegistrationNet(l) == 500.0 && RecalcNet(l) == 0.0 && LedgerNet(l) == 0.0
  {
  }
}
