/**
  The two pure checks a caller runs before mutating an offer.
 */
module Guards {
  import opened OfferTypes

  /** The message of the generic error for an empty or inverted amount range
      (its wording reads backwards; the check itself is min < max). */
  const MinMaxMessage: string := "Min amount must be greater than Max amount."

  /** Succeeds exactly when the caller is the owner; otherwise the error names
      both parties, each in its own field. */
  function AssertOwnership(caller: Addr, owner: Addr): (r: Result<()>)
    ensures r.Ok? <==> caller == owner
    ensures r.Err? ==> r.error.Unauthorized? && r.error.owner == owner && r.error.caller == caller
  {
    if caller == owner then Ok(()) else Err(Unauthorized(owner, caller))
  }

  /** Succeeds exactly when min is strictly below max; otherwise a generic error. */
  function AssertMinGMax(min: Uint64, max: Uint64): (r: Result<()>)
    ensures r.Ok? <==> min < max
    ensures r.Err? ==> r.error == Std(GenericErr(MinMaxMessage))
  {
    if min >= max then Err(Std(GenericErr(MinMaxMessage))) else Ok(())
  }

  /** Equal bounds are an empty range and are rejected. */
  lemma EqualBoundsRejected(amount: Uint64)
    ensures AssertMinGMax(amount, amount) == Err(Std(GenericErr(MinMaxMessage)))
  {
  }
}
