/**
  Properties that relate several registry operations: the store/fetch round
  trip, the two-state lifecycle, and what `update` does and does not check.
 */
module RegistryProperties {
  import opened OfferTypes
  import opened Guards
  import opened OfferRegistry

  /** Fetching after a store returns the stored offer for its own id and the
      previous offer for every other stored id. */
  lemma StoreThenFetch(s: OfferStore, offer: Offer, id: Uint64)
    requires id == offer.id || OfferKey(id) in s
    ensures OfferKey(id) in Store(s, offer)
    ensures FetchById(Store(s, offer), id) == if id == offer.id then offer else FetchById(s, id)
  {
  }

  /** Storing twice under the same id keeps only the second offer: `store`
      is an overwrite, not an insert. */
  lemma StoreOverwrites(s: OfferStore, first: Offer, second: Offer)
    requires first.id == second.id
    ensures Store(Store(s, first), second) == Store(s, second)
  {
  }

  /** Loading the id of an offer just created gives back the model `create`
      returned: the offer as given, over the same store. */
  lemma CreateThenMayLoad(s: OfferStore, offer: Offer)
    ensures OfferKey(offer.id) in Create(s, offer).storage
    ensures MayLoad(Create(s, offer).storage, offer.id) == Create(s, offer)
  {
  }

  /** Every mutator keeps each offer under the key of its own id. */
  lemma MutatorsKeepWellFormed(m: OfferModel, msg: OfferMsg, offer: Offer)
    requires WellFormed(m.storage)
    ensures WellFormed(Create(m.storage, offer).storage)
    ensures WellFormed(Save(m).1)
    ensures WellFormed(Activate(m).model.storage)
    ensures WellFormed(Pause(m).model.storage)
    ensures WellFormed(Update(m, msg).storage)
  {
  }

  /** Pausing an active, persisted offer and activating it again restores
      both the offer and the store exactly. */
  lemma PauseThenActivate(m: OfferModel)
    requires m.offer.state == Active && Persisted(m)
    ensures Pause(m).result.Ok?
    ensures Activate(Pause(m).model) == Step(m, Ok(m.offer))
  {
  }

  /** The mirror case: activating a paused, persisted offer and pausing it
      again restores the offer and the store. */
  lemma ActivateThenPause(m: OfferModel)
    requires m.offer.state == Paused && Persisted(m)
    ensures Activate(m).result.Ok?
    ensures Pause(Activate(m).model) == Step(m, Ok(m.offer))
  {
  }

  /** No transition is idempotent: applying either one twice in a row always
      ends in an error on the second call, and that error writes nothing. */
  lemma RepeatedTransitionFails(m: OfferModel)
    ensures var first := Activate(m).model;
      Activate(first) == Step(first, Err(InvalidStateChange(Active, Active)))
    ensures var first := Pause(m).model;
      Pause(first) == Step(first, Err(InvalidStateChange(Paused, Paused)))
  {
  }

  /** Applying the same update twice is the same as applying it once. */
  lemma UpdateIdempotent(m: OfferModel, msg: OfferMsg)
    ensures Update(Update(m, msg), msg) == Update(m, msg)
  {
  }

  /** The registry relies on the caller's range guard: an update that passed
      it yields an offer with a valid range, and one that did not is still
      persisted, with the inverted range. */
  lemma UpdateBoundsFollowGuard(m: OfferModel, msg: OfferMsg)
    ensures AssertMinGMax(msg.min_amount, msg.max_amount).Ok? <==> ValidBounds(Update(m, msg).offer)
    ensures Persisted(Update(m, msg))
  {
  }
}
