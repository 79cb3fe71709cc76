/**
  The offer registry: offers kept in an ordered store under the 8-byte
  big-endian encoding of their id, the load/mutate/persist operations of
  `OfferModel`, and the two currency queries (a full scan and a
  cursor-paginated scan).

  Each operation that writes takes the store as an argument and returns the
  new store; storage and codec failures are not modelled.
 */
module OfferRegistry {
  import opened Bytes
  import opened SortedKeys
  import opened OfferTypes

  /** Offers under their storage keys, as the ordered store holds them. */
  type OfferStore = map<Bytes, Offer>

  /** An offer key is the id's `u64` big-endian bytes. */
  const KeyWidth: nat := 8

  lemma KeySpaceIsUint64()
    ensures Pow256(KeyWidth) == 0x1_0000_0000_0000_0000
  {
  }

  /** The storage key of an offer id. */
  function OfferKey(id: Uint64): (k: Bytes)
    ensures |k| == KeyWidth
    ensures FromBigEndian(k) == id
  {
    KeySpaceIsUint64();
    ToBigEndian(KeyWidth, id)
  }

  /** Keys compare as their ids compare, and distinct ids have distinct keys:
      an ascending scan of the store is an ascending walk over ids. */
  lemma OfferKeyOrder(a: Uint64, b: Uint64)
    ensures LexLess(OfferKey(a), OfferKey(b)) <==> a < b
    ensures OfferKey(a) == OfferKey(b) <==> a == b
  {
    KeySpaceIsUint64();
    EncodingPreservesOrder(KeyWidth, a, b);
    EncodingInjective(KeyWidth, a, b);
  }

  /** Every offer sits under the key of its own id. */
  predicate WellFormed(s: OfferStore) {
    forall k :: k in s ==> k == OfferKey(s[k].id)
  }

  /** s' agrees with s everywhere except possibly under the key of id. */
  ghost predicate SameExcept(s: OfferStore, s': OfferStore, id: Uint64) {
    forall k :: k != OfferKey(id) ==> (k in s' <==> k in s) && (k in s ==> s'[k] == s[k])
  }

  /** The id-ordering of a listing of offers: strictly ascending ids. */
  predicate IdsAscending(os: seq<Offer>) {
    forall i, j :: 0 <= i < j < |os| ==> os[i].id < os[j].id
  }

  /** `store`: write the offer under its key, overwriting whatever was there. */
  function Store(s: OfferStore, offer: Offer): (s': OfferStore)
    ensures OfferKey(offer.id) in s' && s'[OfferKey(offer.id)] == offer
    ensures SameExcept(s, s', offer.id)
    ensures WellFormed(s) ==> WellFormed(s')
  {
    s[OfferKey(offer.id) := offer]
  }

  /** `fetch` by id: the offer stored under the id's key. The source unwraps
      the lookup, so an absent id is a caller error. */
  function FetchById(s: OfferStore, id: Uint64): (o: Offer)
    requires OfferKey(id) in s
    ensures o in s.Values
    ensures WellFormed(s) ==> o.id == id
  {
    s[OfferKey(id)]
  }

  /** An offer bundled with the store it is persisted to. */
  datatype OfferModel = OfferModel(offer: Offer, storage: OfferStore)

  /** The model's offer is what the store holds under its key. */
  predicate Persisted(m: OfferModel) {
    OfferKey(m.offer.id) in m.storage && m.storage[OfferKey(m.offer.id)] == m.offer
  }

  /** `create`: persist the offer as given (no re-validation) and keep it. */
  function Create(s: OfferStore, offer: Offer): (m: OfferModel)
    ensures m.offer == offer
    ensures Persisted(m)
    ensures SameExcept(s, m.storage, offer.id)
  {
    OfferModel(offer, Store(s, offer))
  }

  /** `save`: persist the model's offer and hand it back with the new store. */
  function Save(m: OfferModel): (r: (Offer, OfferStore))
    ensures r.0 == m.offer
    ensures Persisted(OfferModel(r.0, r.1))
    ensures SameExcept(m.storage, r.1, m.offer.id)
    ensures Persisted(m) ==> r.1 == m.storage
  {
    (m.offer, Store(m.storage, m.offer))
  }

  /** `may_load`: fetch the offer by id and keep the store for later writes. */
  function MayLoad(s: OfferStore, id: Uint64): (m: OfferModel)
    requires OfferKey(id) in s
    ensures m.storage == s
    ensures m.offer in s.Values
    ensures WellFormed(s) ==> m.offer.id == id && Persisted(m)
  {
    OfferModel(FetchById(s, id), s)
  }

  /** The model after a transition, and what the transition returned. */
  datatype Step = Step(model: OfferModel, result: Result<Offer>)

  /** `activate`: Paused becomes Active and is persisted; from Active it is an
      error and nothing changes. */
  function Activate(m: OfferModel): (st: Step)
    ensures st.result.Ok? <==> m.offer.state == Paused
    ensures st.result.Ok? ==>
      && st.model.offer == m.offer.(state := Active)
      && st.result.value == st.model.offer
      && Persisted(st.model)
      && SameExcept(m.storage, st.model.storage, m.offer.id)
    ensures st.result.Err? ==>
      && st.result.error == InvalidStateChange(Active, Active)
      && st.model == m
  {
    match m.offer.state
    case Paused =>
      var offer := m.offer.(state := Active);
      Step(OfferModel(offer, Store(m.storage, offer)), Ok(offer))
    case Active =>
      Step(m, Err(InvalidStateChange(m.offer.state, Active)))
  }

  /** `pause`: Active becomes Paused and is persisted; from Paused it is an
      error and nothing changes. */
  function Pause(m: OfferModel): (st: Step)
    ensures st.result.Ok? <==> m.offer.state == Active
    ensures st.result.Ok? ==>
      && st.model.offer == m.offer.(state := Paused)
      && st.result.value == st.model.offer
      && Persisted(st.model)
      && SameExcept(m.storage, st.model.storage, m.offer.id)
    ensures st.result.Err? ==>
      && st.result.error == InvalidStateChange(Paused, Paused)
      && st.model == m
  {
    match m.offer.state
    case Active =>
      var offer := m.offer.(state := Paused);
      Step(OfferModel(offer, Store(m.storage, offer)), Ok(offer))
    case Paused =>
      Step(m, Err(InvalidStateChange(m.offer.state, Paused)))
  }

  /** `update`: overwrite type, currency and both amounts from the message,
      keep id, owner and state, and persist. The amounts widen from `u64` to
      `Uint128` unchanged; the range is not re-checked here. */
  function Update(m: OfferModel, msg: OfferMsg): (m': OfferModel)
    ensures m'.offer.offer_type == msg.offer_type
    ensures m'.offer.fiat_currency == msg.fiat_currency
    ensures m'.offer.min_amount == msg.min_amount
    ensures m'.offer.max_amount == msg.max_amount
    ensures m'.offer.id == m.offer.id
    ensures m'.offer.owner == m.offer.owner
    ensures m'.offer.state == m.offer.state
    ensures Persisted(m')
    ensures SameExcept(m.storage, m'.storage, m.offer.id)
  {
    var offer := m.offer.(
      offer_type := msg.offer_type,
      fiat_currency := msg.fiat_currency,
      min_amount := msg.min_amount,
      max_amount := msg.max_amount);
    OfferModel(offer, Store(m.storage, offer))
  }

  // Queries

  /** The offers under the given keys, in the keys' order. */
  function ValuesAt(s: OfferStore, ks: seq<Bytes>): (os: seq<Offer>)
    requires forall k :: k in ks ==> k in s
    ensures |os| == |ks|
    ensures forall i :: 0 <= i < |ks| ==> os[i] == s[ks[i]]
  {
    seq(|ks|, i requires 0 <= i < |ks| => s[ks[i]])
  }

  /** The offers of os in currency c, in their order in os. */
  function FilterCurrency(os: seq<Offer>, c: FiatCurrency): (r: seq<Offer>)
    ensures |r| <= |os|
    ensures forall o :: o in r <==> o in os && o.fiat_currency == c
    ensures IdsAscending(os) ==> IdsAscending(r)
  {
    if os == [] then []
    else
      var rest := FilterCurrency(os[1..], c);
      HeadBelowTail(os);
      if os[0].fiat_currency == c then
        ConsAscending(os[0], rest);
        [os[0]] + rest
      else rest
  }

  /** In an ascending listing the head precedes everything after it, and the
      tail is ascending too. */
  lemma HeadBelowTail(os: seq<Offer>)
    requires |os| > 0
    ensures IdsAscending(os) ==> IdsAscending(os[1..])
    ensures IdsAscending(os) ==> forall o :: o in os[1..] ==> os[0].id < o.id
  {
    if IdsAscending(os) {
      forall o | o in os[1..]
        ensures os[0].id < o.id
      {
        var j :| 1 <= j < |os| && os[j] == o;
      }
    }
  }

  lemma ConsAscending(head: Offer, rest: seq<Offer>)
    ensures IdsAscending(rest) && (forall o :: o in rest ==> head.id < o.id) ==> IdsAscending([head] + rest)
  {
    if IdsAscending(rest) && (forall o :: o in rest ==> head.id < o.id) {
      var os := [head] + rest;
      forall i, j | 0 <= i < j < |os|
        ensures os[i].id < os[j].id
      {
        if i > 0 {
          assert os[i] == rest[i - 1] && os[j] == rest[j - 1];
        } else {
          assert os[j] in rest;
        }
      }
    }
  }

  /** At most n leading entries of xs (an iterator's `take(n)`). */
  function Take<T>(xs: seq<T>, n: nat): (w: seq<T>)
    ensures |w| <= n && |w| <= |xs|
    ensures n <= |xs| ==> |w| == n
    ensures |xs| <= n ==> w == xs
    ensures w <= xs
  {
    if n < |xs| then xs[..n] else xs
  }

  /** The store's keys strictly above the bound lo, ascending: an ascending
      range scan with an exclusive lower bound. */
  function RangeKeys(s: OfferStore, lo: Bytes): (ks: seq<Bytes>)
    ensures StrictlySorted(ks)
    ensures forall k :: k in ks <==> k in s && LexLess(lo, k)
  {
    Sort(set k | k in s.Keys && LexLess(lo, k))
  }

  /** The store's keys, ascending: an unbounded ascending range scan. */
  function AllKeys(s: OfferStore): (ks: seq<Bytes>)
    ensures StrictlySorted(ks)
    ensures forall k :: k in ks <==> k in s
  {
    Sort(s.Keys)
  }

  /** The raw entries one page reads: the first `limit` keys above the cursor. */
  function ScanWindow(s: OfferStore, lastValue: Bytes, limit: nat): (w: seq<Bytes>)
    ensures |w| <= limit
    ensures w <= RangeKeys(s, lastValue)
    ensures |w| == if limit < |RangeKeys(s, lastValue)| then limit else |RangeKeys(s, lastValue)|
  {
    Take(RangeKeys(s, lastValue), limit)
  }

  /** A key-ascending listing of a well-formed store lists ids ascending. */
  lemma ValuesAscending(s: OfferStore, ks: seq<Bytes>)
    requires StrictlySorted(ks)
    requires forall k :: k in ks ==> k in s
    ensures WellFormed(s) ==> IdsAscending(ValuesAt(s, ks))
  {
    if WellFormed(s) {
      var os := ValuesAt(s, ks);
      forall i, j | 0 <= i < j < |os|
        ensures os[i].id < os[j].id
      {
        assert ks[i] in s && ks[j] in s;
        OfferKeyOrder(os[i].id, os[j].id);
      }
    }
  }

  /** `query_all_offers`: every stored offer in currency c and nothing else,
      ascending by id. */
  function QueryAllOffers(s: OfferStore, c: FiatCurrency): (r: seq<Offer>)
    ensures forall o :: o in r <==> o in s.Values && o.fiat_currency == c
    ensures WellFormed(s) ==> IdsAscending(r)
  {
    var ks := AllKeys(s);
    var os := ValuesAt(s, ks);
    assert forall o :: o in os <==> o in s.Values by {
      forall o | o in s.Values
        ensures o in os
      {
        var k :| k in s && s[k] == o;
        assert k in ks;
      }
    }
    ValuesAscending(s, ks);
    FilterCurrency(os, c)
  }

  /** `fetch` of a page: scan ascending strictly above `lastValue`, take
      `limit` raw entries, and only then keep those in currency c. */
  function FetchPage(s: OfferStore, c: FiatCurrency, lastValue: Bytes, limit: nat): (r: seq<Offer>)
    ensures |r| <= limit
    ensures forall o :: o in r ==> o in s.Values && o.fiat_currency == c
    ensures WellFormed(s) ==> IdsAscending(r)
    ensures WellFormed(s) ==> forall o :: o in r ==> LexLess(lastValue, OfferKey(o.id))
  {
    var ks := ScanWindow(s, lastValue, limit);
    var os := ValuesAt(s, ks);
    assert forall k :: k in ks ==> k in RangeKeys(s, lastValue);
    ValuesAscending(s, ks);
    FilterCurrency(os, c)
  }
}
