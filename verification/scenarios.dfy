/**
  Stores built from any id-ascending listing of offers that exhibit the
  pagination rule: an empty page although a match exists further on, and
  consecutive full pages when every offer matches.
 */
module Scenarios {
  import opened Bytes
  import opened OfferTypes
  import opened OfferRegistry
  import opened Pagination

  /** The store after storing each offer of os. */
  function StoreOf(os: seq<Offer>): OfferStore
  {
    if os == [] then map[] else Store(StoreOf(os[1..]), os[0])
  }

  /** The store holds one key per stored offer, each under its own id. */
  lemma {:induction false} StoreOfKeys(os: seq<Offer>)
    ensures WellFormed(StoreOf(os))
    ensures forall k :: k in StoreOf(os) <==> k in KeysOf(os)
    decreases |os|
  {
    if os != [] {
      StoreOfKeys(os[1..]);
      var ks := KeysOf(os);
      assert ks == [ks[0]] + KeysOf(os[1..]);
    }
  }

  /** Storing offers with ascending ids gives a store holding exactly those
      offers. */
  lemma {:induction false} StoreOfValues(os: seq<Offer>)
    requires IdsAscending(os)
    ensures forall o :: o in StoreOf(os).Values <==> o in os
    decreases |os|
  {
    if os != [] {
      var rest := os[1..];
      var s := StoreOf(rest);
      StoreOfValues(rest);
      StoreOfKeys(rest);
      var k0 := OfferKey(os[0].id);
      assert k0 !in s by {
        forall i | 0 <= i < |rest|
          ensures KeysOf(rest)[i] != k0
        {
          assert rest[i] == os[i + 1];
          OfferKeyOrder(os[0].id, rest[i].id);
        }
      }
      var s' := Store(s, os[0]);
      assert os == [os[0]] + rest;
      forall o | o in s'.Values
        ensures o in os
      {
        var k :| k in s' && s'[k] == o;
        if k != k0 {
          assert o in s.Values;
        }
      }
      forall o | o in rest
        ensures o in s'.Values
      {
        var k :| k in s && s[k] == o;
        assert s'[k] == o;
      }
    }
  }

  /** In an id-ascending listing, the offers after the i-th are exactly the
      listed offers with a larger id. */
  lemma TailAbove(os: seq<Offer>, i: nat)
    requires IdsAscending(os) && i < |os|
    ensures IdsAscending(os[i + 1..])
    ensures forall o :: o in os[i + 1..] <==> o in os && os[i].id < o.id
  {
    var tail := os[i + 1..];
    forall o | o in os && os[i].id < o.id
      ensures o in tail
    {
      var j :| 0 <= j < |os| && os[j] == o;
      assert tail[j - i - 1] == o;
    }
  }

  /** Above the key of its i-th offer, the store lists exactly the offers
      after the i-th. */
  lemma ListsAfterIndex(os: seq<Offer>, i: nat)
    requires IdsAscending(os) && i < |os|
    ensures ListsAbove(StoreOf(os), OfferKey(os[i].id), os[i + 1..])
  {
    StoreOfValues(os);
    TailAbove(os, i);
    forall o: Offer
      ensures LexLess(OfferKey(os[i].id), OfferKey(o.id)) <==> os[i].id < o.id
    {
      OfferKeyOrder(os[i].id, o.id);
    }
  }

  /** Seen from the empty cursor, the store lists all its offers. */
  lemma ListsFromStart(os: seq<Offer>)
    requires IdsAscending(os)
    ensures ListsAbove(StoreOf(os), [], os)
  {
    StoreOfKeys(os);
    StoreOfValues(os);
    forall o | o in os
      ensures LexLess([], OfferKey(o.id))
    {
      assert |OfferKey(o.id)| == KeyWidth;
    }
  }

  /** Filtering a listing whose only match is its last entry keeps just that entry. */
  lemma FilterOnlyLast(os: seq<Offer>, c: FiatCurrency)
    requires |os| > 0 && os[|os| - 1].fiat_currency == c
    requires forall i :: 0 <= i < |os| - 1 ==> os[i].fiat_currency != c
    ensures FilterCurrency(os, c) == [os[|os| - 1]]
  {
    var n := |os| - 1;
    var head := os[..n];
    assert os == head + [os[n]];
    FilterAppend(head, [os[n]], c);
    FilterNoneMatching(head, c);
    assert FilterCurrency([os[n]], c) == [os[n]];
  }

  /** Offers with ascending ids where only the fifth of five is in currency
      c: the three raw entries the first page reads hold no match, so the
      page is empty, while the full query does find the fifth offer. */
  lemma ShortPageScenario(os: seq<Offer>, c: FiatCurrency)
    requires |os| == 5 && IdsAscending(os)
    requires forall i :: 0 <= i < 4 ==> os[i].fiat_currency != c
    requires os[4].fiat_currency == c
    ensures FetchPage(StoreOf(os), c, [], 3) == []
    ensures QueryAllOffers(StoreOf(os), c) == [os[4]]
  {
    var s := StoreOf(os);
    StoreOfKeys(os);
    ListsFromStart(os);
    assert FetchPage(s, c, [], 3) == [] by {
      PageIdentity(s, c, [], 3, os);
      FilterNoneMatching(Take(os, 3), c);
    }
    assert QueryAllOffers(s, c) == [os[4]] by {
      QueryAllIdentity(s, c, os);
      FilterOnlyLast(os, c);
    }
  }

  /** Taking from a listing in one currency and filtering by it keeps the take. */
  lemma UniformTake(os: seq<Offer>, n: nat, c: FiatCurrency)
    requires forall o :: o in os ==> o.fiat_currency == c
    ensures FilterCurrency(Take(os, n), c) == Take(os, n)
  {
    FilterKeepsMatching(Take(os, n), c);
  }

  lemma TakeOfSuffix(os: seq<Offer>, i: nat, n: nat)
    requires i + n <= |os|
    ensures Take(os[i..], n) == os[i..i + n]
  {
  }

  /** Ten offers with ascending ids, all in currency c: the page of three
      from the empty cursor is the first three, and the page of three after
      the key of the third is the next three. */
  lemma ConsecutivePagesScenario(os: seq<Offer>, c: FiatCurrency)
    requires |os| == 10 && IdsAscending(os)
    requires forall o :: o in os ==> o.fiat_currency == c
    ensures FetchPage(StoreOf(os), c, [], 3) == os[..3]
    ensures FetchPage(StoreOf(os), c, OfferKey(os[2].id), 3) == os[3..6]
  {
    var s := StoreOf(os);
    StoreOfKeys(os);
    assert FetchPage(s, c, [], 3) == os[..3] by {
      ListsFromStart(os);
      PageIdentity(s, c, [], 3, os);
      UniformTake(os, 3, c);
      TakeOfSuffix(os, 0, 3);
      assert os[0..3] == os[..3];
    }
    assert FetchPage(s, c, OfferKey(os[2].id), 3) == os[3..6] by {
      ListsAfterIndex(os, 2);
      PageIdentity(s, c, OfferKey(os[2].id), 3, os[3..]);
      assert forall o :: o in os[3..] ==> o in os;
      UniformTake(os[3..], 3, c);
      TakeOfSuffix(os, 3, 3);
    }
  }
}
