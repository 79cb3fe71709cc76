/**
  What the two currency queries return, stated against an independent
  description of the store's contents: the listing of stored offers above a
  cursor in ascending id order. A page is the currency filter applied to the
  first `limit` entries of that listing, so pagination is defined over raw
  entries, not over matches.
 */
module Pagination {
  import opened Bytes
  import opened SortedKeys
  import opened OfferTypes
  import opened OfferRegistry

  /** `listing` holds exactly the stored offers whose key lies strictly above
      `lo`, in ascending id order. */
  ghost predicate ListsAbove(s: OfferStore, lo: Bytes, listing: seq<Offer>) {
    && IdsAscending(listing)
    && forall o :: o in listing <==> o in s.Values && LexLess(lo, OfferKey(o.id))
  }

  /** The storage keys of a listing of offers. */
  function KeysOf(os: seq<Offer>): (ks: seq<Bytes>)
    ensures |ks| == |os|
    ensures forall i :: 0 <= i < |os| ==> ks[i] == OfferKey(os[i].id)
  {
    seq(|os|, i requires 0 <= i < |os| => OfferKey(os[i].id))
  }

  lemma {:induction false} FilterAppend(a: seq<Offer>, b: seq<Offer>, c: FiatCurrency)
    ensures FilterCurrency(a + b, c) == FilterCurrency(a, c) + FilterCurrency(b, c)
    decreases |a|
  {
    if a == [] {
      assert a + b == b;
    } else {
      assert (a + b)[0] == a[0];
      assert (a + b)[1..] == a[1..] + b;
      FilterAppend(a[1..], b, c);
    }
  }

  lemma {:induction false} FilterNoneMatching(os: seq<Offer>, c: FiatCurrency)
    requires forall o :: o in os ==> o.fiat_currency != c
    ensures FilterCurrency(os, c) == []
    decreases |os|
  {
    if os != [] {
      FilterNoneMatching(os[1..], c);
    }
  }

  lemma TakeAppend<T>(xs: seq<T>, a: nat, b: nat)
    ensures Take(xs, a + b) == Take(xs, a) + Take(xs[|Take(xs, a)|..], b)
  {
  }

  /** A page is the currency filter over the offers of its raw window. */
  lemma PageUnfold(s: OfferStore, c: FiatCurrency, lo: Bytes, limit: nat)
    ensures forall k :: k in ScanWindow(s, lo, limit) ==> k in s
    ensures FetchPage(s, c, lo, limit) == FilterCurrency(ValuesAt(s, ScanWindow(s, lo, limit)), c)
  {
    assert forall k :: k in ScanWindow(s, lo, limit) ==> k in RangeKeys(s, lo);
  }

  lemma AscendingSplit(p1: seq<Offer>, p2: seq<Offer>)
    requires IdsAscending(p1 + p2)
    ensures forall o1, o2 :: o1 in p1 && o2 in p2 ==> o1.id < o2.id
  {
    var all := p1 + p2;
    forall o1, o2 | o1 in p1 && o2 in p2
      ensures o1.id < o2.id
    {
      var i :| 0 <= i < |p1| && p1[i] == o1;
      var j :| 0 <= j < |p2| && p2[j] == o2;
      assert all[i] == o1 && all[|p1| + j] == o2;
    }
  }

  lemma ValuesAtAppend(s: OfferStore, a: seq<Bytes>, b: seq<Bytes>)
    requires forall k :: k in a ==> k in s
    requires forall k :: k in b ==> k in s
    ensures ValuesAt(s, a + b) == ValuesAt(s, a) + ValuesAt(s, b)
  {
  }

  /** Resuming a scan from any key it produced yields exactly the rest of it. */
  lemma {:induction false} RangeAfter(s: OfferStore, lo: Bytes, i: nat)
    requires i < |RangeKeys(s, lo)|
    ensures RangeKeys(s, RangeKeys(s, lo)[i]) == RangeKeys(s, lo)[i + 1..]
  {
    var r := RangeKeys(s, lo);
    var tail := r[i + 1..];
    assert StrictlySorted(tail) by {
      forall p, q | 0 <= p < q < |tail|
        ensures LexLess(tail[p], tail[q])
      {
        assert tail[p] == r[i + 1 + p] && tail[q] == r[i + 1 + q];
      }
    }
    forall k
      ensures k in tail <==> k in s && LexLess(r[i], k)
    {
      if k in tail {
        var j :| i + 1 <= j < |r| && r[j] == k;
      }
      if k in s && LexLess(r[i], k) {
        LexLessTransitive(lo, r[i], k);
        var j :| 0 <= j < |r| && r[j] == k;
        if j <= i {
          if j < i {
            LexLessAsymmetric(r[j], r[i]);
          } else {
            LexLessIrreflexive(k);
          }
        }
      }
    }
    SortedUnique(RangeKeys(s, r[i]), tail);
  }

  /** The offers above a cursor, read through the scan, are the ascending
      listing: the scan adds, drops and reorders nothing. */
  lemma {:induction false} ScanIsListing(s: OfferStore, lo: Bytes, listing: seq<Offer>)
    requires WellFormed(s)
    requires ListsAbove(s, lo, listing)
    ensures ValuesAt(s, RangeKeys(s, lo)) == listing
  {
    var ks := KeysOf(listing);
    assert StrictlySorted(ks) by {
      forall p, q | 0 <= p < q < |ks|
        ensures LexLess(ks[p], ks[q])
      {
        OfferKeyOrder(listing[p].id, listing[q].id);
      }
    }
    forall k
      ensures k in ks <==> k in s && LexLess(lo, k)
    {
      if k in ks {
        var i :| 0 <= i < |ks| && ks[i] == k;
        var o := listing[i];
        var k' :| k' in s && s[k'] == o;
        assert k' == OfferKey(o.id);
      }
      if k in s && LexLess(lo, k) {
        var o := s[k];
        assert k == OfferKey(o.id);
        var i :| 0 <= i < |listing| && listing[i] == o;
        assert ks[i] == k;
      }
    }
    SortedUnique(RangeKeys(s, lo), ks);
    forall i | 0 <= i < |listing|
      ensures s[ks[i]] == listing[i]
    {
      var k' :| k' in s && s[k'] == listing[i];
      assert k' == OfferKey(listing[i].id);
    }
  }

  /** The defining identity of a page: filter by currency AFTER taking
      `limit` entries of the ascending listing above the cursor. */
  lemma PageIdentity(s: OfferStore, c: FiatCurrency, lastValue: Bytes, limit: nat, listing: seq<Offer>)
    requires WellFormed(s)
    requires ListsAbove(s, lastValue, listing)
    ensures FetchPage(s, c, lastValue, limit) == FilterCurrency(Take(listing, limit), c)
  {
    var r := RangeKeys(s, lastValue);
    ScanIsListing(s, lastValue, listing);
    assert ValuesAt(s, Take(r, limit)) == Take(ValuesAt(s, r), limit);
  }

  /** The full query is the filter of the whole ascending listing. */
  lemma QueryAllIdentity(s: OfferStore, c: FiatCurrency, listing: seq<Offer>)
    requires WellFormed(s)
    requires ListsAbove(s, [], listing)
    ensures QueryAllOffers(s, c) == FilterCurrency(listing, c)
  {
    ScanIsListing(s, [], listing);
    forall k | k in s
      ensures LexLess([], k)
    {
      assert |k| == KeyWidth;
    }
    SortedUnique(AllKeys(s), RangeKeys(s, []));
  }

  /** The full query is a page with an empty cursor and a limit as large as
      the store: every key lies above the empty byte string. */
  lemma QueryAllIsUnboundedPage(s: OfferStore, c: FiatCurrency, limit: nat)
    requires WellFormed(s)
    requires |s| <= limit
    ensures QueryAllOffers(s, c) == FetchPage(s, c, [], limit)
  {
    forall k | k in s
      ensures LexLess([], k)
    {
      assert |k| == KeyWidth;
    }
    SortedUnique(AllKeys(s), RangeKeys(s, []));
    assert |s.Keys| == |s|;
  }

  /** Cursor chaining: taking a second page from the key of the last raw
      entry the first page read continues the scan exactly where the first
      stopped, so the two pages together are one page of the combined size. */
  lemma PageChaining(s: OfferStore, c: FiatCurrency, lo: Bytes, a: nat, b: nat)
    requires ScanWindow(s, lo, a) != []
    ensures var w := ScanWindow(s, lo, a);
      FetchPage(s, c, lo, a) + FetchPage(s, c, w[|w| - 1], b) == FetchPage(s, c, lo, a + b)
  {
    var r := RangeKeys(s, lo);
    var w := ScanWindow(s, lo, a);
    var n := |w|;
    var cursor := w[n - 1];
    assert cursor == r[n - 1];
    RangeAfter(s, lo, n - 1);
    var w2 := ScanWindow(s, cursor, b);
    assert w2 == Take(r[n..], b);
    TakeAppend(r, a, b);
    assert ScanWindow(s, lo, a + b) == w + w2;
    PageUnfold(s, c, lo, a);
    PageUnfold(s, c, cursor, b);
    PageUnfold(s, c, lo, a + b);
    ValuesAtAppend(s, w, w2);
    FilterAppend(ValuesAt(s, w), ValuesAt(s, w2), c);
  }

  /** No offer is returned twice across chained pages: every offer of the
      second page has a larger id than every offer of the first. */
  lemma ChainedPagesDisjoint(s: OfferStore, c: FiatCurrency, lo: Bytes, a: nat, b: nat)
    requires WellFormed(s)
    requires ScanWindow(s, lo, a) != []
    ensures var w := ScanWindow(s, lo, a);
      forall o1, o2 :: o1 in FetchPage(s, c, lo, a) && o2 in FetchPage(s, c, w[|w| - 1], b) ==> o1.id < o2.id
  {
    var w := ScanWindow(s, lo, a);
    PageChaining(s, c, lo, a, b);
    AscendingSplit(FetchPage(s, c, lo, a), FetchPage(s, c, w[|w| - 1], b));
  }

  /** Resuming from the key of the last offer a page returned (the cursor a
      client can see) also never repeats an offer. */
  lemma ResumeAfterReturnedOffer(s: OfferStore, c: FiatCurrency, lo: Bytes, a: nat, b: nat)
    requires WellFormed(s)
    requires FetchPage(s, c, lo, a) != []
    ensures var p1 := FetchPage(s, c, lo, a);
      forall o1, o2 :: o1 in p1 && o2 in FetchPage(s, c, OfferKey(p1[|p1| - 1].id), b) ==> o1.id < o2.id
  {
    var p1 := FetchPage(s, c, lo, a);
    var last := p1[|p1| - 1];
    var p2 := FetchPage(s, c, OfferKey(last.id), b);
    assert forall o1 :: o1 in p1 ==> o1.id <= last.id by {
      forall o1 | o1 in p1
        ensures o1.id <= last.id
      {
        var i :| 0 <= i < |p1| && p1[i] == o1;
      }
    }
    assert forall o2 :: o2 in p2 ==> last.id < o2.id by {
      forall o2 | o2 in p2
        ensures last.id < o2.id
      {
        OfferKeyOrder(last.id, o2.id);
      }
    }
  }

  lemma FilterKeepsMatching(os: seq<Offer>, c: FiatCurrency)
    requires forall o :: o in os ==> o.fiat_currency == c
    ensures FilterCurrency(os, c) == os
    decreases |os|
  {
    if os != [] {
      FilterKeepsMatching(os[1..], c);
      assert os == [os[0]] + os[1..];
    }
  }

  /** When every offer above the cursor is in the requested currency, pages
      are full: min(limit, offers remaining) entries. */
  lemma UniformCurrencyPagesAreFull(s: OfferStore, c: FiatCurrency, lo: Bytes, limit: nat)
    requires forall k :: k in s && LexLess(lo, k) ==> s[k].fiat_currency == c
    ensures |FetchPage(s, c, lo, limit)| == |ScanWindow(s, lo, limit)|
    ensures |FetchPage(s, c, lo, limit)| == if limit < |RangeKeys(s, lo)| then limit else |RangeKeys(s, lo)|
  {
    var w := ScanWindow(s, lo, limit);
    assert forall k :: k in w ==> k in RangeKeys(s, lo);
    var os := ValuesAt(s, w);
    assert forall o :: o in os ==> o.fiat_currency == c;
    FilterKeepsMatching(os, c);
  }

  /** A page whose raw window holds no match comes back empty, whatever lies
      beyond the window. */
  lemma WindowWithoutMatchGivesEmptyPage(s: OfferStore, c: FiatCurrency, lo: Bytes, limit: nat)
    requires forall k :: k in ScanWindow(s, lo, limit) ==> s[k].fiat_currency != c
    ensures FetchPage(s, c, lo, limit) == []
  {
    PageUnfold(s, c, lo, limit);
    FilterNoneMatching(ValuesAt(s, ScanWindow(s, lo, limit)), c);
  }
}
