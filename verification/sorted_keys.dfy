/**
  The ascending listing of a finite set of byte-string keys, which is the
  order an ordered key-value store's range scan yields its entries in.
 */
module SortedKeys {
  import opened Bytes

  /** Every key precedes every later key: ascending with no repeats. */
  predicate StrictlySorted(ks: seq<Bytes>) {
    forall i, j :: 0 <= i < j < |ks| ==> LexLess(ks[i], ks[j])
  }

  predicate IsLeast(m: Bytes, ks: set<Bytes>) {
    m in ks && forall k :: k in ks && k != m ==> LexLess(m, k)
  }

  lemma {:induction false} LeastExists(ks: set<Bytes>)
    requires ks != {}
    ensures exists m :: IsLeast(m, ks)
    decreases |ks|
  {
    var x :| x in ks;
    if ks != {x} {
      var rest := ks - {x};
      LeastExists(rest);
      var m :| IsLeast(m, rest);
      LexLessTotal(m, x);
      if LexLess(x, m) {
        forall k | k in ks && k != x
          ensures LexLess(x, k)
        {
          if k != m {
            LexLessTransitive(x, m, k);
          }
        }
        assert IsLeast(x, ks);
      } else {
        assert IsLeast(m, ks);
      }
    } else {
      assert IsLeast(x, ks);
    }
  }

  lemma LeastUnique(ks: set<Bytes>)
    ensures forall a, b :: IsLeast(a, ks) && IsLeast(b, ks) ==> a == b
  {
    forall a, b | IsLeast(a, ks) && IsLeast(b, ks)
      ensures a == b
    {
      LexLessAsymmetric(a, b);
    }
  }

  /** The keys of ks in ascending lexicographic order. */
  function Sort(ks: set<Bytes>): (r: seq<Bytes>)
    ensures StrictlySorted(r)
    ensures forall k :: k in r <==> k in ks
    ensures |r| == |ks|
    decreases |ks|
  {
    if ks == {} then []
    else
      LeastExists(ks);
      LeastUnique(ks);
      var m :| IsLeast(m, ks);
      var rest := Sort(ks - {m});
      assert forall j :: 0 <= j < |rest| ==> rest[j] in ks - {m};
      [m] + rest
  }

  lemma HeadIsMember(s: seq<Bytes>)
    requires |s| > 0
    ensures s[0] in s
  {
  }

  /** A strictly sorted listing of a set is unique: any two agree. */
  lemma {:induction false} SortedUnique(a: seq<Bytes>, b: seq<Bytes>)
    requires StrictlySorted(a) && StrictlySorted(b)
    requires forall k :: k in a <==> k in b
    ensures a == b
    decreases |a|
  {
    if a != [] {
      assert b != [] by {
        assert a[0] in b;
      }
      assert a[0] == b[0] by {
        if a[0] != b[0] {
          assert b[0] in a;
          assert a[0] in b;
          var i :| 0 < i < |a| && a[i] == b[0];
          var j :| 0 < j < |b| && b[j] == a[0];
          LexLessAsymmetric(a[0], b[0]);
        }
      }
      forall k
        ensures k in a[1..] <==> k in b[1..]
      {
        if k in a[1..] {
          var i :| 1 <= i < |a| && a[i] == k;
          LexLessIrreflexive(a[0]);
          assert k != a[0];
          assert k in b;
        }
        if k in b[1..] {
          var j :| 1 <= j < |b| && b[j] == k;
          LexLessIrreflexive(b[0]);
          assert k != b[0];
          assert k in a;
        }
      }
      SortedUnique(a[1..], b[1..]);
      assert a == [a[0]] + a[1..] && b == [b[0]] + b[1..];
    } else if b != [] {
      HeadIsMember(b);
      assert false;
    }
  }

  /** The sorted listing of a set is characterised by its two properties. */
  lemma SortIsUnique(ks: set<Bytes>, q: seq<Bytes>)
    requires StrictlySorted(q)
    requires forall k :: k in q <==> k in ks
    ensures Sort(ks) == q
  {
    SortedUnique(Sort(ks), q);
  }
}
