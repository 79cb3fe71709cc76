/**
  Byte strings as the offer store sees them: the lexicographic order in which
  an ordered key-value store iterates its keys, and the fixed-width big-endian
  encoding that turns an offer id into its storage key.
 */
module Bytes {

  type Byte = b: int | 0 <= b < 256

  type Bytes = seq<Byte>

  /** Lexicographic order on byte strings: the first differing byte decides,
      and a proper prefix sorts before every extension of it. */
  predicate LexLess(a: Bytes, b: Bytes)
    decreases |a|
  {
    if |a| == 0 then |b| > 0
    else if |b| == 0 then false
    else if a[0] != b[0] then a[0] < b[0]
    else LexLess(a[1..], b[1..])
  }

  lemma {:induction false} LexLessIrreflexive(a: Bytes)
    ensures !LexLess(a, a)
    decreases |a|
  {
    if |a| > 0 {
      LexLessIrreflexive(a[1..]);
    }
  }

  lemma {:induction false} LexLessAsymmetric(a: Bytes, b: Bytes)
    ensures !(LexLess(a, b) && LexLess(b, a))
    decreases |a|
  {
    if |a| > 0 && |b| > 0 && a[0] == b[0] {
      LexLessAsymmetric(a[1..], b[1..]);
    }
  }

  lemma {:induction false} LexLessTransitive(a: Bytes, b: Bytes, c: Bytes)
    requires LexLess(a, b) && LexLess(b, c)
    ensures LexLess(a, c)
    decreases |a|
  {
    if |a| > 0 && a[0] == b[0] && b[0] == c[0] {
      LexLessTransitive(a[1..], b[1..], c[1..]);
    }
  }

  lemma {:induction false} LexLessTotal(a: Bytes, b: Bytes)
    ensures a == b || LexLess(a, b) || LexLess(b, a)
    decreases |a|
  {
    if |a| > 0 && |b| > 0 && a[0] == b[0] {
      LexLessTotal(a[1..], b[1..]);
      if a[1..] == b[1..] {
        assert a == [a[0]] + a[1..] && b == [b[0]] + b[1..];
      }
    }
  }

  function Pow256(n: nat): (p: nat)
    ensures p > 0
  {
    if n == 0 then 1 else 256 * Pow256(n - 1)
  }

  lemma MulMonotone(x: int, y: int, p: nat)
    requires x <= y
    ensures x * p <= y * p
  {
  }

  /** Splitting x below 256 * p into a high byte and a remainder below p. */
  lemma SplitHigh(x: nat, p: nat)
    requires 0 < p && x < 256 * p
    ensures x / p < 256
    ensures (x / p) * p + x % p == x
  {
    assert x == p * (x / p) + x % p;
  }

  /** A smaller leading digit makes the smaller number, whatever follows it. */
  lemma HeadDecides(a: nat, b: nat, ra: nat, rb: nat, p: nat)
    requires a < b && ra < p
    ensures a * p + ra < b * p + rb
  {
    MulMonotone(a + 1, b, p);
    assert (a + 1) * p == a * p + p;
  }

  /** Big-endian value of a byte string: the first byte is the most significant. */
  function FromBigEndian(s: Bytes): (x: nat)
    ensures x < Pow256(|s|)
  {
    if |s| == 0 then 0
    else
      var p := Pow256(|s| - 1);
      MulMonotone(s[0], 255, p);
      s[0] * p + FromBigEndian(s[1..])
  }

  /** The n-byte big-endian encoding of x (the `to_be_bytes` of an n-byte integer). */
  function ToBigEndian(n: nat, x: nat): (s: Bytes)
    requires x < Pow256(n)
    ensures |s| == n
    ensures FromBigEndian(s) == x
  {
    if n == 0 then []
    else
      var p := Pow256(n - 1);
      var hi := x / p;
      var lo := x % p;
      SplitHigh(x, p);
      var s := [hi as Byte] + ToBigEndian(n - 1, lo);
      assert s[1..] == ToBigEndian(n - 1, lo);
      s
  }

  /** Decoding a big-endian string and re-encoding it at the same width gives it back. */
  lemma {:induction false} BigEndianRoundTrip(s: Bytes)
    ensures ToBigEndian(|s|, FromBigEndian(s)) == s
    decreases |s|
  {
    if |s| > 0 {
      var n := |s|;
      var p := Pow256(n - 1);
      var x := FromBigEndian(s);
      var r := FromBigEndian(s[1..]);
      assert x == s[0] * p + r;
      DivModOfSum(s[0], r, p);
      BigEndianRoundTrip(s[1..]);
      assert s == [s[0]] + s[1..];
    }
  }

  lemma DivModOfSum(q: nat, r: nat, p: nat)
    requires 0 < p && r < p
    ensures (q * p + r) / p == q && (q * p + r) % p == r
  {
    var x := q * p + r;
    var d := x / p - q;
    assert x == p * (x / p) + x % p;
    assert p * d == r - x % p;
    if d > 0 {
      MulMonotone(1, d, p);
    } else if d < 0 {
      MulMonotone(d, -1, p);
    }
  }

  /** Equal-width big-endian strings compare lexicographically exactly as
      their numeric values compare. */
  lemma {:induction false} BigEndianOrder(s: Bytes, t: Bytes)
    requires |s| == |t|
    ensures LexLess(s, t) <==> FromBigEndian(s) < FromBigEndian(t)
    decreases |s|
  {
    if |s| > 0 {
      var p := Pow256(|s| - 1);
      var rs, rt := FromBigEndian(s[1..]), FromBigEndian(t[1..]);
      if s[0] < t[0] {
        HeadDecides(s[0], t[0], rs, rt, p);
      } else if s[0] > t[0] {
        HeadDecides(t[0], s[0], rt, rs, p);
      } else {
        BigEndianOrder(s[1..], t[1..]);
      }
    }
  }

  /** Numeric order on values equals lexicographic order on their encodings. */
  lemma EncodingPreservesOrder(n: nat, x: nat, y: nat)
    requires x < Pow256(n) && y < Pow256(n)
    ensures LexLess(ToBigEndian(n, x), ToBigEndian(n, y)) <==> x < y
  {
    BigEndianOrder(ToBigEndian(n, x), ToBigEndian(n, y));
  }

  /** Distinct values have distinct encodings. */
  lemma EncodingInjective(n: nat, x: nat, y: nat)
    requires x < Pow256(n) && y < Pow256(n)
    ensures ToBigEndian(n, x) == ToBigEndian(n, y) <==> x == y
  {
  }
}
