/**
 The probability an attacker wins against a normalized hash, over the reals
 (bundle_miner_probability_of_losing, bundle_miner_normalized_bundle_max in
 utils/bundle_miner.c).
 */
module Losing {
  import opened Normalize

  /** Probability contributed by one normalized tryte. */
  function Factor(h: int): real { 1.0 - (TRYTE_MAX - h) as real / (TRYTE_MAX - TRYTE_MIN + 1) as real }

  lemma FactorIs(h: int)
    ensures Factor(h) == (14 + h) as real / 27.0
    ensures -13 <= h <= 13 ==> 0.0 < Factor(h) <= 1.0
  {
    var x := (14 + h) as real;
    assert (13 - h) as real == 27.0 - x;
    assert Factor(h) == 1.0 - (27.0 - x) / 27.0;
  }

  lemma FactorMonotone(a: int, b: int)
    requires -13 <= a <= b <= 13
    ensures 0.0 < Factor(a) <= Factor(b)
  {
    FactorIs(a);
    FactorIs(b);
  }

  function Times(a: real, b: real): real { a * b }

  /** Product of the factors of the first n trytes. */
  function Product(hash: seq<int>, n: nat): real
    requires n <= |hash|
  {
    if n == 0 then 1.0 else Times(Product(hash, n - 1), Factor(hash[n - 1]))
  }

  lemma MulBounds(a: real, b: real)
    requires 0.0 < a <= 1.0 && 0.0 < b <= 1.0
    ensures 0.0 < Times(a, b) <= 1.0
  {
    assert a * b <= 1.0 * b;
  }

  lemma MulMono(a: real, a': real, b: real, b': real)
    requires 0.0 < a <= a' && 0.0 < b <= b'
    ensures Times(a, b) <= Times(a', b')
  {
    assert a * b <= a' * b;
    assert a' * b <= a' * b';
  }

  lemma {:induction false} ProductBounds(hash: seq<int>, n: nat)
    requires n <= |hash| && InTryteRange(hash)
    ensures 0.0 < Product(hash, n) <= 1.0
  {
    hide Factor, Times;
    if n != 0 {
      ProductBounds(hash, n - 1);
      FactorIs(hash[n - 1]);
      MulBounds(Product(hash, n - 1), Factor(hash[n - 1]));
    }
  }

  /** Raising entries never lowers the losing probability. */
  lemma {:induction false} ProductMonotone(a: seq<int>, b: seq<int>, n: nat)
    requires n <= |a| && n <= |b| && InTryteRange(a) && InTryteRange(b)
    requires forall i :: 0 <= i < n ==> a[i] <= b[i]
    ensures Product(a, n) <= Product(b, n)
  {
    hide Factor, Times;
    if n != 0 {
      ProductMonotone(a, b, n - 1);
      FactorMonotone(a[n - 1], b[n - 1]);
      ProductBounds(a, n - 1);
      ProductBounds(b, n - 1);
      MulMono(Product(a, n - 1), Product(b, n - 1), Factor(a[n - 1]), Factor(b[n - 1]));
    }
  }

  /** One tryte contributes (14 + h) / 27. */
  lemma ProductOfOne(h: int)
    ensures Product([h], 1) == (14 + h) as real / 27.0
  {
    hide Factor;
    FactorIs(h);
    assert Product([h], 0) == 1.0;
  }

  /** The contributions of two parts multiply. */
  lemma {:induction false} ProductSplits(a: seq<int>, b: seq<int>)
    ensures Product(a + b, |a| + |b|) == Product(a, |a|) * Product(b, |b|)
    decreases |b|
  {
    hide Factor, Product;
    ProductSteps(b, 0);
    if |b| == 0 {
      assert a + b == a;
    } else {
      var n := |b| - 1;
      ProductSplits(a, b[..n]);
      ProductPrefix(a + b, a + b[..n], |a| + n);
      ProductPrefix(b, b[..n], n);
      ProductSteps(b, n);
      ProductSteps(a + b, |a| + n);
      MulAssociates(Product(a, |a|), Product(b, n), Factor(b[n]));
    }
  }

  lemma ProductSteps(hash: seq<int>, n: nat)
    ensures n == 0 ==> Product(hash, n) == 1.0
    ensures n < |hash| ==> Product(hash, n + 1) == Product(hash, n) * Factor(hash[n])
  {
  }

  lemma {:induction false} ProductPrefix(a: seq<int>, b: seq<int>, n: nat)
    requires n <= |a| && n <= |b| && a[..n] == b[..n]
    ensures Product(a, n) == Product(b, n)
  {
    if n != 0 {
      assert a[..n - 1] == a[..n][..n - 1] && b[..n - 1] == b[..n][..n - 1];
      assert a[n - 1] == a[..n][n - 1] && b[n - 1] == b[..n][n - 1];
      ProductPrefix(a, b, n - 1);
    }
  }

  lemma MulAssociates(a: real, b: real, c: real)
    ensures (a * b) * c == a * (b * c)
  {
  }

  /** bundle_miner_probability_of_losing: zero for an empty range, else the product. */
  method ProbabilityOfLosing(hash: seq<int>, security: nat) returns (p: real)
    requires security * 27 <= |hash| && InTryteRange(hash)
    ensures security == 0 ==> p == 0.0
    ensures security > 0 ==> p == Product(hash, security * 27)
  {
    hide Factor, Times;
    p := 0.0;
    var i := 0;
    while i < security * 27
      invariant 0 <= i <= security * 27
      invariant i == 0 ==> p == 0.0
      invariant i > 0 ==> p == Product(hash, i)
    {
      FactorIs(hash[i]);
      ProductBounds(hash, i);
      var pi := Factor(hash[i]);
      if pi > 0.0 {
        if p == 0.0 {
          p := 1.0;
        }
        p := Times(p, pi);
      }
      i := i + 1;
    }
  }

  function Max(a: int, b: int): int { if a > b then a else b }

  /** Entrywise maximum of two normalized hashes. */
  function MaxHash(a: seq<int>, b: seq<int>, n: nat): (r: seq<int>)
    requires n <= |a| && n <= |b|
    ensures |r| == n
  {
    seq(n, i requires 0 <= i < n => Max(a[i], b[i]))
  }

  /** The merged hash is the least one above both. */
  lemma MaxHashIsLeast(a: seq<int>, b: seq<int>, n: nat, i: nat)
    requires i < n <= |a| && n <= |b|
    ensures var m := MaxHash(a, b, n)[i];
            m >= a[i] && m >= b[i] && (m == a[i] || m == b[i])
  {
  }

  /** bundle_miner_normalized_bundle_max. */
  method NormalizedBundleMax(lhs: seq<int>, rhs: seq<int>, max: array<int>, length: nat)
    requires length <= |lhs| && length <= |rhs| && length <= max.Length
    modifies max
    ensures max[..length] == MaxHash(lhs, rhs, length) && max[length..] == old(max[length..])
  {
    for i := 0 to length
      invariant forall j :: 0 <= j < i ==> max[j] == Max(lhs[j], rhs[j])
      invariant forall j :: length <= j < max.Length ==> max[j] == old(max[j])
    {
      max[i] := if lhs[i] > rhs[i] then lhs[i] else rhs[i];
    }
  }

  /** Merging with a published hash never makes the attacker's odds smaller than either hash alone. */
  lemma MaxNeverLowers(a: seq<int>, b: seq<int>, n: nat)
    requires n <= |a| && n <= |b| && InTryteRange(a) && InTryteRange(b)
    ensures InTryteRange(MaxHash(a, b, n))
    ensures Product(a, n) <= Product(MaxHash(a, b, n), n) && Product(b, n) <= Product(MaxHash(a, b, n), n)
    ensures 0.0 < Product(MaxHash(a, b, n), n) <= 1.0
  {
    var m := MaxHash(a, b, n);
    hide Product;
    ProductMonotone(a, m, n);
    ProductMonotone(b, m, n);
    ProductBounds(m, n);
  }
}
