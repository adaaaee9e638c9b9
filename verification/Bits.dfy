/** Powers of two and bitwise conjunction on natural numbers. */
module Bits {
  import opened Arith

  function Pow2(n: nat): (r: nat)
    ensures r >= 1
  {
    if n == 0 then 1 else 2 * Pow2(n - 1)
  }

  function BitAnd(a: nat, b: nat): nat
  {
    if a == 0 || b == 0 then 0 else (a % 2) * (b % 2) + 2 * BitAnd(a / 2, b / 2)
  }

  ghost predicate IsPow2(n: nat) { exists k: nat :: n == Pow2(k) }

  /** n & (n - 1) clears the lowest set bit: it is zero exactly for powers of two (and zero). */
  lemma {:induction false} ClearLowestBit(n: nat)
    requires n > 0
    ensures BitAnd(n, n - 1) == 0 <==> IsPow2(n)
  {
    if n == 1 {
      assert n == Pow2(0);
    } else if n % 2 == 0 {
      ClearLowestBit(n / 2);
      assert (n - 1) / 2 == n / 2 - 1;
      if IsPow2(n / 2) {
        var k: nat :| n / 2 == Pow2(k);
        assert n == Pow2(k + 1);
      }
      if IsPow2(n) {
        var k: nat :| n == Pow2(k);
        assert n / 2 == Pow2(k - 1);
      }
    } else {
      BitAndSelf(n / 2);
      assert (n - 1) / 2 == n / 2;
      assert forall k: nat :: n == Pow2(k) ==> k == 0;
    }
  }

  lemma {:induction false} BitAndSelf(n: nat)
    ensures BitAnd(n, n) == n
  {
    if n != 0 {
      BitAndSelf(n / 2);
    }
  }

  /** Testing a & 2^i reads bit i of a. */
  lemma {:induction false} BitAndMask(a: nat, i: nat)
    ensures BitAnd(a, Pow2(i)) != 0 <==> (a / Pow2(i)) % 2 == 1
  {
    if i == 0 {
      assert BitAnd(a / 2, 0) == 0;
    } else {
      BitAndMask(a / 2, i - 1);
      DivDiv(a, Pow2(i - 1));
      assert Pow2(i) / 2 == Pow2(i - 1) && Pow2(i) % 2 == 0;
    }
  }

  lemma DivDiv(a: nat, p: nat)
    requires p > 0
    ensures a / (2 * p) == (a / 2) / p == (a / p) / 2
  {
    var q := (a / 2) / p;
    var r := (a / 2) % p;
    assert a / 2 == p * q + r;
    var low := 2 * r + a % 2;
    assert a == (2 * p) * q + low && low < 2 * p;
    DivisionIs(a, 2 * p, q, low);
    var u := a / p;
    var v := a % p;
    var m := p * (u % 2) + v;
    assert a == p * u + v;
    assert a == (2 * p) * (u / 2) + m by {
      assert u == 2 * (u / 2) + u % 2;
      assert p * u == p * (2 * (u / 2)) + p * (u % 2);
    }
    assert m < 2 * p by {
      assert u % 2 == 0 || u % 2 == 1;
    }
    DivisionIs(a, 2 * p, u / 2, m);
  }
}
