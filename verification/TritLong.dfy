/**
 Conversion between integers and balanced trits (common/trinary/trit_long.c).
 */
module TritLong {
  import opened Arith
  import opened Ternary

  function Abs(v: int): nat { if v < 0 then -v else v }

  /** Lowest balanced digit of v. */
  function Digit(v: int): Trit { (v + 1) % 3 - 1 }

  /** The n low trits of v. */
  function ToTrits(v: int, n: nat): (r: seq<Trit>)
    ensures |r| == n
    decreases n
  {
    if n == 0 then [] else [Digit(v)] + ToTrits((v - Digit(v)) / 3, n - 1)
  }

  predicate Fits(v: int, n: nat) { -Half(n) <= v <= Half(n) }

  /** n trits hold v exactly when v fits. */
  lemma {:induction false} ToTritsValue(v: int, n: nat)
    ensures Val(ToTrits(v, n)) == v <==> Fits(v, n)
    decreases n
  {
    if n != 0 {
      var d := Digit(v);
      var w := (v - d) / 3;
      ToTritsValue(w, n - 1);
      assert v == d + 3 * w;
      assert ToTrits(v, n)[1..] == ToTrits(w, n - 1);
    }
  }

  /** Reading trits back and writing them again is the identity. */
  lemma ToTritsOfVal(t: seq<Trit>)
    ensures ToTrits(Val(t), |t|) == t
  {
    ValBound(t);
    ToTritsValue(Val(t), |t|);
    ValInjective(ToTrits(Val(t), |t|), t);
  }

  /** Truncating a wider representation gives the narrower one. */
  lemma {:induction false} ToTritsPrefix(v: int, m: nat, n: nat)
    requires n <= m
    ensures ToTrits(v, m)[..n] == ToTrits(v, n)
    decreases n
  {
    if n != 0 {
      ToTritsPrefix((v - Digit(v)) / 3, m - 1, n - 1);
    }
  }

  /** A representation that fits is only padded with zeros when widened. */
  lemma ToTritsPad(v: int, n: nat, m: nat)
    requires n <= m && Fits(v, n)
    ensures ToTrits(v, m) == ToTrits(v, n) + seq(m - n, _ => 0)
  {
    HalfMonotone(n, m);
    ToTritsValue(v, n);
    ToTritsValue(v, m);
    ValAppend(ToTrits(v, n), seq(m - n, _ => 0));
    ValZeros(m - n);
    ValInjective(ToTrits(v, m), ToTrits(v, n) + seq(m - n, _ => 0));
  }

  lemma {:induction false} HalfMonotone(n: nat, m: nat)
    requires n <= m
    ensures Half(n) <= Half(m)
    decreases m
  {
    if n < m {
      HalfMonotone(n, m - 1);
    }
  }

  /** trits_to_long (unbounded integers): Horner's rule from the top trit down. */
  method TritsToLong(trits: seq<Trit>) returns (accum: int)
    ensures accum == Val(trits)
  {
    accum := 0;
    var end := |trits|;
    while end > 0
      invariant 0 <= end <= |trits|
      invariant accum == Val(trits[end..])
    {
      end := end - 1;
      assert trits[end..][1..] == trits[end + 1..];
      accum := accum * 3 + trits[end];
    }
    assert trits[0..] == trits;
  }

  /** The least positive number of trits that holds v. */
  function Width(v: int): (n: nat)
    ensures n >= 1 && Fits(v, n)
    ensures forall k :: 1 <= k < n ==> !Fits(v, k)
    decreases Abs(v)
  {
    if Abs(v) <= 1 then WidthBase(v); 1 else WidthStep(v); 1 + Width((Abs(v) + 1) / 3)
  }

  lemma WidthBase(v: int)
    requires Abs(v) <= 1
    ensures Fits(v, 1)
  {
    assert Half(1) == 1 + 3 * Half(0);
  }

  lemma WidthStep(v: int)
    requires Abs(v) > 1
    ensures forall k :: 1 <= k ==> (Fits(v, k) <==> k >= 2 && Fits((Abs(v) + 1) / 3, k - 1))
  {
    forall k | 1 <= k ensures Fits(v, k) <==> k >= 2 && Fits((Abs(v) + 1) / 3, k - 1) {
      assert Half(k) == 1 + 3 * Half(k - 1);
    }
  }

  lemma FitsIffWide(v: int, n: nat)
    requires n >= 1
    ensures Fits(v, n) <==> Width(v) <= n
  {
    if Width(v) <= n {
      HalfMonotone(Width(v), n);
    }
  }

  /** How many trits long_to_trits writes: it clears three before it writes the digits. */
  function Extent(v: int): nat { if Width(v) < 3 then 3 else Width(v) }

  /** A trit buffer after long_to_trits at its start; what would fall behind the end is dropped. */
  function Overwrite(t: seq<Trit>, v: int): (r: seq<Trit>)
    ensures |r| == |t|
  {
    var n := if Extent(v) <= |t| then Extent(v) else |t|;
    ToTrits(v, n) + t[n..]
  }

  lemma DigitValue(d: Trit)
    ensures Val([d]) == d
  {
  }

  /** The top digit of the shortest representation is not null. */
  lemma TopDigit(v: int)
    requires Width(v) >= 2
    ensures ToTrits(v, Width(v))[Width(v) - 1] != 0
  {
    hide ToTrits, Val, Pow3, Half, Width;
    var n := Width(v) - 1;
    var t := ToTrits(v, n + 1);
    ToTritsValue(v, n + 1);
    ToTritsPrefix(v, n + 1, n);
    ToTritsValue(v, n);
    assert t == t[..n] + [t[n]];
    ValAppend(t[..n], [t[n]]);
    assert !Fits(v, n);
    DigitValue(t[n]);
    UnitMultiples(Pow3(n));
  }

  /** The digits of x past position n are null exactly when x fits n trits. */
  lemma TailIsNull(x: int, n: nat, m: nat)
    requires 1 <= n <= m && Fits(x, m)
    ensures ToTrits(x, m)[n..] == seq(m - n, _ => 0) <==> Fits(x, n)
  {
    FitsIffWide(x, n);
    FitsIffWide(x, m);
    if Fits(x, n) {
      ToTritsPad(x, n, m);
    } else {
      var w := Width(x);
      TopDigit(x);
      ToTritsPrefix(x, m, w);
      assert ToTrits(x, m)[n..][w - 1 - n] == ToTrits(x, m)[..w][w - 1];
    }
  }

  /** Writing y over the trits of x leaves the trits of y exactly when the write covers all of x. */
  lemma OverwriteIff(x: int, y: int, m: nat)
    requires Fits(x, m) && Fits(y, m) && m >= 3
    ensures Overwrite(ToTrits(x, m), y) == ToTrits(y, m) <==> Fits(x, Extent(y))
  {
    hide ToTrits, Fits, Width;
    FitsIffWide(y, m);
    var n := Extent(y);
    FitsIffWide(y, n);
    ToTritsPad(y, n, m);
    TailIsNull(x, n, m);
    var r := Overwrite(ToTrits(x, m), y);
    assert r[n..] == ToTrits(x, m)[n..];
    assert (ToTrits(y, n) + seq(m - n, _ => 0))[n..] == seq(m - n, _ => 0 as Trit);
  }

  lemma OverwriteNull(y: int, m: nat)
    requires Fits(y, m) && m >= 3
    ensures Overwrite(seq(m, _ => 0), y) == ToTrits(y, m)
  {
    hide ToTrits, Fits, Width;
    FitsIffWide(y, m);
    FitsIffWide(y, Extent(y));
    ToTritsPad(y, Extent(y), m);
  }

  /** Only the part of the buffer before n matters for the part of the result before n. */
  lemma OverwritePrefix(t: seq<Trit>, v: int, n: nat)
    requires n <= |t|
    ensures Overwrite(t, v)[..n] == Overwrite(t[..n], v)
  {
    hide ToTrits, Fits, Width;
    var m := if Extent(v) <= |t| then Extent(v) else |t|;
    if n < m {
      ToTritsPrefix(v, m, n);
    }
  }

  /** min_trits. */
  method MinTrits(value: int) returns (num: nat)
    ensures num == Width(value)
  {
    num := 1;
    var vp := 1;
    assert Half(1) == 1 + 3 * Half(0);
    while Abs(value) > vp
      invariant num >= 1 && vp == Half(num)
      invariant forall n :: 1 <= n < num ==> !Fits(value, n)
      decreases Abs(value) - vp
    {
      vp := vp * 3 + 1;
      num := num + 1;
    }
    FitsIffWide(value, num);
  }

  /** What is left of the magnitude a after i digits have been written. */
  function Rest(a: nat, i: nat): nat
  {
    if i == 0 then a else (Rest(a, i - 1) + 1) / 3
  }

  lemma {:induction false} RestOfRest(a: nat, i: nat)
    ensures Rest((a + 1) / 3, i) == Rest(a, i + 1)
  {
    if i != 0 {
      RestOfRest(a, i - 1);
    }
  }

  lemma {:induction false} RestZero(a: nat, i: nat)
    ensures Rest(a, i) == 0 <==> a <= Half(i)
    decreases i
  {
    if i != 0 {
      RestOfRest(a, i - 1);
      RestZero((a + 1) / 3, i - 1);
    }
  }

  function Signed(negative: bool, a: int): int { if negative then -a else a }

  /** Digit i of a signed value is the signed digit of what is left of its magnitude. */
  lemma {:induction false} ToTritsAt(negative: bool, a: nat, n: nat, i: nat)
    requires i < n
    ensures ToTrits(Signed(negative, a), n)[i] == Signed(negative, Digit(Rest(a, i)))
    decreases i
  {
    var v := Signed(negative, a);
    assert Digit(v) == Signed(negative, Digit(a));
    if i != 0 {
      assert (v - Digit(v)) / 3 == Signed(negative, (a + 1) / 3);
      ToTritsAt(negative, (a + 1) / 3, n - 1, i - 1);
      RestOfRest(a, i - 1);
    }
  }

  /** The magnitude is exhausted before the last trit only for the value 0. */
  lemma NoEarlyBreak(value: int, i: nat)
    requires i < Width(value) && Rest(Abs(value), i) == 0
    ensures value == 0 && i == 0 && Width(value) == 1 && ToTrits(value, 1)[0] == 0
  {
    RestZero(Abs(value), i);
    assert i >= 1 ==> Fits(value, i);
    assert Half(0) == 0;
  }

  /** Trit j of a buffer after the value has been written at position `at`, up to i digits. */
  function WrittenAt(was: seq<Trit>, at: nat, value: int, i: nat, j: nat): Trit
    requires j < |was| && i <= Width(value)
  {
    if at <= j < at + i then ToTrits(value, Width(value))[j - at] else if at <= j < at + 3 then 0 else was[j]
  }

  /** long_to_trits at position `at` of a buffer: three trits are cleared, then the digits are written. */
  method LongToTrits(value: int, trits: array<Trit>, at: nat) returns (size: nat)
    requires at + Extent(value) <= trits.Length
    modifies trits
    ensures size == Width(value)
    ensures trits[..] == old(trits[..at]) + Overwrite(old(trits[at..]), value)
  {
    hide ToTrits, Fits, Half, Width, Overwrite;
    ghost var was := trits[..];
    var negative := value < 0;
    size := MinTrits(value);
    ghost var a := Abs(value);
    var vabs: int := Abs(value);
    trits[at], trits[at + 1], trits[at + 2] := 0, 0, 0;
    var i := 0;
    while i < size
      invariant 0 <= i <= size == Width(value) && vabs == Rest(a, i)
      invariant forall j :: 0 <= j < trits.Length ==> trits[j] == WrittenAt(was, at, value, i, j)
    {
      ToTritsAt(negative, a, size, i);
      if vabs == 0 {
        NoEarlyBreak(value, i);
        break;
      }
      var trit: Trit := (vabs + 1) % 3 - 1;
      trits[at + i] := Signed(negative, trit);
      vabs := (vabs + 1) / 3;
      i := i + 1;
    }
    WrittenIsOverwrite(was, trits[..], at, value);
    assert was[..at] == old(trits[..at]) && was[at..] == old(trits[at..]);
  }

  lemma WrittenIsOverwrite(was: seq<Trit>, now: seq<Trit>, at: nat, value: int)
    requires at + Extent(value) <= |was| == |now|
    requires forall j :: 0 <= j < |was| ==> now[j] == WrittenAt(was, at, value, Width(value), j)
    ensures now == was[..at] + Overwrite(was[at..], value)
  {
    hide ToTrits, Fits, Width;
    ToTritsPad(value, Width(value), Extent(value));
  }
}
