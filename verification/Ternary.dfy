/**
 Balanced-ternary arithmetic: the ripple adder of common/trinary/add.c and the
 scalar increment of common/trinary/ptrit_incr.c, related to plain integers
 through `Val`.
 */
module Ternary {
  import opened Arith

  type Trit = x: int | -1 <= x <= 1

  function Pow3(n: nat): (r: int)
    ensures r >= 1
  {
    if n == 0 then 1 else 3 * Pow3(n - 1)
  }

  lemma Pow3Times(n: nat, k: int)
    requires n > 0
    ensures Pow3(n) * k == 3 * (Pow3(n - 1) * k)
  {
    Times3(Pow3(n - 1), k);
  }

  /** The greatest value n balanced trits can hold. */
  function Half(n: nat): (h: int)
    ensures h >= 0 && 2 * h + 1 == Pow3(n)
  {
    if n == 0 then 0 else 1 + 3 * Half(n - 1)
  }

  /** The integer a little-endian sequence of ternary digits stands for. */
  function Val(t: seq<int>): int
  {
    if |t| == 0 then 0 else t[0] + 3 * Val(t[1..])
  }

  lemma {:induction false} ValStep(t: seq<int>)
    requires |t| > 0
    ensures Val(t) == t[0] + 3 * Val(t[1..]) && Val(t) % 3 == t[0] % 3
  {
  }

  lemma EmptyValue(t: seq<int>)
    ensures |t| == 0 ==> Val(t) == 0 && Pow3(|t|) == 1
  {
  }

  lemma {:induction false} ValBound(t: seq<Trit>)
    ensures -Half(|t|) <= Val(t) <= Half(|t|)
  {
    if |t| != 0 {
      ValBound(t[1..]);
    }
  }

  lemma {:induction false} ValInjective(a: seq<Trit>, b: seq<Trit>)
    requires |a| == |b| && Val(a) == Val(b)
    ensures a == b
  {
    if |a| != 0 {
      assert a[0] == b[0] && Val(a[1..]) == Val(b[1..]);
      ValInjective(a[1..], b[1..]);
      assert a == [a[0]] + a[1..] && b == [b[0]] + b[1..];
    }
  }

  lemma {:induction false} ValAppend(a: seq<Trit>, b: seq<Trit>)
    ensures Val(a + b) == Val(a) + Pow3(|a|) * Val(b)
  {
    hide Val, Pow3;
    EmptyValue(a);
    if |a| == 0 {
      assert a + b == b;
    } else {
      assert (a + b)[1..] == a[1..] + b;
      ValAppend(a[1..], b);
      ValStep(a);
      ValStep(a + b);
      Pow3Times(|a|, Val(b));
    }
  }

  lemma {:induction false} ValZeros(n: nat)
    ensures Val(seq(n, _ => 0)) == 0
  {
    if n != 0 {
      assert seq(n, _ => 0 as Trit)[1..] == seq(n - 1, _ => 0 as Trit);
      ValZeros(n - 1);
    }
  }

  /** Two values of n trits that agree modulo 3^n are the same trits. */
  lemma ValUniqueModulo(a: seq<Trit>, b: seq<Trit>, q: int)
    requires |a| == |b| && Val(a) == Val(b) + Pow3(|a|) * q
    ensures a == b && q == 0
  {
    ValBound(a);
    ValBound(b);
    SmallMultiple(Pow3(|a|), q);
    ValInjective(a, b);
  }

  /** Equality modulo 3^n. */
  ghost predicate SameModulo(a: int, b: int, n: nat)
  {
    a % Pow3(n) == b % Pow3(n)
  }

  lemma ShiftedSame(x: int, y: int, n: nat, q: int)
    requires y == x + Pow3(n) * q
    ensures SameModulo(x, y, n)
  {
    ModShift(x, Pow3(n), q);
  }

  // ----- single-digit operations (add.c:15-35); a trit_t is a signed byte and may hold more than a trit

  predicate IsTrit(x: int) { -1 <= x <= 1 }

  function TritCons(a: int, b: int): int
  {
    if a == b then a else 0
  }

  function TritSum(a: int, b: int): int
  {
    var s := a + b;
    if s == 2 then -1 else if s == -2 then 1 else s
  }

  datatype SumCarry = SumCarry(s: int, c: Trit)

  /** On trits the full adder is exact: no part of a + b + c is lost. */
  function TritFullAdd(a: int, b: int, c: Trit): (r: SumCarry)
    ensures IsTrit(a) && IsTrit(b) ==> IsTrit(r.s) && a + b + c == r.s + 3 * r.c
  {
    var sab := TritSum(a, b);
    var x := TritCons(a, b) + TritCons(sab, c);
    SumCarry(TritSum(sab, c), if x > 0 then 1 else if x < 0 then -1 else 0)
  }

  // ----- adding an integer in place (add.c:37-55)

  /** What adding v >= 0 to trits leaves: the trits, the addend that did not fit and the carry out of the
      last trit. */
  datatype Addition = Addition(trits: seq<Trit>, addend: nat, carry: Trit)

  function Add(t: seq<Trit>, v: nat, c: Trit): (r: Addition)
    ensures |r.trits| == |t|
  {
    if (v == 0 && c == 0) || |t| == 0 then
      Addition(t, v, c)
    else
      var f := TritFullAdd(t[0], (v + 1) % 3 - 1, c);
      var rest := Add(t[1..], (v + 1) / 3, f.c);
      rest.(trits := [f.s] + rest.trits)
  }

  lemma AddStop(t: seq<Trit>, v: nat, c: Trit)
    requires (v == 0 && c == 0) || |t| == 0
    ensures Add(t, v, c) == Addition(t, v, c)
  {
  }

  lemma AddStep(t: seq<Trit>, v: nat, c: Trit)
    requires |t| > 0 && !(v == 0 && c == 0)
    ensures var f := TritFullAdd(t[0], (v + 1) % 3 - 1, c);
            var rest := Add(t[1..], (v + 1) / 3, f.c);
            Add(t, v, c) == Addition([f.s] + rest.trits, rest.addend, rest.carry)
  {
  }

  /** Nothing is lost: old value + addend = new value + 3^n * (what is left over). */
  lemma {:induction false} AddExact(t: seq<Trit>, v: nat, c: Trit)
    ensures var r := Add(t, v, c);
            Val(t) + v + c == Val(r.trits) + Pow3(|t|) * (r.addend + r.carry)
  {
    hide TritFullAdd, Add, Val, Pow3;
    if (v == 0 && c == 0) || |t| == 0 {
      AddStop(t, v, c);
      EmptyValue(t);
      UnitMultiples(Pow3(|t|));
    } else {
      var d, w := (v + 1) % 3 - 1, (v + 1) / 3;
      var f := TritFullAdd(t[0], d, c);
      AddExact(t[1..], w, f.c);
      AddStep(t, v, c);
      var r, rest := Add(t, v, c), Add(t[1..], w, f.c);
      assert r.trits[1..] == rest.trits;
      ValStep(t);
      ValStep(r.trits);
      Pow3Times(|t|, rest.addend + rest.carry);
    }
  }

  /** The addend is used up exactly when it fits n balanced trits. */
  lemma {:induction false} AddendConsumed(t: seq<Trit>, v: nat, c: Trit)
    ensures Add(t, v, c).addend == 0 <==> v <= Half(|t|)
  {
    if |t| != 0 && !(v == 0 && c == 0) {
      var f := TritFullAdd(t[0], (v + 1) % 3 - 1, c);
      AddendConsumed(t[1..], (v + 1) / 3, f.c);
    }
  }

  /** Nothing is left over exactly when both the addend and the sum fit. */
  lemma AddFits(t: seq<Trit>, v: nat)
    ensures var r := Add(t, v, 0);
            (r.addend == 0 && r.carry == 0) <==> (v <= Half(|t|) && Val(t) + v <= Half(|t|))
  {
    hide Add, Val, Pow3, Half;
    var r := Add(t, v, 0);
    AddExact(t, v, 0);
    AddendConsumed(t, v, 0);
    ValBound(t);
    ValBound(r.trits);
    if r.addend == 0 {
      UnitMultiples(Pow3(|t|));
      assert r.carry == 1 || r.carry == 0 || r.carry == -1;
    }
  }

  /** What add_assign computes, in terms of values. */
  lemma AddMeaning(t: seq<Trit>, v: nat)
    ensures var r := Add(t, v, 0);
            var exact := r.addend == 0 && r.carry == 0;
            && (exact <==> v <= Half(|t|) && Val(t) + v <= Half(|t|))
            && (exact ==> Val(r.trits) == Val(t) + v)
            && SameModulo(Val(r.trits), Val(t) + v, |t|)
  {
    hide Add, Val, Pow3, Half;
    var r := Add(t, v, 0);
    AddExact(t, v, 0);
    AddFits(t, v);
    ShiftedSame(Val(r.trits), Val(t) + v, |t|, r.addend + r.carry);
    UnitMultiples(Pow3(|t|));
  }

  /** Return code 1 does not mean that the sum overflows: [-1] + 2 fits one trit. */
  lemma CodeOneDespiteFit()
    ensures var r := Add([-1], 2, 0);
            r.addend + r.carry == 0 && r.addend != 0 && r.trits == [1]
  {
    assert Add([-1], 2, 0) == Add([], 1, -1).(trits := [1] + Add([], 1, -1).trits);
  }

  // ----- add_internal for addends of either sign

  /** C's remainder and quotient by three truncate toward zero. */
  function TruncMod3(x: int): int { if x >= 0 then x % 3 else -((-x) % 3) }

  function TruncDiv3(x: int): int { if x >= 0 then x / 3 else -((-x) / 3) }

  /** The digit of the addend handed to the full adder (add.c:43-46). */
  function FedDigit(negative: bool, v: int): int
  {
    var d := TruncMod3(v + 1) - 1;
    if negative then -d else d
  }

  datatype Digits = Digits(digits: seq<int>, addend: int, carry: Trit)

  /** The recursion of add_internal, for every addend. */
  function AddDigits(t: seq<int>, negative: bool, v: int, c: Trit): (r: Digits)
    ensures |r.digits| == |t|
  {
    if (v == 0 && c == 0) || |t| == 0 then
      Digits(t, v, c)
    else
      var f := TritFullAdd(t[0], FedDigit(negative, v), c);
      var rest := AddDigits(t[1..], negative, TruncDiv3(v + 1), f.c);
      rest.(digits := [f.s] + rest.digits)
  }

  ghost predicate AreTrits(t: seq<int>) { forall i :: 0 <= i < |t| ==> IsTrit(t[i]) }

  lemma PositiveDigit(v: nat)
    ensures FedDigit(false, v) == (v + 1) % 3 - 1 && TruncDiv3(v + 1) == (v + 1) / 3
  {
  }

  lemma AddDigitsStop(t: seq<int>, negative: bool, v: int, c: Trit)
    requires (v == 0 && c == 0) || |t| == 0
    ensures AddDigits(t, negative, v, c) == Digits(t, v, c)
  {
  }

  lemma AddDigitsStep(t: seq<int>, negative: bool, v: int, c: Trit)
    requires |t| > 0 && !(v == 0 && c == 0)
    ensures var f := TritFullAdd(t[0], FedDigit(negative, v), c);
            var rest := AddDigits(t[1..], negative, TruncDiv3(v + 1), f.c);
            AddDigits(t, negative, v, c) == Digits([f.s] + rest.digits, rest.addend, rest.carry)
  {
  }

  /** For a non-negative addend the recursion is the adder on trits. */
  lemma {:induction false} AddDigitsIsAdd(t: seq<Trit>, v: nat, c: Trit)
    ensures var r := Add(t, v, c);
            AddDigits(t, false, v, c) == Digits(r.trits, r.addend, r.carry)
  {
    hide TritFullAdd, FedDigit, TruncDiv3;
    if !((v == 0 && c == 0) || |t| == 0) {
      PositiveDigit(v);
      var tail := t[1..];
      var f := TritFullAdd(t[0], FedDigit(false, v), c);
      var w := TruncDiv3(v + 1);
      AddDigitsIsAdd(tail, w, f.c);
      hide Add, AddDigits;
      AddStep(t, v, c);
      AddDigitsStep(t, false, v, c);
    }
  }

  /** Once the addend is used up its sign no longer matters. */
  lemma {:induction false} CarryOnly(t: seq<Trit>, c: Trit)
    ensures AddDigits(t, true, 0, c) == AddDigits(t, false, 0, c)
  {
    hide TritFullAdd;
    if |t| != 0 && c != 0 {
      CarryOnly(t[1..], TritFullAdd(t[0], 0, c).c);
    }
  }

  /** One digit of the negative path: v = -d - 3 * a with d in 1..3, and the full adder may lose a carry, though
      only for d >= 2. */
  lemma NegativeDigit(t: Trit, v: int, c: Trit)
    requires v <= 0 && c >= 0
    ensures var d, f := FedDigit(true, v), TritFullAdd(t, FedDigit(true, v), c);
            && -v == d + 3 * -TruncDiv3(v + 1) && TruncDiv3(v + 1) <= 0
            && (if v == 0 then d == 0 else 1 <= d <= 3) && f.c >= 0
            && (f.s + 3 * f.c == t + d + c || (f.s + 3 * f.c == t + d + c - 3 && d >= 2))
  {
  }

  /** What a negative addend leaves lies strictly above old + v and at most at old - v, counting what is left over. */
  lemma {:induction false} NegativeBounds(t: seq<Trit>, v: int, c: Trit)
    requires v <= 0 && c >= 0
    ensures var r := AddDigits(t, true, v, c);
            var total := Val(r.digits) + Pow3(|t|) * (r.carry - r.addend);
            && (if v == 0 then total == Val(t) + c else Val(t) + c + v < total)
            && total <= Val(t) + c - v
  {
    hide TritFullAdd, FedDigit, TruncDiv3, AddDigits, Val, Pow3;
    var r := AddDigits(t, true, v, c);
    if (v == 0 && c == 0) || |t| == 0 {
      AddDigitsStop(t, true, v, c);
      EmptyValue(t);
      UnitMultiples(Pow3(|t|));
    } else {
      NegativeDigit(t[0], v, c);
      var f := TritFullAdd(t[0], FedDigit(true, v), c);
      NegativeBounds(t[1..], TruncDiv3(v + 1), f.c);
      AddDigitsStep(t, true, v, c);
      assert r.digits[1..] == AddDigits(t[1..], true, TruncDiv3(v + 1), f.c).digits;
      ValStep(t);
      ValStep(r.digits);
      Pow3Times(|t|, r.carry - r.addend);
    }
  }

  /**
   add_assign of a negative addend never subtracts. When nothing is left over (return code 0) the new value is
   above old + v; it differs from old + v even modulo 3 unless 3 divides v; and the first digit written is a trit
   only in the three cases below.
   */
  lemma NegativeAddend(t: seq<Trit>, v: int)
    requires v < 0
    ensures var r := AddDigits(t, true, v, 0);
            && (r.addend == 0 && r.carry == 0 ==> Val(t) + v < Val(r.digits) <= Val(t) - v)
            && (|t| > 0 ==> (Val(r.digits) % 3 == (Val(t) + v) % 3 <==> v % 3 == 0))
            && (|t| > 0 ==> (IsTrit(r.digits[0]) <==>
                             v % 3 == 2 || (v % 3 == 1 && t[0] != 1) || (v % 3 == 0 && t[0] == -1)))
  {
    hide AddDigits, Pow3, FedDigit, Val;
    NegativeBounds(t, v, 0);
    var r := AddDigits(t, true, v, 0);
    UnitMultiples(Pow3(|t|));
    if |t| > 0 {
      FirstOfNegative(t, v);
      ValStep(t);
      ValStep(r.digits);
    }
  }

  lemma FirstOfNegative(t: seq<Trit>, v: int)
    requires v < 0 && |t| > 0
    ensures var s, d := AddDigits(t, true, v, 0).digits[0], FedDigit(true, v);
            s == (if t[0] + d == 2 then -1 else t[0] + d) && d == (-v - 1) % 3 + 1
  {
  }

  lemma AddEmpty(t: seq<Trit>)
    requires |t| == 0
    ensures AddDigits(t, true, -1, 0).digits == Add(t, 1, 0).trits
  {
  }

  /** In particular adding -1 adds 1. */
  lemma MinusOneAddsOne(t: seq<Trit>)
    ensures AddDigits(t, true, -1, 0).digits == Add(t, 1, 0).trits
  {
    hide Add, AddDigits, TritFullAdd;
    if |t| > 0 {
      var tail := t[1..];
      var f := TritFullAdd(t[0], 1, 0);
      AddStep(t, 1, 0);
      AddDigitsStep(t, true, -1, 0);
      CarryOnly(tail, f.c);
      AddDigitsIsAdd(tail, 0, f.c);
    } else {
      AddEmpty(t);
    }
  }

  /** add_internal: recursion over the tail t[k..k+s], written in place. */
  method AddInternal(t: array<int>, k: nat, s: nat, negative: bool, v: int, c: Trit) returns (code: int)
    requires k + s <= t.Length
    modifies t
    ensures t[k..k + s] == AddDigits(old(t[k..k + s]), negative, v, c).digits
    ensures t[..k] == old(t[..k]) && t[k + s..] == old(t[k + s..])
    ensures code == (var r := AddDigits(old(t[k..k + s]), negative, v, c);
                     if r.addend == 0 && r.carry == 0 then 0 else 1)
    decreases s
  {
    hide TritFullAdd, AddDigits;
    ghost var was := t[k..k + s];
    if v == 0 && c == 0 {
      AddDigitsStop(was, negative, v, c);
      return 0;
    }
    if s == 0 {
      AddDigitsStop(was, negative, v, c);
      return 1;
    }
    AddDigitsStep(was, negative, v, c);
    assert was[1..] == t[k + 1..k + s];
    var trit := TruncMod3(v + 1) - 1;
    if negative {
      trit := -trit;
    }
    var r := TritFullAdd(t[k], trit, c);
    t[k] := r.s;
    assert t[k + 1..k + s] == was[1..];
    code := AddInternal(t, k + 1, s - 1, negative, TruncDiv3(v + 1), r.c);
    assert t[k] == t[..k + 1][k] == r.s;
    assert t[k..k + s] == [r.s] + t[k + 1..k + s];
    assert t[..k] == t[..k + 1][..k];
  }

  /**
   add_assign on s trits. For v >= 0 the return code is 0 exactly when the addend and the sum both fit s trits, and
   then the addition is exact; in every case the new value is the old one plus v modulo 3^s. For v < 0 it never
   subtracts (see NegativeAddend). Digits past s are untouched.
   */
  method AddAssign(t: array<int>, s: nat, v: int) returns (code: int)
    requires s <= t.Length && AreTrits(t[..s])
    modifies t
    ensures t[s..] == old(t[s..])
    ensures code == 0 || code == 1
    ensures v >= 0 ==> AreTrits(t[..s]) && t[..s] == Add(old(t[..s]), v, 0).trits
    ensures v >= 0 ==> (code == 0 <==> v <= Half(s) && Val(old(t[..s])) + v <= Half(s))
    ensures v >= 0 && code == 0 ==> Val(t[..s]) == Val(old(t[..s])) + v
    ensures v >= 0 ==> SameModulo(Val(t[..s]), Val(old(t[..s])) + v, s)
    ensures v < 0 && code == 0 ==> Val(old(t[..s])) + v < Val(t[..s]) <= Val(old(t[..s])) - v
    ensures v < 0 && s > 0 ==> (Val(t[..s]) % 3 == (Val(old(t[..s])) + v) % 3 <==> v % 3 == 0)
    ensures v < 0 ==> var r := AddDigits(old(t[..s]), true, v, 0);
                      t[..s] == r.digits && (code == 0 <==> r.addend == 0 && r.carry == 0)
    ensures v == -1 ==> t[..s] == Add(old(t[..s]), 1, 0).trits
  {
    hide Add, AddDigits, Val, Pow3, Half, SameModulo;
    ghost var was: seq<Trit> := t[..s];
    assert was == t[0..0 + s];
    code := AddInternal(t, 0, s, v < 0, v, 0);
    assert t[..s] == t[0..0 + s];
    if v >= 0 {
      AddDigitsIsAdd(was, v, 0);
      AddMeaning(was, v);
    } else {
      NegativeAddend(was, v);
      MinusOneAddsOne(was);
    }
  }

  // ----- adding two trit arrays in place (add.c:57-64)

  datatype SeqSum = SeqSum(trits: seq<Trit>, carry: Trit)

  function AddSeqs(a: seq<Trit>, b: seq<Trit>): (r: SeqSum)
    requires |a| == |b|
    ensures |r.trits| == |a|
  {
    if |a| == 0 then SeqSum([], 0) else
      var n := |a| - 1;
      var r := AddSeqs(a[..n], b[..n]);
      var f := TritFullAdd(a[n], b[n], r.carry);
      SeqSum(r.trits + [f.s], f.c)
  }

  /** Digit-wise addition loses nothing but the final carry. */
  lemma {:induction false} AddSeqsExact(a: seq<Trit>, b: seq<Trit>)
    requires |a| == |b|
    ensures var r := AddSeqs(a, b);
            Val(a) + Val(b) == Val(r.trits) + Pow3(|a|) * r.carry
  {
    if |a| != 0 {
      var n := |a| - 1;
      AddSeqsExact(a[..n], b[..n]);
      var r := AddSeqs(a[..n], b[..n]);
      var f := TritFullAdd(a[n], b[n], r.carry);
      hide TritFullAdd, Pow3;
      assert a == a[..n] + [a[n]] && b == b[..n] + [b[n]];
      ValAppend(a[..n], [a[n]]);
      ValAppend(b[..n], [b[n]]);
      ValAppend(r.trits, [f.s]);
      assert Val([a[n]]) == a[n] && Val([b[n]]) == b[n] && Val([f.s]) == f.s;
      StepCarry(Pow3(n), a[n], b[n], r.carry, f.s, f.c);
    }
  }

  lemma StepCarry(p: int, a: int, b: int, c: int, s: int, d: int)
    requires a + b + c == s + 3 * d
    ensures p * a + p * b + p * c == p * s + (3 * p) * d
  {
    calc {
      p * a + p * b + p * c;
      p * (a + b + c);
      p * (s + 3 * d);
      p * s + (3 * p) * d;
    }
  }

  lemma AddSeqsMeaning(a: seq<Trit>, b: seq<Trit>)
    requires |a| == |b|
    ensures var r := AddSeqs(a, b).trits;
            && SameModulo(Val(r), Val(a) + Val(b), |a|)
            && (-Half(|a|) <= Val(a) + Val(b) <= Half(|a|) ==> Val(r) == Val(a) + Val(b))
  {
    hide AddSeqs, Val, Pow3, Half;
    var r := AddSeqs(a, b);
    AddSeqsExact(a, b);
    ShiftedSame(Val(r.trits), Val(a) + Val(b), |a|, r.carry);
    ValBound(r.trits);
    UnitMultiples(Pow3(|a|));
    assert r.carry == 1 || r.carry == 0 || r.carry == -1;
  }

  /** add_trits: see AddSeqsMeaning for the value it leaves; the final carry is dropped. Both buffers may be the
      same. */
  method AddTrits(lh: array<Trit>, rh: array<Trit>, len: nat)
    requires len <= lh.Length && len <= rh.Length
    modifies rh
    ensures rh[len..] == old(rh[len..])
    ensures rh[..len] == AddSeqs(old(lh[..len]), old(rh[..len])).trits
  {
    hide TritFullAdd;
    ghost var a, b := lh[..len], rh[..len];
    var c: Trit := 0;
    var i := 0;
    while i < len
      invariant 0 <= i <= len
      invariant forall j :: i <= j < rh.Length ==> rh[j] == old(rh[j])
      invariant forall j :: i <= j < lh.Length ==> lh[j] == old(lh[j])
      invariant AddSeqs(a[..i], b[..i]) == SeqSum(rh[..i], c)
    {
      assert a[..i + 1][..i] == a[..i] && b[..i + 1][..i] == b[..i];
      var r := TritFullAdd(lh[i], rh[i], c);
      rh[i] := r.s;
      c := r.c;
      i := i + 1;
    }
    assert a[..len] == a && b[..len] == b;
  }

  // ----- increment modulo 3^n (ptrit_incr.c:10-16)

  /** Successor with wrap-around: the all-ones sequence becomes all minus ones. */
  function Inc(t: seq<Trit>): (r: seq<Trit>)
    ensures |r| == |t|
  {
    if |t| == 0 then []
    else if t[0] == 1 then [-1] + Inc(t[1..])
    else [t[0] + 1] + t[1..]
  }

  function AllOnes(n: nat): seq<Trit> { seq(n, _ => 1) }

  lemma {:induction false} AllOnesIsMaximal(t: seq<Trit>)
    ensures t == AllOnes(|t|) <==> Val(t) == Half(|t|)
  {
    if |t| != 0 {
      AllOnesIsMaximal(t[1..]);
      ValBound(t[1..]);
      assert AllOnes(|t|)[1..] == AllOnes(|t| - 1);
      assert t == [t[0]] + t[1..];
      assert AllOnes(|t|) == [1] + AllOnes(|t| - 1);
    }
  }

  lemma {:induction false} IncValue(t: seq<Trit>)
    ensures Val(Inc(t)) == if t == AllOnes(|t|) then -Half(|t|) else Val(t) + 1
  {
    if |t| != 0 {
      AllOnesIsMaximal(t);
      AllOnesIsMaximal(t[1..]);
      ValBound(t[1..]);
      IncValue(t[1..]);
      if t[0] == 1 {
        assert ([-1] + Inc(t[1..]))[1..] == Inc(t[1..]);
      } else {
        assert ([t[0] + 1] + t[1..])[1..] == t[1..];
      }
    }
  }

  /** add_assign of 1 and the increment are the same function. */
  lemma {:induction false} AddOneIsInc(t: seq<Trit>)
    ensures Add(t, 1, 0).trits == Inc(t)
  {
    if |t| != 0 {
      var f := TritFullAdd(t[0], 1, 0);
      assert f == if t[0] == 1 then SumCarry(-1, 1) else SumCarry(t[0] + 1, 0);
      AddStep(t, 1, 0);
      AddNothing(t[1..]);
      hide Add, TritFullAdd;
      if t[0] == 1 {
        AddCarryIsInc(t[1..]);
      }
    }
  }

  lemma AddNothing(t: seq<Trit>)
    ensures Add(t, 0, 0).trits == t
  {
  }

  lemma {:induction false} AddCarryIsInc(t: seq<Trit>)
    ensures Add(t, 0, 1).trits == Inc(t)
  {
    if |t| != 0 {
      var f := TritFullAdd(t[0], 0, 1);
      assert f == if t[0] == 1 then SumCarry(-1, 1) else SumCarry(t[0] + 1, 0);
      AddStep(t, 0, 1);
      AddNothing(t[1..]);
      hide Add, TritFullAdd;
      if t[0] == 1 {
        AddCarryIsInc(t[1..]);
      }
    }
  }

  /** k successive increments. */
  function IncBy(t: seq<Trit>, k: nat): (r: seq<Trit>)
    ensures |r| == |t|
  {
    if k == 0 then t else Inc(IncBy(t, k - 1))
  }

  /** k increments add k modulo 3^n, for every starting value and every k. */
  lemma {:induction false} IncByValue(t: seq<Trit>, k: nat)
    ensures SameModulo(Val(IncBy(t, k)), Val(t) + k, |t|)
  {
    var q := IncByQuotient(t, k);
    ShiftedSame(Val(IncBy(t, k)), Val(t) + k, |t|, q);
  }

  lemma {:induction false} IncByQuotient(t: seq<Trit>, k: nat) returns (q: int)
    ensures Val(t) + k == Val(IncBy(t, k)) + Pow3(|t|) * q
  {
    q := 0;
    if k != 0 {
      q := IncByQuotient(t, k - 1);
      var u := IncBy(t, k - 1);
      IncValue(u);
      AllOnesIsMaximal(u);
      if u == AllOnes(|u|) {
        assert Pow3(|t|) * (q + 1) == Pow3(|t|) * q + Pow3(|t|);
        q := q + 1;
      }
    }
  }

  /** Increment turns the leading ones into minus ones and bumps the first other trit. */
  lemma {:induction false} IncShape(t: seq<Trit>, k: nat)
    requires k <= |t| && forall i :: 0 <= i < k ==> t[i] == 1
    ensures forall i :: 0 <= i < k ==> Inc(t)[i] == -1
    ensures k < |t| && t[k] != 1 ==> Inc(t)[k] == t[k] + 1 && Inc(t)[k + 1..] == t[k + 1..]
  {
    if k != 0 {
      IncShape(t[1..], k - 1);
      assert Inc(t)[1..] == Inc(t[1..]);
      forall i | 1 <= i < k ensures Inc(t)[i] == -1 {
        assert Inc(t)[i] == Inc(t[1..])[i - 1];
      }
      if k < |t| && t[k] != 1 {
        assert Inc(t)[k + 1..] == Inc(t[1..])[k..];
        assert t[k + 1..] == t[1..][k..];
      }
    }
  }

  /** trits_inc: the pointer-walking loop. */
  method TritsInc(n: nat, t: array<Trit>)
    requires n <= t.Length
    modifies t
    ensures t[..n] == Inc(old(t[..n])) && t[n..] == old(t[n..])
  {
    var k := 0;
    ghost var was := t[..n];
    while k < n
      invariant 0 <= k <= n
      invariant forall i :: 0 <= i < k ==> was[i] == 1 && t[i] == -1
      invariant forall i :: k <= i < t.Length ==> t[i] == old(t[i])
    {
      if t[k] == 1 {
        t[k] := -1;
        k := k + 1;
      } else {
        IncShape(was, k);
        t[k] := t[k] + 1;
        ghost var goal := Inc(was);
        forall i | k < i < n ensures t[i] == goal[i] {
          assert goal[i] == goal[k + 1..][i - k - 1] == was[k + 1..][i - k - 1];
        }
        assert t[..n] == goal;
        assert t[n..] == old(t[n..]);
        return;
      }
    }
    IncShape(was, n);
    assert t[..n] == Inc(was);
  }
}
