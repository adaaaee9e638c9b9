/**
 Hash normalization (common/crypto/iss/normalize.c): each third of the hash is
 shifted, tryte by tryte, until its trytes sum to zero.
 */
module Normalize {
  import opened Ternary
  import opened TritLong
  import opened Sponges

  const TRYTE_MAX := 13
  const TRYTE_MIN := -13

  predicate InTryteRange(s: seq<int>) { forall i :: 0 <= i < |s| ==> -13 <= s[i] <= 13 }

  /** The value of tryte i of a trit sequence. */
  function TryteVal(t: seq<Trit>, i: nat): (v: int)
    requires 3 * i + 2 < |t|
    ensures -13 <= v <= 13
  {
    (t[3 * i] as int) + 3 * (t[3 * i + 1] as int) + 9 * (t[3 * i + 2] as int)
  }

  function TryteVals(t: seq<Trit>): (r: seq<int>)
    ensures |r| == |t| / 3 && InTryteRange(r)
  {
    seq(|t| / 3, i requires 0 <= i < |t| / 3 => TryteVal(t, i))
  }

  function Sum(s: seq<int>): int
  {
    if |s| == 0 then 0 else s[0] + Sum(s[1..])
  }

  /** Add d (1 or -1) to the first entry that is not already at the limit for that direction. */
  function Nudge(s: seq<int>, d: int): (r: seq<int>)
    ensures |r| == |s|
  {
    if |s| == 0 then []
    else if -13 <= s[0] + d <= 13 then [s[0] + d] + s[1..]
    else [s[0]] + Nudge(s[1..], d)
  }

  function NudgeBy(s: seq<int>, d: int, k: nat): (r: seq<int>)
    ensures |r| == |s|
    decreases k
  {
    if k == 0 then s else NudgeBy(Nudge(s, d), d, k - 1)
  }

  function NormalizeFragment(s: seq<int>): (r: seq<int>)
    ensures |r| == |s|
  {
    var sum := Sum(s);
    if sum > 0 then NudgeBy(s, -1, sum) else NudgeBy(s, 1, -sum)
  }

  /** The extreme sums are reached only when every entry is at the limit. */
  lemma {:induction false} SumBound(s: seq<int>)
    requires InTryteRange(s)
    ensures -13 * |s| <= Sum(s) <= 13 * |s|
  {
    if |s| != 0 {
      SumBound(s[1..]);
    }
  }

  /** A nudge changes the sum by exactly d, unless every entry is at the limit. */
  lemma {:induction false} NudgeSum(s: seq<int>, d: int)
    requires InTryteRange(s) && (d == 1 || d == -1)
    requires d == 1 ==> Sum(s) < 13 * |s|
    requires d == -1 ==> Sum(s) > -13 * |s|
    ensures InTryteRange(Nudge(s, d)) && Sum(Nudge(s, d)) == Sum(s) + d
  {
    if |s| != 0 {
      var r := Nudge(s, d);
      if -13 <= s[0] + d <= 13 {
        assert r[1..] == s[1..];
      } else {
        NudgeSum(s[1..], d);
        assert r[1..] == Nudge(s[1..], d);
      }
    }
  }

  lemma {:induction false} NudgeByBalances(s: seq<int>, d: int, k: nat)
    requires InTryteRange(s) && (d == 1 || d == -1) && Sum(s) + d * k == 0
    ensures InTryteRange(NudgeBy(s, d, k)) && Sum(NudgeBy(s, d, k)) == 0
    decreases k
  {
    if k != 0 {
      SumBound(s);
      if d == 1 {
        assert Sum(s) < 0;
      } else {
        assert Sum(s) > 0;
      }
      NudgeSum(s, d);
      NudgeByBalances(Nudge(s, d), d, k - 1);
    }
  }

  /** Normalization balances a fragment: it sums to zero and its entries stay trytes. */
  lemma NormalizeFragmentBalances(s: seq<int>)
    requires InTryteRange(s)
    ensures InTryteRange(NormalizeFragment(s)) && Sum(NormalizeFragment(s)) == 0
  {
    var sum := Sum(s);
    if sum > 0 {
      NudgeByBalances(s, -1, sum);
    } else {
      NudgeByBalances(s, 1, -sum);
    }
  }

  /** One entry sums to itself, and the sums of two parts add up. */
  lemma {:induction false} SumAppend(a: seq<int>, b: seq<int>)
    ensures |a| == 1 ==> Sum(a) == a[0]
    ensures Sum(a + b) == Sum(a) + Sum(b)
  {
    if |a| == 0 {
      assert a + b == b;
    } else {
      assert (a + b)[1..] == a[1..] + b;
      SumAppend(a[1..], b);
    }
  }

  /** The same trytes, or all smaller ones sum to less. */
  lemma {:induction false} SumMonotone(a: seq<int>, b: seq<int>)
    requires |a| == |b| && forall i :: 0 <= i < |a| ==> a[i] <= b[i]
    ensures Sum(a) <= Sum(b) && (Sum(a) == Sum(b) ==> a == b)
  {
    if |a| != 0 {
      SumMonotone(a[1..], b[1..]);
      assert a == [a[0]] + a[1..] && b == [b[0]] + b[1..];
    }
  }

  /** r arises from s by moving entries in direction d, up to entry j: the entries before j have reached the limit,
      the entries after j are untouched. */
  ghost predicate MovedUpTo(s: seq<int>, r: seq<int>, d: int, j: nat)
  {
    && |r| == |s| && j < |s|
    && (forall i :: 0 <= i < j ==> r[i] == 13 * d)
    && d * s[j] <= d * r[j]
    && (forall i :: j < i < |s| ==> r[i] == s[i])
  }

  lemma MovedTwice(s: seq<int>, u: seq<int>, r: seq<int>, d: int, j: nat, k: nat) returns (m: nat)
    requires (d == 1 || d == -1) && MovedUpTo(s, u, d, j) && MovedUpTo(u, r, d, k) && InTryteRange(r)
    ensures MovedUpTo(s, r, d, m)
  {
    m := if j < k then k else j;
    if k < j {
      assert -13 <= r[k] <= 13 && u[k] == 13 * d;
    }
  }

  lemma {:induction false} NudgeMoves(s: seq<int>, d: int) returns (j: nat)
    requires InTryteRange(s) && (d == 1 || d == -1) && |s| > 0
    ensures InTryteRange(Nudge(s, d)) && MovedUpTo(s, Nudge(s, d), d, j)
  {
    j := 0;
    if -13 <= s[0] + d <= 13 {
      assert Nudge(s, d) == s[0 := s[0] + d];
    } else if |s| == 1 {
      assert Nudge(s, d) == s;
    } else {
      var l := NudgeMoves(s[1..], d);
      MovedCons(s, Nudge(s[1..], d), d, l);
      j := l + 1;
    }
  }

  lemma MovedCons(s: seq<int>, r: seq<int>, d: int, j: nat)
    requires |s| > 0 && s[0] == 13 * d && MovedUpTo(s[1..], r, d, j)
    ensures MovedUpTo(s, [s[0]] + r, d, j + 1)
  {
    var q := [s[0]] + r;
    assert q[1..] == r && s[j + 1] == s[1..][j];
    forall i | j + 1 < i < |s| ensures q[i] == s[i] {
      assert q[i] == r[i - 1] == s[1..][i - 1];
    }
  }

  lemma {:induction false} NudgeByMoves(s: seq<int>, d: int, k: nat) returns (j: nat)
    requires InTryteRange(s) && (d == 1 || d == -1) && |s| > 0
    ensures InTryteRange(NudgeBy(s, d, k)) && MovedUpTo(s, NudgeBy(s, d, k), d, j)
    decreases k
  {
    j := 0;
    if k != 0 {
      var u := Nudge(s, d);
      j := NudgeMoves(s, d);
      var l := NudgeByMoves(u, d, k - 1);
      hide Nudge, NudgeBy;
      j := MovedTwice(s, u, NudgeBy(u, d, k - 1), d, j, l);
    }
  }

  /** The direction in which normalization moves the entries. */
  function Direction(s: seq<int>): int { if Sum(s) > 0 then -1 else 1 }

  ghost predicate Moved(s: seq<int>, r: seq<int>, d: int) { exists j: nat :: MovedUpTo(s, r, d, j) }

  /** Two such results with one sum are the same. */
  lemma MovedIsUnique(s: seq<int>, r: seq<int>, q: seq<int>, d: int)
    requires (d == 1 || d == -1) && InTryteRange(s) && InTryteRange(r) && InTryteRange(q)
    requires Moved(s, r, d) && Moved(s, q, d) && Sum(r) == Sum(q)
    ensures r == q
  {
    var j: nat :| MovedUpTo(s, r, d, j);
    var k: nat :| MovedUpTo(s, q, d, k);
    if j <= k {
      MovedComparable(s, r, q, d, j, k);
    } else {
      MovedComparable(s, q, r, d, k, j);
    }
    hide MovedUpTo, Moved, Sum;
    if AtMost(r, q) {
      SumMonotone(r, q);
    } else {
      SumMonotone(q, r);
    }
  }

  ghost predicate AtMost(a: seq<int>, b: seq<int>)
  {
    |a| == |b| && forall i :: 0 <= i < |a| ==> a[i] <= b[i]
  }

  /** The result that has moved further is beyond the other one everywhere. */
  lemma MovedComparable(s: seq<int>, r: seq<int>, q: seq<int>, d: int, j: nat, k: nat)
    requires (d == 1 || d == -1) && InTryteRange(r) && j <= k
    requires MovedUpTo(s, r, d, j) && MovedUpTo(s, q, d, k)
    ensures AtMost(r, q) || AtMost(q, r)
  {
    if j < k {
      forall i | 0 <= i < |s| ensures d * r[i] <= d * q[i] {
        assert -13 <= r[i] <= 13;
      }
    } else {
      forall i | 0 <= i < |s| && i != j ensures r[i] == q[i] {
      }
    }
    if d == 1 {
      assert j < k ==> AtMost(r, q);
    } else {
      assert j < k ==> AtMost(q, r);
    }
    assert j == k && r[j] <= q[j] ==> AtMost(r, q);
    assert j == k && q[j] <= r[j] ==> AtMost(q, r);
  }

  /**
   What normalizing a fragment gives, without the loops: entries are moved in one direction only, from the front, each
   to its limit before the next one, until the sum is zero. This determines the result.
   */
  lemma NormalizeFragmentIff(s: seq<int>, r: seq<int>)
    requires InTryteRange(s) && |s| > 0
    ensures r == NormalizeFragment(s) <==> InTryteRange(r) && Sum(r) == 0 && Moved(s, r, Direction(s))
  {
    hide NudgeBy, Sum, MovedUpTo;
    var n := NormalizeFragment(s);
    NormalizeFragmentBalances(s);
    var j := NudgeByMoves(s, Direction(s), if Sum(s) > 0 then Sum(s) else -Sum(s));
    assert Moved(s, n, Direction(s));
    if InTryteRange(r) && Sum(r) == 0 && Moved(s, r, Direction(s)) {
      MovedIsUnique(s, r, n, Direction(s));
    }
  }

  /** In particular a balanced fragment is left alone. */
  lemma BalancedIsKept(s: seq<int>)
    requires Sum(s) == 0
    ensures NormalizeFragment(s) == s
  {
  }

  /** normalize_hash as a function of the hash: three fragments of 27 trytes. */
  function NormalizeHash(hash: Hash): (r: seq<int>)
    requires |hash.trits| == HASH_LENGTH
    ensures |r| == 81
  {
    var t := TryteVals(hash.trits);
    NormalizeFragment(t[..27]) + NormalizeFragment(t[27..54]) + NormalizeFragment(t[54..])
  }

  /** Tryte i of a hash is the value of its three trits, and fragment k of the normalized hash normalizes trytes
      27k..27k+27. */
  lemma NormalizeHashFragments(hash: Hash, k: nat)
    requires |hash.trits| == HASH_LENGTH && k < 3
    ensures var t := TryteVals(hash.trits);
            && NormalizeHash(hash)[27 * k..27 * k + 27] == NormalizeFragment(t[27 * k..27 * k + 27])
            && forall i :: 0 <= i < 81 ==> t[i] == Val(hash.trits[3 * i..3 * i + 3])
  {
    hide NormalizeFragment;
    var t := TryteVals(hash.trits);
    forall i | 0 <= i < 81 ensures t[i] == Val(hash.trits[3 * i..3 * i + 3]) {
      TryteIsValue(hash.trits, i);
    }
    var r := NormalizeHash(hash);
    assert r[..27] == NormalizeFragment(t[..27]) && r[27..54] == NormalizeFragment(t[27..54]);
    assert r[54..] == NormalizeFragment(t[54..]) && t[54..81] == t[54..] && r[54..81] == r[54..];
    assert t[0..27] == t[..27] && r[0..27] == r[..27];
  }

  lemma TryteIsValue(t: seq<Trit>, i: nat)
    requires 3 * i + 2 < |t|
    ensures TryteVal(t, i) == Val(t[3 * i..3 * i + 3])
  {
    var u := t[3 * i..3 * i + 3];
    hide Val;
    ValStep(u);
    ValStep(u[1..]);
    ValStep(u[1..][1..]);
    EmptyValue(u[1..][1..][1..]);
  }

  /** Every third of a normalized hash is balanced. */
  lemma NormalizeHashBalances(hash: Hash)
    requires |hash.trits| == HASH_LENGTH
    ensures var r := NormalizeHash(hash);
            && InTryteRange(r)
            && Sum(r[..27]) == 0 && Sum(r[27..54]) == 0 && Sum(r[54..]) == 0
  {
    var t := TryteVals(hash.trits);
    NormalizeFragmentBalances(t[..27]);
    NormalizeFragmentBalances(t[27..54]);
    NormalizeFragmentBalances(t[54..]);
    var r := NormalizeHash(hash);
    assert r[..27] == NormalizeFragment(t[..27]);
    assert r[27..54] == NormalizeFragment(t[27..54]);
    assert r[54..] == NormalizeFragment(t[54..]);
    forall i | 0 <= i < 81 ensures -13 <= r[i] <= 13 {
      if i < 27 {
        assert r[i] == r[..27][i];
      } else if i < 54 {
        assert r[i] == r[27..54][i - 27];
      } else {
        assert r[i] == r[54..][i - 54];
      }
    }
  }

  /** normalize_hash_to_trits: each normalized byte as three trits. */
  function NormalizedTrits(hash: Hash): (r: seq<Trit>)
    requires |hash.trits| == HASH_LENGTH
    ensures |r| == HASH_LENGTH
  {
    var b := NormalizeHash(hash);
    seq(HASH_LENGTH, i requires 0 <= i < HASH_LENGTH => ToTrits(b[i / 3], 3)[i % 3])
  }

  lemma ThreeTrits(v: int)
    requires -13 <= v <= 13
    ensures TryteVal(ToTrits(v, 3), 0) == v
  {
    var t := ToTrits(v, 3);
    assert Half(1) == 1 + 3 * Half(0) && Half(2) == 1 + 3 * Half(1) && Half(3) == 1 + 3 * Half(2);
    ToTritsValue(v, 3);
    hide ToTrits;
    assert Val(t) == t[0] + 3 * Val(t[1..]) && Val(t[1..]) == t[1] + 3 * Val(t[1..][1..]);
    assert t[1..][1..] == [t[2]] && Val([t[2]]) == t[2] + 3 * Val([]);
  }

  /** The tryte read back from the normalized trits is the normalized byte. */
  lemma NormalizedTryte(hash: Hash, i: nat)
    requires |hash.trits| == HASH_LENGTH && i < 81
    ensures TryteVal(NormalizedTrits(hash), i) == NormalizeHash(hash)[i]
  {
    hide NormalizeHash, ToTrits, NormalizedTrits;
    NormalizeHashBalances(hash);
    ThreeTrits(NormalizeHash(hash)[i]);
    NormalizedTritAt(hash, i, 0);
    NormalizedTritAt(hash, i, 1);
    NormalizedTritAt(hash, i, 2);
  }

  lemma NormalizedTritAt(hash: Hash, i: nat, k: nat)
    requires |hash.trits| == HASH_LENGTH && i < 81 && k < 3
    ensures NormalizedTrits(hash)[3 * i + k] == ToTrits(NormalizeHash(hash)[i], 3)[k]
  {
    hide NormalizeHash, ToTrits;
    var n := 3 * i + k;
    assert n / 3 == i && n % 3 == k;
  }

  lemma {:induction false} NudgeAt(s: seq<int>, d: int, k: nat)
    requires k <= |s| && forall i :: 0 <= i < k ==> !(-13 <= s[i] + d <= 13)
    ensures k == |s| ==> Nudge(s, d) == s
    ensures k < |s| && -13 <= s[k] + d <= 13 ==> Nudge(s, d) == s[k := s[k] + d]
  {
    if k != 0 {
      NudgeAt(s[1..], d, k - 1);
      assert s == [s[0]] + s[1..];
      if k < |s| && -13 <= s[k] + d <= 13 {
        assert s[k := s[k] + d] == [s[0]] + s[1..][k - 1 := s[k] + d];
      }
    }
  }

  /** The inner for loop of normalize_hash, on one fragment held in an array slice. */
  method NudgeSlice(a: array<int>, lo: nat, hi: nat, d: int)
    requires lo <= hi <= a.Length
    modifies a
    ensures a[lo..hi] == Nudge(old(a[lo..hi]), d)
    ensures a[..lo] == old(a[..lo]) && a[hi..] == old(a[hi..])
  {
    var j := lo;
    ghost var s := a[lo..hi];
    while j < hi
      invariant lo <= j <= hi
      invariant forall i :: 0 <= i < j - lo ==> !(-13 <= s[i] + d <= 13)
    {
      if -13 <= a[j] + d <= 13 {
        NudgeAt(s, d, j - lo);
        a[j] := a[j] + d;
        assert a[lo..hi] == s[j - lo := s[j - lo] + d];
        return;
      }
      j := j + 1;
    }
    NudgeAt(s, d, hi - lo);
  }

  method SumSlice(a: array<int>, lo: nat, hi: nat) returns (sum: int)
    requires lo <= hi <= a.Length
    ensures sum == Sum(a[lo..hi])
  {
    sum := 0;
    var j := lo;
    ghost var s := a[lo..hi];
    while j < hi
      invariant lo <= j <= hi && sum + Sum(s[j - lo..]) == Sum(s)
    {
      assert s[j - lo..][1..] == s[j - lo + 1..];
      sum := sum + a[j];
      j := j + 1;
    }
  }

  /** One iteration of the outer loop of normalize_hash, after the trytes have been read. */
  method NormalizeSlice(a: array<int>, lo: nat, hi: nat)
    requires lo <= hi <= a.Length && InTryteRange(a[lo..hi])
    modifies a
    ensures a[lo..hi] == NormalizeFragment(old(a[lo..hi]))
    ensures a[..lo] == old(a[..lo]) && a[hi..] == old(a[hi..])
  {
    ghost var s := a[lo..hi];
    var sum := SumSlice(a, lo, hi);
    var d := if sum > 0 then -1 else 1;
    while sum != 0
      invariant d == -1 ==> sum >= 0
      invariant d == 1 ==> sum <= 0
      invariant InTryteRange(a[lo..hi]) && Sum(a[lo..hi]) == sum
      invariant NudgeBy(a[lo..hi], d, if sum < 0 then -sum else sum) == NormalizeFragment(s)
      invariant a[..lo] == old(a[..lo]) && a[hi..] == old(a[hi..])
      decreases if sum < 0 then -sum else sum
    {
      SumBound(a[lo..hi]);
      NudgeSum(a[lo..hi], d);
      NudgeSlice(a, lo, hi, d);
      sum := sum + d;
    }
  }

  /** One iteration over the security levels: read 27 trytes of the hash, then balance them. */
  method NormalizeThird(t: seq<Trit>, out: array<int>, lo: nat, hi: nat)
    requires lo <= hi <= out.Length && 3 * hi <= |t|
    modifies out
    ensures out[lo..hi] == NormalizeFragment(TryteVals(t)[lo..hi])
    ensures out[..lo] == old(out[..lo]) && out[hi..] == old(out[hi..])
  {
    hide NormalizeFragment, TryteVal;
    for j := lo to hi
      invariant forall i :: lo <= i < j ==> out[i] == TryteVal(t, i)
      invariant out[..lo] == old(out[..lo]) && forall i :: hi <= i < out.Length ==> out[i] == old(out[i])
    {
      out[j] := TryteVal(t, j);
    }
    assert out[lo..hi] == TryteVals(t)[lo..hi];
    NormalizeSlice(out, lo, hi);
  }

  /** normalize_hash. */
  method NormalizeInto(hash: Hash, out: array<int>)
    requires |hash.trits| == HASH_LENGTH && out.Length == 81
    modifies out
    ensures out[..] == NormalizeHash(hash)
  {
    hide NormalizeFragment, TryteVal;
    ghost var t := TryteVals(hash.trits);
    NormalizeThird(hash.trits, out, 0, 27);
    ghost var a := out[0..27];
    NormalizeThird(hash.trits, out, 27, 54);
    ghost var b := out[27..54];
    assert out[0..27] == a;
    NormalizeThird(hash.trits, out, 54, 81);
    assert out[..54][27..54] == b && out[..54][0..27] == a;
    assert out[..] == a + b + out[54..81];
    assert t[0..27] == t[..27] && t[54..81] == t[54..];
  }
}
