/**
 Bit-sliced trits (common/trinary/ptrit.c, common/trinary/ptrit_incr.c). A ptrit
 holds one trit per lane in two machine words; words are modelled as sequences
 of bits of any width, both bit encodings are covered.
 */
module Ptrits {
  import opened Arith
  import opened Ternary

  // ----- words

  type Word = seq<bool>

  function Xor(a: Word, b: Word): (r: Word)
    requires |a| == |b|
    ensures |r| == |a| && forall i :: 0 <= i < |a| ==> r[i] == (a[i] != b[i])
  {
    seq(|a|, i requires 0 <= i < |a| => a[i] != b[i])
  }

  function And(a: Word, b: Word): (r: Word)
    requires |a| == |b|
    ensures |r| == |a| && forall i :: 0 <= i < |a| ==> r[i] == (a[i] && b[i])
  {
    seq(|a|, i requires 0 <= i < |a| => a[i] && b[i])
  }

  function Not(a: Word): (r: Word)
    ensures |r| == |a| && forall i :: 0 <= i < |a| ==> r[i] == !a[i]
  {
    seq(|a|, i requires 0 <= i < |a| => !a[i])
  }

  /** The C macro ANDN(x, y): complement of x, and y. */
  function AndNot(a: Word, b: Word): Word
    requires |a| == |b|
  {
    And(Not(a), b)
  }

  /** The test on the first byte of a word: its eight low bits. */
  predicate FirstByteZero(w: Word) { forall i :: 0 <= i < |w| && i < 8 ==> !w[i] }

  // ----- lanes

  datatype Encoding = AndnEncoding | OrnEncoding

  /** A lane holds a trit or the fourth bit pattern, not-a-trit. */
  datatype Lane = NaT | T(t: Trit)

  datatype Ptrit = Ptrit(low: Word, high: Word)

  predicate Wide(p: Ptrit, width: nat) { |p.low| == width && |p.high| == width }

  function Decode(enc: Encoding, low: bool, high: bool): Lane
  {
    match enc
    case AndnEncoding => if low then (if high then T(0) else T(-1)) else if high then T(1) else NaT
    case OrnEncoding => if low then (if high then T(1) else NaT) else if high then T(0) else T(-1)
  }

  /** ptrit_get, with NaT for the fourth pattern. */
  function Get(enc: Encoding, p: Ptrit, i: nat): Lane
    requires i < |p.low| && i < |p.high|
  {
    Decode(enc, p.low[i], p.high[i])
  }

  function Encode(enc: Encoding, t: Trit): (bool, bool)
  {
    match enc
    case AndnEncoding => (t != 1, t != -1)
    case OrnEncoding => (t == 1, t != -1)
  }

  /** ptrit_set. */
  function Set(enc: Encoding, p: Ptrit, i: nat, t: Trit): (r: Ptrit)
    requires i < |p.low| && i < |p.high|
    ensures |r.low| == |p.low| && |r.high| == |p.high|
    ensures Get(enc, r, i) == T(t)
    ensures forall j :: 0 <= j < |p.low| && j < |p.high| && j != i ==> Get(enc, r, j) == Get(enc, p, j)
  {
    Ptrit(p.low[i := Encode(enc, t).0], p.high[i := Encode(enc, t).1])
  }

  // ----- incrementing one ptrit (ptrit_incr.c:36-60)

  datatype Incremented = Incremented(p: Ptrit, carry: Word)

  function IncPtrit(enc: Encoding, p: Ptrit): (r: Incremented)
    requires |p.low| == |p.high|
    ensures Wide(r.p, |p.low|) && |r.carry| == |p.low|
  {
    match enc
    case AndnEncoding =>
      var low := Xor(p.low, p.high);
      Incremented(Ptrit(low, p.low), AndNot(p.low, low))
    case OrnEncoding =>
      Incremented(Ptrit(Xor(p.low, p.high), Not(p.low)), And(p.low, p.high))
  }

  function IncLane(l: Lane): Lane
  {
    match l
    case NaT => NaT
    case T(t) => if t == 1 then T(-1) else T(t + 1)
  }

  /** In both encodings every lane is incremented on its own, NaT stays NaT, and the carry marks the +1 lanes. */
  lemma IncPtritLane(enc: Encoding, p: Ptrit, i: nat)
    requires |p.low| == |p.high| && i < |p.low|
    ensures Get(enc, IncPtrit(enc, p).p, i) == IncLane(Get(enc, p, i))
    ensures IncPtrit(enc, p).carry[i] <==> Get(enc, p, i) == T(1)
  {
  }

  // ----- homogeneous increment

  ghost predicate AllWide(t: seq<Ptrit>, width: nat) { forall k :: 0 <= k < |t| ==> Wide(t[k], width) }

  /** The two words of every ptrit have the same width. */
  predicate Paired(t: seq<Ptrit>) { forall k :: 0 <= k < |t| ==> |t[k].low| == |t[k].high| }

  datatype Outcome = Outcome(t: seq<Ptrit>, overflow: int)

  /** What ptrit_hincr leaves: it goes on to the next ptrit only while the first byte of the carry is set. */
  function Hincr(enc: Encoding, t: seq<Ptrit>): (r: Outcome)
    requires Paired(t)
    ensures |r.t| == |t|
  {
    if |t| == 0 then Outcome([], 1) else
      var r := IncPtrit(enc, t[0]);
      if FirstByteZero(r.carry) then Outcome([r.p] + t[1..], 0)
      else
        var rest := Hincr(enc, t[1..]);
        Outcome([r.p] + rest.t, rest.overflow)
  }

  lemma HincrAt(enc: Encoding, t: seq<Ptrit>, k: nat)
    requires Paired(t) && k < |t|
    ensures Paired(t[k..]) && Paired(t[k + 1..]) && |t[k].low| == |t[k].high|
    ensures var r, h, rest := IncPtrit(enc, t[k]), Hincr(enc, t[k..]), Hincr(enc, t[k + 1..]);
            && h.t[0] == r.p
            && (if FirstByteZero(r.carry) then h.t[1..] == t[k + 1..] && h.overflow == 0
                else h.t[1..] == rest.t && h.overflow == rest.overflow)
  {
    hide IncPtrit, FirstByteZero;
    assert t[k..][1..] == t[k + 1..] && t[k..][0] == t[k];
  }

  /** ptrit_hincr. */
  method PtritHincr(enc: Encoding, t: array<Ptrit>, n: nat) returns (overflow: int)
    requires n <= t.Length && Paired(t[..n])
    modifies t
    ensures t[..n] == Hincr(enc, old(t[..n])).t && overflow == Hincr(enc, old(t[..n])).overflow
    ensures forall j :: n <= j < t.Length ==> t[j] == old(t[j])
  {
    hide IncPtrit, FirstByteZero, Hincr, Paired;
    ghost var was := t[..n];
    ghost var goal := Hincr(enc, was);
    assert was[0..] == was && goal.t[0..] == goal.t;
    var k := 0;
    while k < n
      invariant 0 <= k <= n && Paired(was[k..])
      invariant forall j :: k <= j < t.Length ==> t[j] == old(t[j])
      invariant forall j :: 0 <= j < k ==> t[j] == goal.t[j]
      invariant goal.t[k..] == Hincr(enc, was[k..]).t && goal.overflow == Hincr(enc, was[k..]).overflow
    {
      HincrAt(enc, was, k);
      assert goal.t[k..][0] == goal.t[k] && goal.t[k..][1..] == goal.t[k + 1..];
      var r := IncPtrit(enc, t[k]);
      t[k] := r.p;
      if FirstByteZero(r.carry) {
        forall j | k < j < n ensures t[j] == goal.t[j] {
          assert goal.t[j] == goal.t[k + 1..][j - k - 1] == was[k + 1..][j - k - 1];
        }
        return 0;
      }
      k := k + 1;
    }
    HincrEmpty(enc, was[n..]);
    return 1;
  }

  lemma HincrEmpty(enc: Encoding, t: seq<Ptrit>)
    requires |t| == 0
    ensures Paired(t) && Hincr(enc, t) == Outcome([], 1)
  {
  }

  /** All live lanes of t hold the scalar v; the other lanes hold NaT throughout. */
  ghost predicate Holds(enc: Encoding, t: seq<Ptrit>, live: seq<bool>, v: seq<Trit>)
  {
    |t| == |v| && AllWide(t, |live|) &&
    forall k, i :: 0 <= k < |t| && 0 <= i < |live| ==> Get(enc, t[k], i) == if live[i] then T(v[k]) else NaT
  }

  ghost predicate LiveInFirstByte(live: seq<bool>) { exists i :: 0 <= i < |live| && i < 8 && live[i] }

  lemma HoldsTail(enc: Encoding, t: seq<Ptrit>, live: seq<bool>, v: seq<Trit>)
    requires Holds(enc, t, live, v) && |t| > 0
    ensures Holds(enc, t[1..], live, v[1..])
  {
    hide Get;
  }

  lemma HoldsCons(enc: Encoding, p: Ptrit, t: seq<Ptrit>, live: seq<bool>, x: Trit, v: seq<Trit>)
    requires Holds(enc, t, live, v) && Holds(enc, [p], live, [x])
    ensures Holds(enc, [p] + t, live, [x] + v)
  {
    hide Get;
    var s := [p] + t;
    forall k, i | 0 <= k < |s| && 0 <= i < |live|
      ensures Get(enc, s[k], i) == if live[i] then T(([x] + v)[k]) else NaT
    {
      if k == 0 {
        assert Get(enc, [p][0], i) == if live[i] then T([x][0]) else NaT;
      } else {
        assert Get(enc, t[k - 1], i) == if live[i] then T(v[k - 1]) else NaT;
      }
    }
    forall k | 0 <= k < |s| ensures Wide(s[k], |live|) {
      if k == 0 {
        assert Wide([p][0], |live|);
      }
    }
  }

  /** One ptrit of a homogeneous counter: the digit is incremented; the carry is the +1 digit on live lanes. */
  lemma IncHomogeneous(enc: Encoding, p: Ptrit, live: seq<bool>, x: Trit)
    requires Holds(enc, [p], live, [x])
    ensures |p.low| == |p.high| && Holds(enc, [IncPtrit(enc, p).p], live, [if x == 1 then -1 else x + 1])
    ensures FirstByteZero(IncPtrit(enc, p).carry) <==> x != 1 || !LiveInFirstByte(live)
  {
    assert Wide([p][0], |live|);
    var r := IncPtrit(enc, p);
    hide IncPtrit, Decode;
    forall i | 0 <= i < |live|
      ensures Get(enc, r.p, i) == if live[i] then T(if x == 1 then -1 else x + 1) else NaT
      ensures r.carry[i] <==> live[i] && x == 1
    {
      assert Get(enc, [p][0], i) == if live[i] then T([x][0]) else NaT;
      IncPtritLane(enc, p, i);
    }
  }

  /**
   ptrit_hincr refines the scalar increment on every live lane, keeps NaT lanes and
   homogeneity, and reports overflow exactly on wrap-around, provided one of the
   first eight lanes is live.
   */
  lemma {:induction false} HincrRefines(enc: Encoding, t: seq<Ptrit>, live: seq<bool>, v: seq<Trit>)
    requires Holds(enc, t, live, v) && LiveInFirstByte(live)
    ensures Paired(t)
    ensures Holds(enc, Hincr(enc, t).t, live, Inc(v))
    ensures Hincr(enc, t).overflow == if v == AllOnes(|v|) then 1 else 0
  {
    hide Get, IncPtrit, FirstByteZero, Holds, LiveInFirstByte, AllOnes;
    HoldsPaired(enc, t, live, v);
    if |t| == 0 {
      AllOnesLength(0);
      assert v == AllOnes(0) && Inc(v) == v;
    } else {
      HoldsTail(enc, t, live, v);
      HoldsHead(enc, t, live, v);
      IncHomogeneous(enc, t[0], live, v[0]);
      AllOnesCons(v);
      var r := IncPtrit(enc, t[0]);
      if v[0] == 1 {
        HincrRefines(enc, t[1..], live, v[1..]);
        HoldsCons(enc, r.p, Hincr(enc, t[1..]).t, live, -1, Inc(v[1..]));
      } else {
        HoldsCons(enc, r.p, t[1..], live, v[0] + 1, v[1..]);
      }
    }
  }

  lemma HoldsPaired(enc: Encoding, t: seq<Ptrit>, live: seq<bool>, v: seq<Trit>)
    requires Holds(enc, t, live, v)
    ensures Paired(t) && |t| == |v|
  {
    hide Get;
    assert forall k :: 0 <= k < |t| ==> Wide(t[k], |live|);
  }

  lemma HoldsHead(enc: Encoding, t: seq<Ptrit>, live: seq<bool>, v: seq<Trit>)
    requires Holds(enc, t, live, v) && |t| > 0
    ensures Holds(enc, [t[0]], live, [v[0]])
  {
    hide Get;
  }

  lemma AllOnesLength(n: nat)
    ensures |AllOnes(n)| == n
  {
  }

  lemma AllOnesCons(v: seq<Trit>)
    requires |v| > 0
    ensures v == AllOnes(|v|) <==> v[0] == 1 && v[1..] == AllOnes(|v| - 1)
  {
    assert v == [v[0]] + v[1..];
    assert AllOnes(|v|) == [1] + AllOnes(|v| - 1);
  }

  /**
   Without a live lane in the first byte the counter stops after its first digit.
   So on a counter with at least one live lane the refinement holds exactly when
   the first byte has a live lane, or there is no digit, or the first digit does
   not carry.
   */
  lemma HincrExactly(enc: Encoding, t: seq<Ptrit>, live: seq<bool>, v: seq<Trit>, lane: nat)
    requires Holds(enc, t, live, v) && lane < |live| && live[lane]
    ensures Paired(t)
    ensures (Holds(enc, Hincr(enc, t).t, live, Inc(v))
              && Hincr(enc, t).overflow == (if v == AllOnes(|v|) then 1 else 0))
            <==> (LiveInFirstByte(live) || |v| == 0 || v[0] != 1)
  {
    hide IncPtrit, FirstByteZero, Decode;
    assert forall k :: 0 <= k < |t| ==> Wide(t[k], |live|);
    if LiveInFirstByte(live) {
      HincrRefines(enc, t, live, v);
    } else if |v| == 0 {
      assert v == AllOnes(0) && Hincr(enc, t).t == [];
    } else {
      HoldsTail(enc, t, live, v);
      HoldsHead(enc, t, live, v);
      IncHomogeneous(enc, t[0], live, v[0]);
      AllOnesCons(v);
      var r := IncPtrit(enc, t[0]);
      assert Hincr(enc, t) == Outcome([r.p] + t[1..], 0);
      if v[0] != 1 {
        HoldsCons(enc, r.p, t[1..], live, v[0] + 1, v[1..]);
      } else if |v| > 1 {
        StuckAfterFirstDigit(enc, t, r.p, live, v, lane);
      }
    }
  }

  lemma StuckAfterFirstDigit(enc: Encoding, t: seq<Ptrit>, p: Ptrit, live: seq<bool>, v: seq<Trit>, lane: nat)
    requires Holds(enc, t, live, v) && lane < |live| && live[lane] && |v| > 1 && v[0] == 1
    ensures !Holds(enc, [p] + t[1..], live, Inc(v))
  {
    hide Decode;
    var s := [p] + t[1..];
    assert s[1] == t[1];
    assert Wide(t[1], |live|);
    assert Get(enc, t[1], lane) == T(v[1]);
    assert Inc(v)[1] == Inc(v[1..])[0] != v[1];
    assert Get(enc, s[1], lane) == T(v[1]) != T(Inc(v)[1]);
  }

  /** A one-digit counter of nine lanes at the digit 1, of which only the last is live. */
  function LastLaneOnly(enc: Encoding): (t: seq<Ptrit>)
    ensures |t| == 1 && Paired(t)
  {
    [Ptrit(seq(9, _ => enc == OrnEncoding), seq(9, i => i == 8))]
  }

  /** It wraps without reporting the overflow. */
  lemma FirstByteWitness(enc: Encoding)
    ensures var t, live := LastLaneOnly(enc), seq(9, i => i == 8);
            Holds(enc, t, live, [1]) && Hincr(enc, t).overflow == 0 && Inc([1]) == [-1]
  {
    var t, live := LastLaneOnly(enc), seq(9, i => i == 8);
    assert Holds(enc, t, live, [1]);
    hide IncPtrit, FirstByteZero, Get, LastLaneOnly;
    assert [t[0]] == t && !LiveInFirstByte(live);
    IncHomogeneous(enc, t[0], live, 1);
  }

  // ----- counting through all values

  /** k successive calls. */
  ghost function HincrTimes(enc: Encoding, t: seq<Ptrit>, live: seq<bool>, v: seq<Trit>, k: nat): (r: seq<Ptrit>)
    requires Holds(enc, t, live, v) && LiveInFirstByte(live)
    ensures Holds(enc, r, live, IncBy(v, k)) && Paired(r)
  {
    if k == 0 then
      HincrRefines(enc, t, live, v);
      t
    else
      var s := HincrTimes(enc, t, live, v, k - 1);
      HincrRefines(enc, s, live, IncBy(v, k - 1));
      HincrRefines(enc, Hincr(enc, s).t, live, IncBy(v, k));
      Hincr(enc, s).t
  }

  function AllMinusOnes(n: nat): seq<Trit> { seq(n, _ => -1) }

  lemma {:induction false} AllMinusOnesValue(n: nat)
    ensures Val(AllMinusOnes(n)) == -Half(n)
  {
    if n != 0 {
      assert AllMinusOnes(n)[1..] == AllMinusOnes(n - 1);
      AllMinusOnesValue(n - 1);
    }
  }

  /** From the all-minimum state, call number k + 1 overflows exactly when 3^n divides k + 1. */
  lemma OverflowPeriod(enc: Encoding, t: seq<Ptrit>, live: seq<bool>, k: nat)
    requires Holds(enc, t, live, AllMinusOnes(|t|)) && LiveInFirstByte(live)
    ensures Hincr(enc, HincrTimes(enc, t, live, AllMinusOnes(|t|), k)).overflow == 1 <==> (k + 1) % Pow3(|t|) == 0
  {
    hide Hincr, Holds, Pow3, Half, IncBy, HincrTimes, AllOnes, Val;
    var n := |t|;
    var v := AllMinusOnes(n);
    HincrRefines(enc, HincrTimes(enc, t, live, v, k), live, IncBy(v, k));
    AllMinusOnesValue(n);
    WrapsAt(v, k);
  }

  lemma WrapsAt(v: seq<Trit>, k: nat)
    requires Val(v) == -Half(|v|)
    ensures IncBy(v, k) == AllOnes(|v|) <==> (k + 1) % Pow3(|v|) == 0
  {
    hide Pow3, Half, IncBy, AllOnes, Val;
    var n, p := |v|, Pow3(|v|);
    var u := IncBy(v, k);
    var q := IncByQuotient(v, k);
    AllOnesIsMaximal(u);
    ValBound(u);
    assert k + 1 == (Val(u) + Half(n) + 1) + p * q;
    if u == AllOnes(n) {
      assert k + 1 == p * (q + 1);
      DivisionIs(k + 1, p, q + 1, 0);
    } else {
      DivisionIs(k + 1, p, q, Val(u) + Half(n) + 1);
    }
  }

  // ----- filling the lanes with consecutive values (ptrit_incr.c:18-31)

  /** Lane i of every ptrit spells out the scalar v. */
  ghost predicate LaneHolds(enc: Encoding, t: seq<Ptrit>, i: nat, v: seq<Trit>)
  {
    |t| == |v| &&
    forall k :: 0 <= k < |t| ==> i < |t[k].low| && i < |t[k].high| && Get(enc, t[k], i) == T(v[k])
  }

  /** ptrits_set_slice: write one lane of every ptrit. */
  method SetSlice(enc: Encoding, range: array<Ptrit>, i: nat, src: array<Trit>, width: nat)
    requires range.Length == src.Length && i < width && AllWide(range[..], width)
    modifies range
    ensures AllWide(range[..], width) && LaneHolds(enc, range[..], i, src[..])
    ensures forall m :: 0 <= m < range.Length ==>
              Wide(old(range[m]), width) && range[m] == Set(enc, old(range[m]), i, src[m])
    ensures forall j: nat, v: seq<Trit> :: j != i && LaneHolds(enc, old(range[..]), j, v) ==>
              LaneHolds(enc, range[..], j, v)
  {
    hide Decode, Encode;
    ghost var was := range[..];
    for k := 0 to range.Length
      invariant forall m :: 0 <= m < range.Length ==> Wide(range[m], width)
      invariant forall m :: 0 <= m < k ==> Wide(was[m], width) && range[m] == Set(enc, was[m], i, src[m])
      invariant forall m :: k <= m < range.Length ==> range[m] == was[m]
    {
      range[k] := Set(enc, range[k], i, src[k]);
    }
    ghost var now := range[..];
    hide Set, Get;
    forall j: nat, v: seq<Trit> | j != i && LaneHolds(enc, was, j, v) ensures LaneHolds(enc, now, j, v) {
      OtherLaneKept(enc, was, now, i, src[..], width, j, v);
    }
  }

  lemma OtherLaneKept(enc: Encoding, was: seq<Ptrit>, now: seq<Ptrit>, i: nat, src: seq<Trit>, width: nat, j: nat,
                      v: seq<Trit>)
    requires |was| == |now| == |src| && i < width && j != i && LaneHolds(enc, was, j, v)
    requires forall m :: 0 <= m < |was| ==>
               Wide(was[m], width) && Wide(now[m], width) && now[m] == Set(enc, was[m], i, src[m])
    ensures LaneHolds(enc, now, j, v)
  {
    hide Decode, Encode;
    forall k | 0 <= k < |now| ensures Wide(now[k], width) && j < width && Get(enc, now[k], j) == T(v[k]) {
      assert Get(enc, was[k], j) == T(v[k]);
    }
  }

  /**
   ptrit_set_iota: lane i receives the value plus i modulo 3^n, and the value ends
   up increased by the number of lanes.
   */
  method SetIota(enc: Encoding, range: array<Ptrit>, value: array<Trit>, width: nat)
    requires range.Length == value.Length && AllWide(range[..], width)
    modifies range, value
    ensures AllWide(range[..], width)
    ensures forall i :: 0 <= i < width ==> LaneHolds(enc, range[..], i, IncBy(old(value[..]), i))
    ensures value[..] == IncBy(old(value[..]), width)
  {
    hide LaneHolds, AllWide, Inc;
    ghost var v := value[..];
    for i := 0 to width
      invariant AllWide(range[..], width) && value[..] == IncBy(v, i)
      invariant forall j :: 0 <= j < i ==> LaneHolds(enc, range[..], j, IncBy(v, j))
    {
      SetSlice(enc, range, i, value, width);
      assert value[..value.Length] == value[..];
      TritsInc(value.Length, value);
      assert value[..value.Length] == value[..];
    }
  }

  /** ptrit_log3: the least exponent whose power of three reaches n. */
  method Log3(n: nat) returns (k: nat)
    ensures Pow3(k) >= n && forall j :: 0 <= j < k ==> Pow3(j) < n
  {
    k := 0;
    var g := 1;
    while g < n
      invariant g == Pow3(k) && forall j :: 0 <= j < k ==> Pow3(j) < n
      decreases n - g
    {
      k, g := k + 1, g * 3;
    }
  }

  lemma {:induction false} Pow3Monotone(a: nat, b: nat)
    requires a <= b
    ensures Pow3(a) <= Pow3(b)
    decreases b
  {
    if a < b {
      Pow3Monotone(a, b - 1);
    }
  }

  /** With at least log3(width) trits all lanes hold different values. */
  lemma LanesDistinct(v: seq<Trit>, width: nat, log: nat, i: nat, j: nat)
    requires Pow3(log) >= width && log <= |v| && i < j < width
    ensures IncBy(v, i) != IncBy(v, j)
  {
    hide Pow3, IncBy, Val;
    Pow3Monotone(log, |v|);
    var p := Pow3(|v|);
    var q := IncByQuotient(v, i);
    var q' := IncByQuotient(v, j);
    if IncBy(v, i) == IncBy(v, j) {
      assert j - i == p * q' - p * q == p * (q' - q);
      SmallMultiple(p, q' - q);
    }
  }
}
