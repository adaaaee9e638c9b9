/**
 The four-trits-per-byte encoding (common/trinary/flex_trit.h,
 common/trinary/flex_trit.c): two bits per trit, lowest slot first.
 */
module PackedTrits {
  import opened Ternary

  // ----- one byte

  /** Arithmetic shift of a byte by six: its two top bits as a signed number. */
  function TopPair(x: bv8): int
  {
    var y := x >> 6;
    if y == 0 then 0 else if y == 1 then 1 else if y == 2 then -2 else -1
  }

  /** The trit in a slot of a byte: shift it to the top, then sign-extend. */
  function SlotGet(b: bv8, slot: nat): int
    requires slot < 4
  {
    if slot == 0 then TopPair(b << 6) else if slot == 1 then TopPair(b << 4)
    else if slot == 2 then TopPair(b << 2) else TopPair(b)
  }

  /** trit & 0x03 */
  function PairOf(t: Trit): bv8 { if t == 0 then 0 else if t == 1 then 1 else 3 }

  /** Blit a trit into a slot of a byte. */
  function SlotSet(b: bv8, slot: nat, t: Trit): bv8
    requires slot < 4
  {
    var p := PairOf(t);
    if slot == 0 then (b & 0xFC) | p else if slot == 1 then (b & 0xF3) | (p << 2)
    else if slot == 2 then (b & 0xCF) | (p << 4) else (b & 0x3F) | (p << 6)
  }

  /** Writing a slot sets that slot and no other. */
  lemma SlotSetGet(b: bv8, i: nat, t: Trit, j: nat)
    requires i < 4 && j < 4
    ensures SlotGet(SlotSet(b, i, t), j) == if i == j then t else SlotGet(b, j)
  {
  }

  lemma NullByte(slot: nat)
    requires slot < 4
    ensures SlotGet(0, slot) == 0
  {
  }

  // ----- a packed buffer

  /** NUM_FLEX_TRITS_FOR_TRITS */
  function BytesFor(trits: nat): nat { (trits + 3) / 4 }

  /** The least number of bytes with room for the trits. */
  lemma BytesForIsLeast(trits: nat, bytes: nat)
    ensures BytesFor(trits) <= bytes <==> trits <= 4 * bytes
  {
  }

  /** The trits a buffer holds. */
  function Unpack(bytes: seq<bv8>, len: nat): (r: seq<int>)
    requires |bytes| == BytesFor(len)
    ensures |r| == len
  {
    seq(len, i requires 0 <= i < len => SlotGet(bytes[i / 4], i % 4))
  }

  /** flex_trits_at: out-of-range reads give 0. */
  method FlexTritsAt(bytes: array<bv8>, len: nat, index: nat) returns (t: int)
    requires bytes.Length == BytesFor(len)
    ensures t == if index < len then Unpack(bytes[..], len)[index] else 0
  {
    hide SlotGet;
    if index >= len {
      return 0;
    }
    t := SlotGet(bytes[index / 4], index % 4);
  }

  /** flex_trits_set_at: the trit at index changes, nothing else does; out-of-range writes do nothing. */
  method FlexTritsSetAt(bytes: array<bv8>, len: nat, index: nat, t: Trit) returns (done: int)
    requires bytes.Length == BytesFor(len)
    modifies bytes
    ensures done == if index < len then 1 else 0
    ensures Unpack(bytes[..], len) == if index < len then Unpack(old(bytes[..]), len)[index := t]
              else Unpack(old(bytes[..]), len)
    ensures forall i :: 0 <= i < bytes.Length && i != index / 4 ==> bytes[i] == old(bytes[i])
    ensures index >= len ==> bytes[..] == old(bytes[..])
  {
    hide SlotSet, Unpack;
    if index >= len {
      return 0;
    }
    WriteIsUpdate(bytes[..], len, index, t);
    bytes[index / 4] := SlotSet(bytes[index / 4], index % 4, t);
    assert bytes[..] == Written(old(bytes[..]), index, t);
    return 1;
  }

  function Written(bytes: seq<bv8>, index: nat, t: Trit): (r: seq<bv8>)
    requires index / 4 < |bytes|
    ensures |r| == |bytes|
  {
    bytes[index / 4 := SlotSet(bytes[index / 4], index % 4, t)]
  }

  /** A write is an update of the plain trit array. */
  lemma WriteIsUpdate(bytes: seq<bv8>, len: nat, index: nat, t: Trit)
    requires |bytes| == BytesFor(len) && index < len
    ensures Unpack(Written(bytes, index, t), len) == Unpack(bytes, len)[index := t]
  {
    hide SlotGet, SlotSet;
    var r := Written(bytes, index, t);
    forall i | 0 <= i < len ensures Unpack(r, len)[i] == Unpack(bytes, len)[index := t][i] {
      SlotSetGet(bytes[index / 4], index % 4, t, i % 4);
      if i / 4 == index / 4 && i % 4 == index % 4 {
        assert i == index;
      }
    }
  }

  // ----- runs of accesses

  datatype Access = Put(index: nat, t: Trit) | Read(index: nat)

  /** The values read by a run on a plain trit array. */
  function PlainReads(plain: seq<int>, run: seq<Access>): seq<int>
    decreases |run|
  {
    if |run| == 0 then [] else
      match run[0]
      case Put(i, t) => PlainReads(if i < |plain| then plain[i := t] else plain, run[1..])
      case Read(i) => [if i < |plain| then plain[i] else 0] + PlainReads(plain, run[1..])
  }

  /** The values read by the same run on the packed buffer. */
  function PackedReads(bytes: seq<bv8>, len: nat, run: seq<Access>): seq<int>
    requires |bytes| == BytesFor(len)
    decreases |run|
  {
    if |run| == 0 then [] else
      match run[0]
      case Put(i, t) => PackedReads(if i < len then Written(bytes, i, t) else bytes, len, run[1..])
      case Read(i) => [if i < len then Unpack(bytes, len)[i] else 0] + PackedReads(bytes, len, run[1..])
  }

  /** No run of accesses can tell the packed buffer from a plain array. */
  lemma {:induction false} RunsAgree(bytes: seq<bv8>, len: nat, run: seq<Access>)
    requires |bytes| == BytesFor(len)
    ensures PackedReads(bytes, len, run) == PlainReads(Unpack(bytes, len), run)
    decreases |run|
  {
    hide Unpack, Written;
    if |run| != 0 {
      match run[0]
      case Put(i, t) =>
        if i < len {
          WriteIsUpdate(bytes, len, i, t);
          RunsAgree(Written(bytes, i, t), len, run[1..]);
        } else {
          RunsAgree(bytes, len, run[1..]);
        }
      case Read(i) =>
        RunsAgree(bytes, len, run[1..]);
    }
  }

  // ----- slicing with byte shifts (flex_trit.c:16-24, 67-97)

  /** A byte assembled from two neighbours, shifted by `off` slots. */
  function Straddle(lo: bv8, hi: bv8, off: nat): bv8
    requires 1 <= off < 4
  {
    if off == 1 then (lo >> 2) | (hi << 6) else if off == 2 then (lo >> 4) | (hi << 4) else (lo >> 6) | (hi << 2)
  }

  lemma StraddleGet(lo: bv8, hi: bv8, off: nat, slot: nat)
    requires 1 <= off < 4 && slot < 4
    ensures SlotGet(Straddle(lo, hi, off), slot) == if slot + off < 4 then SlotGet(lo, slot + off)
              else SlotGet(hi, slot + off - 4)
  {
    hide SlotGet, Straddle;
    if off == 1 {
      StraddleBy1(lo, hi, slot);
    } else if off == 2 {
      StraddleBy2(lo, hi, slot);
    } else {
      StraddleBy3(lo, hi, slot);
    }
  }

  lemma StraddleBy1(lo: bv8, hi: bv8, slot: nat)
    requires slot < 4
    ensures SlotGet(Straddle(lo, hi, 1), slot) == if slot < 3 then SlotGet(lo, slot + 1) else SlotGet(hi, 0)
  {
  }

  lemma StraddleBy2(lo: bv8, hi: bv8, slot: nat)
    requires slot < 4
    ensures SlotGet(Straddle(lo, hi, 2), slot) == if slot < 2 then SlotGet(lo, slot + 2) else SlotGet(hi, slot - 2)
  {
  }

  lemma StraddleBy3(lo: bv8, hi: bv8, slot: nat)
    requires slot < 4
    ensures SlotGet(Straddle(lo, hi, 3), slot) == if slot < 1 then SlotGet(lo, 3) else SlotGet(hi, slot - 1)
  {
  }

  /** flex_trit_set_residual: keep the low `residual` slots. */
  function Residual(b: bv8, residual: nat): bv8
    requires 1 <= residual <= 4
  {
    if residual == 1 then (b << 6) >> 6 else if residual == 2 then (b << 4) >> 4
      else if residual == 3 then (b << 2) >> 2 else b
  }

  lemma ResidualGet(b: bv8, residual: nat, slot: nat)
    requires 1 <= residual <= 4 && slot < 4
    ensures SlotGet(Residual(b, residual), slot) == if slot < residual then SlotGet(b, slot) else 0
  {
  }

  /** Byte j of the slice before its tail is cleaned. */
  function RawByte(src: seq<bv8>, start: nat, j: nat): bv8
    requires start / 4 + j < |src|
  {
    var i := start / 4 + j;
    if start % 4 == 0 then src[i] else Straddle(src[i], if i + 1 < |src| then src[i + 1] else 0, start % 4)
  }

  lemma RawByteSlot(src: seq<bv8>, len: nat, start: nat, j: nat, slot: nat)
    requires |src| == BytesFor(len) && slot < 4 && start + 4 * j + slot < len
    ensures start / 4 + j < |src|
    ensures SlotGet(RawByte(src, start, j), slot) == Unpack(src, len)[start + 4 * j + slot]
  {
    hide SlotGet, Straddle;
    var off := start % 4;
    var q := start + 4 * j + slot;
    assert q == 4 * (start / 4 + j) + (off + slot);
    if off + slot < 4 {
      assert q / 4 == start / 4 + j && q % 4 == off + slot;
    } else {
      assert q / 4 == start / 4 + j + 1 && q % 4 == off + slot - 4;
    }
    if off != 0 {
      var i := start / 4 + j;
      StraddleGet(src[i], if i + 1 < |src| then src[i + 1] else 0, off, slot);
    }
  }

  /** The bytes flex_trits_slice leaves: whole bytes, one cleaned tail byte, null bytes. */
  ghost predicate IsSlice(to: seq<bv8>, src: seq<bv8>, start: nat, num: nat)
    requires start / 4 + BytesFor(num) <= |src|
  {
    BytesFor(num) <= |to| &&
    forall j :: 0 <= j < |to| ==>
      to[j] == if j < num / 4 then RawByte(src, start, j)
               else if j < BytesFor(num) then Residual(RawByte(src, start, j), num % 4)
               else 0
  }

  lemma SliceInRange(len: nat, start: nat, num: nat)
    requires start + num <= len
    ensures start / 4 + BytesFor(num) <= BytesFor(len) + 1
    ensures num > 0 ==> start / 4 + BytesFor(num) <= BytesFor(len)
  {
  }

  /** Byte-wise slicing copies exactly the requested trits and leaves the rest null. */
  lemma SliceMeaning(to: seq<bv8>, toLen: nat, src: seq<bv8>, len: nat, start: nat, num: nat)
    requires |to| == BytesFor(toLen) && |src| == BytesFor(len) && 0 < num <= toLen && start + num <= len
    requires start / 4 + BytesFor(num) <= |src| && IsSlice(to, src, start, num)
    ensures Unpack(to, toLen) == Unpack(src, len)[start..start + num] + seq(toLen - num, _ => 0)
  {
    hide SlotGet, RawByte, Residual;
    forall p | 0 <= p < toLen
      ensures Unpack(to, toLen)[p] == if p < num then Unpack(src, len)[start + p] else 0
    {
      SliceTrit(to, src, len, start, num, p);
    }
  }

  lemma SliceTrit(to: seq<bv8>, src: seq<bv8>, len: nat, start: nat, num: nat, p: nat)
    requires |src| == BytesFor(len) && 0 < num && start + num <= len && p / 4 < |to|
    requires start / 4 + BytesFor(num) <= |src| && IsSlice(to, src, start, num)
    ensures SlotGet(to[p / 4], p % 4) == if p < num then Unpack(src, len)[start + p] else 0
  {
    hide SlotGet, RawByte, Residual, Unpack;
    var j, slot := p / 4, p % 4;
    assert p == 4 * j + slot;
    if j >= BytesFor(num) {
      NullByte(slot);
    } else {
      if p < num {
        RawByteSlot(src, len, start, j, slot);
      }
      if j >= num / 4 {
        assert j == num / 4 && num % 4 != 0;
        ResidualGet(RawByte(src, start, j), num % 4, slot);
      }
    }
  }

  /** flex_trits_slice, byte by byte. */
  method FlexTritsSlice(to: array<bv8>, toLen: nat, src: array<bv8>, len: nat, start: nat, num: nat)
    returns (count: nat)
    requires to.Length == BytesFor(toLen) && src.Length == BytesFor(len) && to != src
    modifies to
    ensures count == if num == 0 || num > toLen || start + num > len then 0 else BytesFor(num)
    ensures count == 0 ==> to[..] == old(to[..])
    ensures count != 0 ==>
              Unpack(to[..], toLen) == Unpack(src[..], len)[start..start + num] + seq(toLen - num, _ => 0)
  {
    hide SlotGet, Residual, Straddle, Unpack;
    if num == 0 || num > toLen || start + num > len {
      return 0;
    }
    SliceInRange(len, start, num);
    var whole, bytes := num / 4, BytesFor(num);
    forall i | 0 <= i < to.Length {
      to[i] := 0;
    }
    CopyBytes(to, src, start, bytes);
    if num % 4 != 0 {
      to[whole] := Residual(to[whole], num % 4);
    }
    SliceMeaning(to[..], toLen, src[..], len, start, num);
    return bytes;
  }

  /** Copy the bytes of the slice, shifting when it does not start on a byte boundary. */
  method CopyBytes(to: array<bv8>, src: array<bv8>, start: nat, bytes: nat)
    requires bytes <= to.Length && start / 4 + bytes <= src.Length && to != src
    modifies to
    ensures forall j :: 0 <= j < bytes ==> to[j] == RawByte(src[..], start, j)
    ensures forall j :: bytes <= j < to.Length ==> to[j] == old(to[j])
  {
    hide Straddle;
    for j := 0 to bytes
      invariant forall k :: 0 <= k < j ==> to[k] == RawByte(src[..], start, k)
      invariant forall k :: bytes <= k < to.Length ==> to[k] == old(to[k])
    {
      var i := start / 4 + j;
      if start % 4 == 0 {
        to[j] := src[i];
      } else {
        to[j] := Straddle(src[i], if i < src.Length - 1 then src[i + 1] else 0, start % 4);
      }
    }
  }
}
