/**
 Serialization of a transaction into 8019 trits and back
 (common/model/transaction.c, one-trit-per-byte encoding).
 */
module Codec {
  import opened Ternary
  import opened TritLong
  import opened Sponges
  import opened Transactions

  // ----- concatenating and slicing fields

  function Concat(fields: seq<seq<Trit>>): seq<Trit>
  {
    if |fields| == 0 then [] else Concat(fields[..|fields| - 1]) + fields[|fields| - 1]
  }

  /** Where field k starts. */
  function Offset(widths: seq<nat>, k: nat): nat
    requires k <= |widths|
  {
    if k == 0 then 0 else Offset(widths, k - 1) + widths[k - 1]
  }

  ghost predicate HasWidths(fields: seq<seq<Trit>>, widths: seq<nat>)
  {
    |fields| == |widths| && forall i :: 0 <= i < |fields| ==> |fields[i]| == widths[i]
  }

  lemma {:induction false} ConcatLength(fields: seq<seq<Trit>>, widths: seq<nat>, k: nat)
    requires HasWidths(fields, widths) && k <= |fields|
    ensures |Concat(fields[..k])| == Offset(widths, k)
  {
    if k != 0 {
      ConcatLength(fields, widths, k - 1);
      assert fields[..k][..k - 1] == fields[..k - 1];
    }
  }

  lemma {:induction false} OffsetMonotone(widths: seq<nat>, j: nat, k: nat)
    requires j <= k <= |widths|
    ensures Offset(widths, j) <= Offset(widths, k)
    decreases k
  {
    if j < k {
      OffsetMonotone(widths, j, k - 1);
    }
  }

  /** Slicing a concatenation at field k gives field k back. */
  lemma {:induction false} SliceOfConcat(fields: seq<seq<Trit>>, widths: seq<nat>, k: nat, n: nat)
    requires HasWidths(fields, widths) && k < n <= |fields|
    ensures Offset(widths, k + 1) <= |Concat(fields[..n])|
    ensures Concat(fields[..n])[Offset(widths, k)..Offset(widths, k + 1)] == fields[k]
    decreases n
  {
    ConcatLength(fields, widths, n);
    ConcatLength(fields, widths, n - 1);
    OffsetMonotone(widths, k + 1, n);
    assert fields[..n][..n - 1] == fields[..n - 1];
    var head := Concat(fields[..n - 1]);
    assert Concat(fields[..n]) == head + fields[n - 1];
    if k < n - 1 {
      SliceOfConcat(fields, widths, k, n - 1);
      assert (head + fields[n - 1])[Offset(widths, k)..Offset(widths, k + 1)]
          == head[Offset(widths, k)..Offset(widths, k + 1)];
    }
  }

  function Slices(t: seq<Trit>, widths: seq<nat>, n: nat): (r: seq<seq<Trit>>)
    requires n <= |widths| && |t| >= Offset(widths, n)
    ensures |r| == n
    decreases n
  {
    if n == 0 then [] else
      OffsetMonotone(widths, n - 1, n);
      Slices(t, widths, n - 1) + [t[Offset(widths, n - 1)..Offset(widths, n)]]
  }

  /** Cutting a sequence into fields and concatenating them gives the sequence back. */
  lemma {:induction false} ConcatOfSlices(t: seq<Trit>, widths: seq<nat>, n: nat)
    requires n <= |widths| && |t| >= Offset(widths, n)
    ensures Concat(Slices(t, widths, n)) == t[..Offset(widths, n)]
    ensures forall i :: 0 <= i < n ==> |Slices(t, widths, n)[i]| == widths[i]
  {
    if n != 0 {
      OffsetMonotone(widths, n - 1, n);
      ConcatOfSlices(t, widths, n - 1);
      var s := Slices(t, widths, n);
      assert s[..n - 1] == Slices(t, widths, n - 1);
    }
  }

  lemma {:induction false} SlicesOfConcat(fields: seq<seq<Trit>>, widths: seq<nat>, n: nat)
    requires HasWidths(fields, widths) && n <= |fields|
    ensures Offset(widths, n) <= |Concat(fields)|
    ensures Slices(Concat(fields), widths, n) == fields[..n]
  {
    assert fields[..|fields|] == fields;
    ConcatLength(fields, widths, |fields|);
    OffsetMonotone(widths, n, |fields|);
    if n != 0 {
      SlicesOfConcat(fields, widths, n - 1);
      SliceOfConcat(fields, widths, n - 1, |fields|);
      assert fields[..n] == fields[..n - 1] + [fields[n - 1]];
    }
  }

  // ----- blocks of trits

  function Flatten(blocks: seq<Hash>): seq<Trit>
  {
    if |blocks| == 0 then [] else blocks[0].trits + Flatten(blocks[1..])
  }

  function Blocks(t: seq<Trit>, n: nat): (r: seq<Hash>)
    requires |t| == HASH_LENGTH * n
    ensures |r| == n && forall i :: 0 <= i < n ==> |r[i].trits| == HASH_LENGTH
    decreases n
  {
    if n == 0 then [] else [Hash(t[..HASH_LENGTH])] + Blocks(t[HASH_LENGTH..], n - 1)
  }

  lemma {:induction false} BlocksOfFlatten(b: seq<Hash>)
    requires forall i :: 0 <= i < |b| ==> |b[i].trits| == HASH_LENGTH
    ensures |Flatten(b)| == HASH_LENGTH * |b| && Blocks(Flatten(b), |b|) == b
  {
    if |b| != 0 {
      BlocksOfFlatten(b[1..]);
      var t := Flatten(b);
      assert t[..HASH_LENGTH] == b[0].trits && t[HASH_LENGTH..] == Flatten(b[1..]);
      assert b == [b[0]] + b[1..];
    }
  }

  /** Block i of the flattened blocks. */
  lemma {:induction false} FlattenAt(b: seq<Hash>, i: nat)
    requires i < |b| && forall j :: 0 <= j < |b| ==> |b[j].trits| == HASH_LENGTH
    ensures |Flatten(b)| == HASH_LENGTH * |b|
    ensures Flatten(b)[HASH_LENGTH * i..HASH_LENGTH * (i + 1)] == b[i].trits
  {
    BlocksOfFlatten(b);
    var t := Flatten(b);
    if i > 0 {
      FlattenAt(b[1..], i - 1);
      assert t[HASH_LENGTH..] == Flatten(b[1..]);
      assert t[HASH_LENGTH * i..HASH_LENGTH * (i + 1)]
          == t[HASH_LENGTH..][HASH_LENGTH * (i - 1)..HASH_LENGTH * i];
    }
  }

  lemma {:induction false} FlattenOfBlocks(t: seq<Trit>, n: nat)
    requires |t| == HASH_LENGTH * n
    ensures Flatten(Blocks(t, n)) == t
    decreases n
  {
    if n != 0 {
      FlattenOfBlocks(t[HASH_LENGTH..], n - 1);
      var b := Blocks(t, n);
      assert b[1..] == Blocks(t[HASH_LENGTH..], n - 1);
      assert t == t[..HASH_LENGTH] + t[HASH_LENGTH..];
    }
  }

  // ----- 64-bit integers as trits

  /** Conversion of uint64_t to int64_t. */
  function AsInt64(u: UInt64): Int64
  {
    if u < 0x8000_0000_0000_0000 then u else u - 0x1_0000_0000_0000_0000
  }

  function AsUInt64(i: Int64): UInt64
  {
    if i >= 0 then i else i + 0x1_0000_0000_0000_0000
  }

  lemma HalfPlus3(n: nat, h: int)
    requires Half(n) == h
    ensures Half(n + 3) == 27 * h + 13
  {
    assert Half(n + 1) == 1 + 3 * h;
    assert Half(n + 2) == 1 + 3 * Half(n + 1);
  }

  /** 27 trits hold up to 3812798742493; 30 and 42 trits up to these values. */
  lemma HalfValues()
    ensures Half(27) == 3812798742493 && Half(30) == 102945566047324 && Half(33) == 2779530283277761
    ensures Half(42) == 54709494565756179604
  {
    hide Half;
    HalfUpTo18();
    HalfPlus3(18, 193710244);
    HalfPlus3(21, 5230176601);
    HalfPlus3(24, 141214768240);
    HalfPlus3(27, 3812798742493);
    HalfPlus3(30, 102945566047324);
    HalfPlus3(33, 2779530283277761);
    HalfPlus3(36, 75047317648499560);
    HalfPlus3(39, 2026277576509488133);
  }

  /** Every int64_t fits 41 trits or more. */
  lemma Int64Fits(v: Int64, n: nat)
    requires n >= 41
    ensures Fits(v, n)
  {
    HalfValues();
    assert Half(42) == 1 + 3 * Half(41);
    hide Half;
    HalfMonotone(41, n);
  }

  lemma HalfUpTo18()
    ensures Half(18) == 193710244
  {
    assert Half(0) == 0;
    hide Half;
    HalfPlus3(0, 0);
    HalfPlus3(3, 13);
    HalfPlus3(6, 364);
    HalfPlus3(9, 9841);
    HalfPlus3(12, 265720);
    HalfPlus3(15, 7174453);
  }

  // ----- the layout (transaction.h:20-37)

  const SERIALIZED_TRITS: nat := 8019

  function Widths(): seq<nat>
  {
    [6561, 243, 81, 81, 27, 27, 27, 243, 243, 243, 81, 27, 27, 27, 81]
  }

  /** The fields of a transaction as trits, in serialization order. */
  function Fields(tx: Transaction): (r: seq<seq<Trit>>)
    ensures |r| == 15
  {
    [ Flatten(tx.signature), tx.address.trits, ToTrits(tx.value, 81), tx.obsoleteTag,
      ToTrits(AsInt64(tx.timestamp), 27), ToTrits(AsInt64(tx.currentIndex), 27), ToTrits(AsInt64(tx.lastIndex), 27),
      tx.bundle.trits, tx.trunk.trits, tx.branch.trits, tx.tag,
      ToTrits(AsInt64(tx.attachmentTimestamp), 27), ToTrits(AsInt64(tx.attachmentTimestampLower), 27),
      ToTrits(AsInt64(tx.attachmentTimestampUpper), 27), tx.nonce ]
  }

  function Serialize(tx: Transaction): seq<Trit>
  {
    Concat(Fields(tx))
  }

  lemma FieldsHaveWidths(tx: Transaction)
    requires tx.Sized()
    ensures HasWidths(Fields(tx), Widths())
  {
    hide Fields, Widths, Transaction.Sized;
    assert |Widths()| == 15 by { WidthsAre(); }
    forall i | 0 <= i < 15 ensures |Fields(tx)[i]| == Widths()[i] {
      HashFieldLengths(tx);
      TagFieldLengths(tx);
      LongFieldLengths(tx);
      WidthsAre();
    }
  }

  lemma WidthsAre()
    ensures var w := Widths();
            && |w| == 15
            && w[0] == 6561 && w[1] == w[7] == w[8] == w[9] == 243 && w[2] == w[3] == w[10] == w[14] == 81
            && w[4] == w[5] == w[6] == w[11] == w[12] == w[13] == 27
  {
  }

  lemma HashFieldLengths(tx: Transaction)
    requires tx.Sized()
    ensures var s := Fields(tx); |s[1]| == 243 && |s[7]| == 243 && |s[8]| == 243 && |s[9]| == 243
  {
    hide Flatten, ToTrits, AsInt64;
  }

  lemma TagFieldLengths(tx: Transaction)
    requires tx.Sized()
    ensures var s := Fields(tx); |s[0]| == 6561 && |s[2]| == 81
    ensures var s := Fields(tx); |s[3]| == 81 && |s[10]| == 81 && |s[14]| == 81
  {
    hide Flatten, ToTrits, AsInt64;
    SignatureLength(tx);
  }

  lemma LongFieldLengths(tx: Transaction)
    ensures var s := Fields(tx);
            |s[4]| == 27 && |s[5]| == 27 && |s[6]| == 27 && |s[11]| == 27 && |s[12]| == 27 && |s[13]| == 27
  {
    hide Flatten, ToTrits, AsInt64;
  }

  lemma SignatureLength(tx: Transaction)
    requires tx.Sized()
    ensures |Flatten(tx.signature)| == 6561
  {
    BlocksOfFlatten(tx.signature);
  }

  /** The field slices tile the 8019 trits: each starts where the previous one ends. */
  lemma Tiling()
    ensures Offset(Widths(), 0) == 0 && Offset(Widths(), 15) == SERIALIZED_TRITS
    ensures forall k :: 0 <= k < 15 ==> Offset(Widths(), k + 1) == Offset(Widths(), k) + Widths()[k]
    ensures forall k :: 0 <= k < 15 ==> Widths()[k] > 0
  {
    OffsetsAre();
  }

  lemma Layout()
    ensures |Widths()| == 15 && Offset(Widths(), 15) == SERIALIZED_TRITS
    ensures forall k :: 0 <= k < 15 ==> Widths()[k] > 0
  {
    hide Offset;
    Tiling();
  }

  lemma OffsetsAre()
    ensures var w := Widths();
            && Offset(w, 1) == 6561 && Offset(w, 2) == 6804 && Offset(w, 3) == 6885 && Offset(w, 4) == 6966
            && Offset(w, 5) == 6993 && Offset(w, 6) == 7020 && Offset(w, 7) == 7047 && Offset(w, 8) == 7290
            && Offset(w, 9) == 7533 && Offset(w, 10) == 7776 && Offset(w, 11) == 7857 && Offset(w, 12) == 7884
            && Offset(w, 13) == 7911 && Offset(w, 14) == 7938 && Offset(w, 15) == 8019
  {
    var w := Widths();
    assert Offset(w, 1) == 6561;
    assert Offset(w, 2) == 6804;
    assert Offset(w, 3) == 6885;
    assert Offset(w, 4) == 6966;
    assert Offset(w, 5) == 6993;
    assert Offset(w, 6) == 7020;
    assert Offset(w, 7) == 7047;
    assert Offset(w, 8) == 7290;
    assert Offset(w, 9) == 7533;
    assert Offset(w, 10) == 7776;
    assert Offset(w, 11) == 7857;
    assert Offset(w, 12) == 7884;
    assert Offset(w, 13) == 7911;
    assert Offset(w, 14) == 7938;
  }

  predicate IsInt64(v: int) { -0x8000_0000_0000_0000 < v < 0x8000_0000_0000_0000 }

  /** The transaction whose fields, as trits, are the given ones. */
  function FromFields(fs: seq<seq<Trit>>): (tx: Transaction)
    requires HasWidths(fs, Widths()) && IsInt64(Val(fs[2]))
    ensures tx.Sized()
  {
    Transaction(
      Blocks(fs[0], 27), Hash(fs[1]), Val(fs[2]), fs[3],
      ReadLong(fs[4]), ReadLong(fs[5]), ReadLong(fs[6]),
      Hash(fs[7]), Hash(fs[8]), Hash(fs[9]), fs[10],
      ReadLong(fs[11]), ReadLong(fs[12]), ReadLong(fs[13]), fs[14])
  }

  /** trits_to_long of a 27-trit field, stored in an unsigned field. */
  function ReadLong(t: seq<Trit>): UInt64
    requires |t| == 27
  {
    ValBound(t);
    HalfValues();
    AsUInt64(Val(t))
  }

  /** Deserialization: cut the trits at the field boundaries and read every field. */
  function Deserialize(t: seq<Trit>): (tx: Transaction)
    requires |t| == SERIALIZED_TRITS && ValueReadable(t)
    ensures tx.Sized()
  {
    SlicesHaveWidths(t);
    FromFields(Slices(t, Widths(), 15))
  }

  lemma SlicesHaveWidths(t: seq<Trit>)
    requires |t| == SERIALIZED_TRITS
    ensures Offset(Widths(), 15) == |t| && HasWidths(Slices(t, Widths(), 15), Widths())
  {
    OffsetsAre();
    ConcatOfSlices(t, Widths(), 15);
  }

  /** The value field holds an int64_t; trits_to_long overflows otherwise. */
  ghost predicate ValueReadable(t: seq<Trit>)
    requires |t| == SERIALIZED_TRITS
  {
    SlicesHaveWidths(t);
    IsInt64(Val(Slices(t, Widths(), 15)[2]))
  }

  /** Where each field sits in the serialized trits. */
  lemma SerializedField(tx: Transaction, k: nat)
    requires tx.Sized() && k < 15
    ensures Offset(Widths(), k) <= Offset(Widths(), k + 1) <= |Serialize(tx)|
    ensures Serialize(tx)[Offset(Widths(), k)..Offset(Widths(), k + 1)] == Fields(tx)[k]
  {
    hide Fields, Widths;
    FieldsHaveWidths(tx);
    OffsetMonotone(Widths(), k, k + 1);
    SliceOfConcat(Fields(tx), Widths(), k, 15);
    assert Fields(tx)[..15] == Fields(tx);
  }

  /** The hashes, the tag, the attachment timestamps and the nonce, each by name at its place. */
  lemma NamedFields(tx: Transaction)
    requires tx.Sized()
    ensures |Serialize(tx)| == SERIALIZED_TRITS
    ensures var s := Serialize(tx);
            && s[..6561] == Flatten(tx.signature) && s[6561..6804] == tx.address.trits
            && s[7047..7290] == tx.bundle.trits && s[7290..7533] == tx.trunk.trits && s[7533..7776] == tx.branch.trits
            && s[7776..7857] == tx.tag && s[7857..7884] == ToTrits(AsInt64(tx.attachmentTimestamp), 27)
            && s[7884..7911] == ToTrits(AsInt64(tx.attachmentTimestampLower), 27)
            && s[7911..7938] == ToTrits(AsInt64(tx.attachmentTimestampUpper), 27) && s[7938..] == tx.nonce
  {
    hide Serialize, ToTrits, AsInt64, Flatten, Transaction.Sized;
    NamedHashes(tx);
    NamedTail(tx);
  }

  lemma SerializedLength(tx: Transaction)
    requires tx.Sized()
    ensures |Serialize(tx)| == SERIALIZED_TRITS
  {
    hide Fields, Widths, Offset, Transaction.Sized;
    FieldsHaveWidths(tx);
    Layout();
    ConcatLength(Fields(tx), Widths(), 15);
    assert Fields(tx)[..15] == Fields(tx);
  }

  lemma NamedHashes(tx: Transaction)
    requires tx.Sized()
    ensures |Serialize(tx)| == SERIALIZED_TRITS
    ensures var s := Serialize(tx);
            && s[..6561] == Flatten(tx.signature) && s[6561..6804] == tx.address.trits
            && s[7047..7290] == tx.bundle.trits && s[7290..7533] == tx.trunk.trits && s[7533..7776] == tx.branch.trits
  {
    hide Serialize, Offset, Widths, ToTrits, AsInt64, Flatten, Transaction.Sized, Fields;
    SerializedLength(tx);
    OffsetsAre();
    Tiling();
    HashFields(tx);
    SerializedField(tx, 0);
    SerializedField(tx, 1);
    SerializedField(tx, 7);
    SerializedField(tx, 8);
    SerializedField(tx, 9);
  }

  lemma HashFields(tx: Transaction)
    ensures var s := Fields(tx);
            && s[0] == Flatten(tx.signature) && s[1] == tx.address.trits
            && s[7] == tx.bundle.trits && s[8] == tx.trunk.trits && s[9] == tx.branch.trits
  {
    hide ToTrits, AsInt64, Flatten;
  }

  lemma NamedTail(tx: Transaction)
    requires tx.Sized()
    ensures |Serialize(tx)| == SERIALIZED_TRITS
    ensures var s := Serialize(tx);
            && s[7776..7857] == tx.tag && s[7857..7884] == ToTrits(AsInt64(tx.attachmentTimestamp), 27)
            && s[7884..7911] == ToTrits(AsInt64(tx.attachmentTimestampLower), 27)
            && s[7911..7938] == ToTrits(AsInt64(tx.attachmentTimestampUpper), 27) && s[7938..] == tx.nonce
  {
    hide Serialize, Offset, Widths, ToTrits, AsInt64, Transaction.Sized, Fields;
    SerializedLength(tx);
    OffsetsAre();
    TailFields(tx);
    SerializedField(tx, 10);
    SerializedField(tx, 11);
    SerializedField(tx, 12);
    SerializedField(tx, 13);
    SerializedField(tx, 14);
    assert Serialize(tx)[7938..8019] == Serialize(tx)[7938..];
  }

  lemma TailFields(tx: Transaction)
    ensures var s := Fields(tx);
            && s[10] == tx.tag && s[11] == ToTrits(AsInt64(tx.attachmentTimestamp), 27)
            && s[12] == ToTrits(AsInt64(tx.attachmentTimestampLower), 27)
            && s[13] == ToTrits(AsInt64(tx.attachmentTimestampUpper), 27) && s[14] == tx.nonce
  {
    hide ToTrits, AsInt64, Flatten;
  }

  // ----- one long field

  /** A long field survives writing and reading exactly when it fits its 27 trits. */
  lemma LongRoundTrip(u: UInt64)
    ensures ReadLong(ToTrits(AsInt64(u), 27)) == u <==> Fits(AsInt64(u), 27)
  {
    hide ToTrits, Val, Half;
    ToTritsValue(AsInt64(u), 27);
    ValBound(ToTrits(AsInt64(u), 27));
    HalfValues();
  }

  /** Reading a 27-trit field and writing it back gives the same trits, and the value fits. */
  lemma LongReadWrite(t: seq<Trit>)
    requires |t| == 27
    ensures ToTrits(AsInt64(ReadLong(t)), 27) == t && Fits(AsInt64(ReadLong(t)), 27)
  {
    hide ToTrits, Val, Half;
    ValBound(t);
    HalfValues();
    ToTritsOfVal(t);
  }

  lemma ValueRoundTrip(v: int)
    requires IsInt64(v)
    ensures Val(ToTrits(v, 81)) == v
  {
    hide ToTrits, Val, Half;
    Int64Fits(v, 81);
    ToTritsValue(v, 81);
  }

  // ----- the codec is a bijection

  /** The six integer fields that have only 27 trits fit them. */
  predicate LongsFit(tx: Transaction)
  {
    && Fits(AsInt64(tx.timestamp), 27) && Fits(AsInt64(tx.currentIndex), 27) && Fits(AsInt64(tx.lastIndex), 27)
    && Fits(AsInt64(tx.attachmentTimestamp), 27) && Fits(AsInt64(tx.attachmentTimestampLower), 27)
    && Fits(AsInt64(tx.attachmentTimestampUpper), 27)
  }

  /**
   Deserializing a serialized transaction restores it exactly when its 27-trit
   integers fit; every other field is always restored.
   */
  lemma SerializeThenDeserialize(tx: Transaction)
    requires tx.Sized()
    ensures |Serialize(tx)| == SERIALIZED_TRITS && ValueReadable(Serialize(tx))
    ensures Deserialize(Serialize(tx)) == tx <==> LongsFit(tx)
  {
    FieldsHaveWidths(tx);
    var fs := Fields(tx);
    SlicesOfConcat(fs, Widths(), 15);
    ConcatLength(fs, Widths(), 15);
    OffsetsAre();
    assert fs[..15] == fs;
    ValueRoundTrip(tx.value);
    FromFieldsOfFields(tx);
  }

  lemma FromFieldsOfFields(tx: Transaction)
    requires tx.Sized() && HasWidths(Fields(tx), Widths()) && IsInt64(Val(Fields(tx)[2]))
    ensures FromFields(Fields(tx)) == tx <==> LongsFit(tx)
  {
    hide ToTrits, Val, Flatten, Blocks, Fits, ReadLong;
    ValueRoundTrip(tx.value);
    BlocksOfFlatten(tx.signature);
    LongRoundTrip(tx.timestamp);
    LongRoundTrip(tx.currentIndex);
    LongRoundTrip(tx.lastIndex);
    LongRoundTrip(tx.attachmentTimestamp);
    LongRoundTrip(tx.attachmentTimestampLower);
    LongRoundTrip(tx.attachmentTimestampUpper);
  }

  /** Serializing a deserialized transaction gives the same 8019 trits back. */
  lemma DeserializeThenSerialize(t: seq<Trit>)
    requires |t| == SERIALIZED_TRITS && ValueReadable(t)
    ensures Serialize(Deserialize(t)) == t && LongsFit(Deserialize(t))
  {
    hide Fields, FromFields, LongsFit, Slices, Offset, Concat, Val, Widths;
    SlicesHaveWidths(t);
    ConcatOfSlices(t, Widths(), 15);
    FieldsOfFromFields(Slices(t, Widths(), 15));
    assert t[..|t|] == t;
  }

  lemma FieldsOfFromFields(fs: seq<seq<Trit>>)
    requires HasWidths(fs, Widths()) && IsInt64(Val(fs[2]))
    ensures Fields(FromFields(fs)) == fs && LongsFit(FromFields(fs))
  {
    hide ToTrits, Val, Flatten, Blocks, Fits, ReadLong;
    FlattenOfBlocks(fs[0], 27);
    ToTritsOfVal(fs[2]);
    LongReadWrite(fs[4]);
    LongReadWrite(fs[5]);
    LongReadWrite(fs[6]);
    LongReadWrite(fs[11]);
    LongReadWrite(fs[12]);
    LongReadWrite(fs[13]);
  }

  /** The extreme attachment timestamp written by proof of work fits its field; one more does not. */
  lemma ExtremeTimestampFits()
    ensures Fits(AsInt64(3812798742493), 27) && !Fits(AsInt64(3812798742494), 27)
  {
    hide Half;
    HalfValues();
  }

  /** _long_to_flex_trit: a zeroed 81-trit buffer holding the value; a 27-trit field is its prefix. */
  method LongToFlexTrit(value: Int64) returns (partial: seq<Trit>)
    ensures partial == ToTrits(value, 81) && partial[..27] == ToTrits(value, 27)
  {
    hide ToTrits, Half, Overwrite, Width;
    Int64Fits(value, 81);
    FitsIffWide(value, 81);
    var buffer := new Trit[81](_ => 0);
    assert buffer[0..] == seq(81, _ => 0);
    var size := LongToTrits(value, buffer, 0);
    OverwriteNull(value, 81);
    ToTritsPrefix(value, 81, 27);
    partial := buffer[..];
    assert partial == buffer[0..0] + ToTrits(value, 81);
  }

  // ----- the imperative serializer and deserializer

  /** flex_trits_insert: copies the field, or does nothing when it does not fit. */
  method FlexInsert(to: array<Trit>, field: seq<Trit>, start: nat) returns (count: nat)
    modifies to
    ensures count == if |field| == 0 || start + |field| > to.Length then 0 else |field|
    ensures count == 0 ==> to[..] == old(to[..])
    ensures count != 0 ==> to[..] == old(to[..start]) + field + old(to[start + |field|..])
  {
    if |field| == 0 || |field| > to.Length || start >= to.Length || start + |field| > to.Length {
      return 0;
    }
    forall i | 0 <= i < |field| {
      to[start + i] := field[i];
    }
    return |field|;
  }

  /** transaction_serialize_to_flex_trits: a running offset with one insert per field. */
  method SerializeTo(tx: Transaction, trits: array<Trit>) returns (offset: nat)
    requires tx.Sized() && trits.Length == SERIALIZED_TRITS
    modifies trits
    ensures offset == SERIALIZED_TRITS && trits[..] == Serialize(tx)
  {
    hide Fields, Widths, Offset, Concat, Transaction.Sized;
    forall i | 0 <= i < trits.Length {
      trits[i] := 0;
    }
    var fs := FieldTrits(tx);
    FieldsHaveWidths(tx);
    Layout();
    offset := InsertAll(fs, Widths(), trits);
  }

  /** The trits of every field, its integers converted one by one. */
  method FieldTrits(tx: Transaction) returns (fs: seq<seq<Trit>>)
    ensures fs == Fields(tx)
  {
    hide ToTrits, AsInt64, Flatten;
    var value := LongToFlexTrit(tx.value);
    var timestamp := LongToFlexTrit(AsInt64(tx.timestamp));
    var current := LongToFlexTrit(AsInt64(tx.currentIndex));
    var last := LongToFlexTrit(AsInt64(tx.lastIndex));
    var attachment := LongToFlexTrit(AsInt64(tx.attachmentTimestamp));
    var lower := LongToFlexTrit(AsInt64(tx.attachmentTimestampLower));
    var upper := LongToFlexTrit(AsInt64(tx.attachmentTimestampUpper));
    fs := [ Flatten(tx.signature), tx.address.trits, value, tx.obsoleteTag,
            timestamp[..27], current[..27], last[..27],
            tx.bundle.trits, tx.trunk.trits, tx.branch.trits, tx.tag,
            attachment[..27], lower[..27], upper[..27], tx.nonce ];
  }

  /** The successive inserts, for any list of fields that fills the buffer. */
  method InsertAll(fs: seq<seq<Trit>>, ghost w: seq<nat>, trits: array<Trit>) returns (offset: nat)
    requires HasWidths(fs, w) && Offset(w, |w|) == trits.Length
    requires forall k :: 0 <= k < |w| ==> w[k] > 0
    modifies trits
    ensures offset == trits.Length && trits[..] == Concat(fs)
  {
    offset := 0;
    for k := 0 to |fs|
      invariant offset == Offset(w, k) && offset <= trits.Length && trits[..offset] == Concat(fs[..k])
    {
      OffsetMonotone(w, k + 1, |w|);
      ghost var done := trits[..offset];
      var n := FlexInsert(trits, fs[k], offset);
      assert fs[..k + 1][..k] == fs[..k];
      assert trits[..offset + n] == done + fs[k];
      offset := offset + n;
    }
    assert fs[..|fs|] == fs && trits[..trits.Length] == trits[..];
  }

  /** transaction_deserialize_trits: one slice per field at a running offset. */
  method DeserializeFrom(trits: array<Trit>) returns (tx: Transaction, offset: nat)
    requires trits.Length == SERIALIZED_TRITS && ValueReadable(trits[..])
    ensures offset == SERIALIZED_TRITS && tx == Deserialize(trits[..])
  {
    hide Widths, Offset, Slices, FromFields, Val;
    var w := Widths();
    Layout();
    SlicesHaveWidths(trits[..]);
    var fs;
    fs, offset := SliceAll(trits, w);
    tx := FromFields(fs);
  }

  /** The successive slices, for any list of widths that fills the buffer. */
  method SliceAll(trits: array<Trit>, w: seq<nat>) returns (fs: seq<seq<Trit>>, offset: nat)
    requires Offset(w, |w|) == trits.Length
    ensures offset == trits.Length && fs == Slices(trits[..], w, |w|)
  {
    fs, offset := [], 0;
    for k := 0 to |w|
      invariant offset == Offset(w, k) <= trits.Length && fs == Slices(trits[..], w, k)
    {
      OffsetMonotone(w, k + 1, |w|);
      assert trits[..][offset..offset + w[k]] == trits[offset..offset + w[k]];
      fs := fs + [trits[offset..offset + w[k]]];
      offset := offset + w[k];
    }
  }
}
