/**
 absorb_essence (common/model/bundle.c:16-35): the six essence fields of a transaction, written one after the other
 into a buffer of 486 trits. Integers are written in place without being cut to their 27-trit fields, so the digits
 of a wide timestamp or index reach into the next field.
 */
module BundleEssence {
  import opened Arith
  import opened Ternary
  import opened TritLong
  import opened Sponges
  import opened Transactions
  import opened Codec

  const ESSENCE_TRITS: nat := 486

  /** No int64_t has more than 41 digits, so a last index written at 459 ends before this. */
  const REACHED_TRITS: nat := 500

  /** Timestamp, current index and last index as the three in-place writes leave them. */
  function IndexTrits(timestamp: int, current: int, last: int): (r: seq<Trit>)
    ensures |r| == 81
  {
    var a := Overwrite(seq(81, _ => 0), timestamp);
    var b := a[..27] + Overwrite(a[27..], current);
    b[..54] + Overwrite(b[54..], last)
  }

  /** The two blocks a transaction contributes to the bundle hash. */
  function Essence(tx: Transaction): (r: seq<Hash>)
    ensures |r| == 2
  {
    [ tx.address,
      Hash(ToTrits(tx.value, 81) + tx.obsoleteTag
           + IndexTrits(AsInt64(tx.timestamp), AsInt64(tx.currentIndex), AsInt64(tx.lastIndex))) ]
  }

  predicate EssenceSized(tx: Transaction) { |tx.address.trits| == HASH_LENGTH && |tx.obsoleteTag| == 81 }

  // ----- the in-place writes

  /** long_to_trits at `at`, seen on the first n trits. */
  method WriteLong(buffer: array<Trit>, at: nat, v: Int64, ghost n: nat)
    requires at <= n <= buffer.Length && at + 41 <= buffer.Length
    modifies buffer
    ensures buffer[..n] == old(buffer[..at]) + Overwrite(old(buffer[at..n]), v)
  {
    hide Overwrite, Width, Half;
    Int64Fits(v, 41);
    FitsIffWide(v, 41);
    ghost var tail := buffer[at..];
    var size := LongToTrits(v, buffer, at);
    OverwritePrefix(tail, v, n - at);
    assert tail[..n - at] == old(buffer[at..n]);
    assert buffer[..][..n] == buffer[..n];
  }

  /** Copy a field to position `at`, seen on the first n trits. */
  method WriteField(buffer: array<Trit>, at: nat, field: seq<Trit>, ghost n: nat)
    requires |field| > 0 && at + |field| <= n <= buffer.Length
    modifies buffer
    ensures buffer[..n] == old(buffer[..at]) + field + old(buffer[at + |field|..n])
  {
    ghost var was := buffer[..];
    var count := FlexInsert(buffer, field, at);
    assert buffer[..n] == buffer[..][..n];
    assert was[..at] == old(buffer[..at]);
  }

  /** absorb_essence: fill the buffer and absorb its first 486 trits as two blocks. */
  method AbsorbEssence(kerl: Sponge, tx: Transaction, buffer: array<Trit>)
    requires buffer.Length == REACHED_TRITS && EssenceSized(tx) && kerl.squeezed == 0
    modifies kerl, buffer
    ensures kerl.squeezed == 0 && kerl.absorbed == old(kerl.absorbed) + Essence(tx)
  {
    hide Overwrite, ToTrits, AsInt64, IndexTrits;
    forall i | 0 <= i < ESSENCE_TRITS {
      buffer[i] := 0;
    }
    ghost var n := ESSENCE_TRITS;
    ghost var e := Essence(tx);
    assert buffer[..n] == Nulls(486);
    WriteField(buffer, 0, tx.address.trits, n);
    assert buffer[..n] == tx.address.trits + Nulls(243);
    WriteLong(buffer, 243, tx.value, n);
    ValueWritten(tx.address.trits, tx.value, buffer[..n]);
    WriteField(buffer, 324, tx.obsoleteTag, n);
    ghost var head := tx.address.trits + ToTrits(tx.value, 81) + tx.obsoleteTag;
    assert buffer[..n] == head + Nulls(81);
    WriteIndexes(buffer, head, AsInt64(tx.timestamp), AsInt64(tx.currentIndex), AsInt64(tx.lastIndex));
    assert buffer[..243] == buffer[..n][..243] == tx.address.trits;
    assert buffer[243..486] == buffer[..n][243..] == e[1].trits;
    AbsorbBlocks(kerl, buffer);
  }

  /** kerl_absorb of 486 trits: two blocks. */
  method AbsorbBlocks(kerl: Sponge, buffer: array<Trit>)
    requires buffer.Length == REACHED_TRITS && kerl.squeezed == 0
    modifies kerl
    ensures kerl.squeezed == 0
    ensures kerl.absorbed == old(kerl.absorbed) + [Hash(buffer[..243]), Hash(buffer[243..486])]
  {
    kerl.Absorb(Hash(buffer[..243]));
    kerl.Absorb(Hash(buffer[243..486]));
  }

  function Nulls(n: nat): (r: seq<Trit>)
    ensures |r| == n
  {
    seq(n, _ => 0)
  }

  lemma ValueWritten(address: seq<Trit>, v: Int64, written: seq<Trit>)
    requires |address| == 243
    requires written == address + Overwrite(Nulls(243), v)
    ensures |written| == 486 && written == address + ToTrits(v, 81) + Nulls(162)
  {
    hide Overwrite, ToTrits, Half;
    Int64Fits(v, 81);
    Int64Fits(v, 243);
    OverwriteNull(v, 243);
    ToTritsPad(v, 81, 243);
  }

  method WriteIndexes(buffer: array<Trit>, ghost head: seq<Trit>, timestamp: Int64, current: Int64, last: Int64)
    requires buffer.Length == REACHED_TRITS && |head| == 405 && buffer[..486] == head + Nulls(81)
    modifies buffer
    ensures buffer[..486] == head + IndexTrits(timestamp, current, last)
  {
    hide Overwrite;
    assert buffer[405..486] == buffer[..486][405..] && buffer[..405] == buffer[..486][..405];
    WriteLong(buffer, 405, timestamp, 486);
    ghost var a := Overwrite(Nulls(81), timestamp);
    assert buffer[..486] == head + a;
    assert buffer[432..486] == buffer[..486][432..] == a[27..]
           && buffer[..432] == buffer[..486][..432] == head + a[..27];
    WriteLong(buffer, 432, current, 486);
    ghost var b := a[..27] + Overwrite(a[27..], current);
    assert buffer[..486] == head + b;
    assert buffer[459..486] == buffer[..486][459..] == b[54..]
           && buffer[..459] == buffer[..486][..459] == head + b[..54];
    WriteLong(buffer, 459, last, 486);
    assert buffer[..486] == head + (b[..54] + Overwrite(b[54..], last));
  }

  // ----- essence against serialization

  /** The digits of x that reach into the next field are covered by the write of y exactly when x fits both. */
  lemma FieldAfter(x: Int64, y: Int64)
    ensures Overwrite(ToTrits(x, 54)[27..], y) == ToTrits(y, 27) <==> Fits(x, 27 + Extent(y))
  {
    hide ToTrits, Width, Fits;
    Int64Fits(x, 54);
    var t, n := ToTrits(x, 54), Extent(y);
    if n >= 27 {
      FitsIffWide(x, 54);
      FitsIffWide(x, 27 + n);
      assert t[27..][27..] == [];
    } else {
      TailIsNull(x, 27 + n, 54);
      assert t[27..][n..] == t[27 + n..];
      FitsIffWide(y, n);
      ToTritsPad(y, n, 27);
      var r := Overwrite(t[27..], y);
      assert r[n..] == t[27 + n..];
      assert (ToTrits(y, n) + Nulls(27 - n))[n..] == Nulls(27 - n);
      assert Nulls(27 - n) == seq(54 - (27 + n), _ => 0);
    }
  }

  /** The three writes field by field: each sees the digits the previous integer left in its field. */
  lemma IndexFields(timestamp: Int64, current: Int64, last: Int64)
    ensures IndexTrits(timestamp, current, last)
         == ToTrits(timestamp, 27) + Overwrite(ToTrits(timestamp, 54)[27..], current)
            + Overwrite(ToTrits(current, 54)[27..], last)
  {
    hide ToTrits, Overwrite, Fits;
    Int64Fits(timestamp, 81);
    Int64Fits(timestamp, 54);
    OverwriteNull(timestamp, 81);
    var a := ToTrits(timestamp, 81);
    ToTritsPad(timestamp, 54, 81);
    ToTritsPrefix(timestamp, 81, 27);
    var c := Overwrite(a[27..], current);
    OverwritePrefix(a[27..], current, 27);
    assert a[27..][..27] == ToTrits(timestamp, 54)[27..];
    assert c[27..] == ToTrits(current, 54)[27..] by {
      assert a[54..] == Nulls(27);
      SecondField(a[27..], current);
    }
    var b := a[..27] + c;
    assert b[..54] == a[..27] + c[..27] && b[54..] == c[27..];
  }

  /** A write into a field whose successor is null leaves in the successor what the value needs of it. */
  lemma SecondField(t: seq<Trit>, v: Int64)
    requires |t| == 54 && t[27..] == Nulls(27)
    ensures Overwrite(t, v)[27..] == ToTrits(v, 54)[27..]
  {
    hide ToTrits, Width, Fits;
    Int64Fits(v, 54);
    FitsIffWide(v, 54);
    var n := Extent(v);
    FitsIffWide(v, n);
    ToTritsPad(v, n, 54);
    if n < 27 {
      assert Overwrite(t, v)[27..] == t[27..];
    } else {
      assert t[n..] == t[27..][n - 27..];
    }
  }

  /** No digit of an integer is left in the field of the next one. */
  predicate NoSpill(tx: Transaction)
  {
    && Fits(AsInt64(tx.timestamp), 27 + Extent(AsInt64(tx.currentIndex)))
    && Fits(AsInt64(tx.currentIndex), 27 + Extent(AsInt64(tx.lastIndex)))
  }

  /**
   The absorbed essence is the part of the serialized transaction from the address to the last index exactly when
   no integer is wider than its own field and what the next write covers.
   */
  lemma EssenceIsSerialized(tx: Transaction)
    requires tx.Sized()
    ensures |Serialize(tx)| == SERIALIZED_TRITS
    ensures Serialize(tx)[6561..7047] == Essence(tx)[0].trits + Essence(tx)[1].trits <==> NoSpill(tx)
  {
    hide Serialize, Fields, Offset, Widths, ValueReadable, Transaction.Sized, IndexTrits, ToTrits, Overwrite, Fits,
         Width, AsInt64;
    var ts, ci, li := AsInt64(tx.timestamp), AsInt64(tx.currentIndex), AsInt64(tx.lastIndex);
    EssenceSlice(tx);
    IndexFields(ts, ci, li);
    FieldAfter(ts, ci);
    FieldAfter(ci, li);
    var p := tx.address.trits + (ToTrits(tx.value, 81) + tx.obsoleteTag + ToTrits(ts, 27));
    var a, b := Overwrite(ToTrits(ts, 54)[27..], ci), Overwrite(ToTrits(ci, 54)[27..], li);
    SameParts(p, a, b, ToTrits(ci, 27), ToTrits(li, 27));
    assert Serialize(tx)[6561..7047] == p + ToTrits(ci, 27) + ToTrits(li, 27);
    assert Essence(tx)[0].trits + Essence(tx)[1].trits == p + a + b;
  }

  lemma SameParts(p: seq<Trit>, a: seq<Trit>, b: seq<Trit>, c: seq<Trit>, d: seq<Trit>)
    requires |a| == |c| && |b| == |d|
    ensures p + a + b == p + c + d <==> a == c && b == d
  {
    var l, r := p + a + b, p + c + d;
    assert l[|p|..|p| + |a|] == a && l[|p| + |a|..] == b;
    assert r[|p|..|p| + |a|] == c && r[|p| + |a|..] == d;
  }

  lemma EssenceSlice(tx: Transaction)
    requires tx.Sized()
    ensures |Serialize(tx)| == SERIALIZED_TRITS && |tx.address.trits| == 243
    ensures Serialize(tx)[6561..7047]
         == tx.address.trits + (ToTrits(tx.value, 81) + tx.obsoleteTag + ToTrits(AsInt64(tx.timestamp), 27)
                                + ToTrits(AsInt64(tx.currentIndex), 27) + ToTrits(AsInt64(tx.lastIndex), 27))
  {
    hide Serialize, Offset, Widths, ValueReadable, ToTrits, AsInt64, Fields;
    EssenceFields(tx);
    SerializeThenDeserialize(tx);
    OffsetsAre();
    SixSlices(Serialize(tx));
    SerializedField(tx, 1);
    SerializedField(tx, 2);
    SerializedField(tx, 3);
    SerializedField(tx, 4);
    SerializedField(tx, 5);
    SerializedField(tx, 6);
  }

  lemma EssenceFields(tx: Transaction)
    ensures var s := Fields(tx);
            && s[1] == tx.address.trits && s[2] == ToTrits(tx.value, 81) && s[3] == tx.obsoleteTag
            && s[4] == ToTrits(AsInt64(tx.timestamp), 27) && s[5] == ToTrits(AsInt64(tx.currentIndex), 27)
            && s[6] == ToTrits(AsInt64(tx.lastIndex), 27)
  {
    hide ToTrits, AsInt64, Flatten;
  }

  lemma SixSlices(s: seq<Trit>)
    requires |s| == SERIALIZED_TRITS
    ensures s[6561..7047]
              == s[6561..6804] + (s[6804..6885] + s[6885..6966] + s[6966..6993] + s[6993..7020] + s[7020..7047])
  {
  }

  /** A 31-trit timestamp next to index 0: one digit survives in the index field. */
  lemma SpillWitness(tx: Transaction)
    requires tx.Sized() && tx.timestamp == 102945566047325 && tx.currentIndex == 0
    ensures |Serialize(tx)| == SERIALIZED_TRITS
    ensures Serialize(tx)[6561..7047] != Essence(tx)[0].trits + Essence(tx)[1].trits
  {
    hide Serialize, Essence, Half, Width, Transaction.Sized;
    EssenceIsSerialized(tx);
    HalfValues();
    ExtentOfZero();
  }

  lemma ExtentOfZero()
    ensures Extent(0) == 3
  {
    WidthBase(0);
  }

  // ----- what the essence determines

  predicate EssenceFits(tx: Transaction)
  {
    Fits(AsInt64(tx.timestamp), 27) && Fits(AsInt64(tx.currentIndex), 27) && Fits(AsInt64(tx.lastIndex), 27)
  }

  /** The hash reads only the six essence fields. */
  ghost predicate SameEssence(a: Transaction, b: Transaction)
  {
    && a.address == b.address && a.value == b.value && a.obsoleteTag == b.obsoleteTag
    && a.timestamp == b.timestamp && a.currentIndex == b.currentIndex && a.lastIndex == b.lastIndex
  }

  /** Among transactions whose integers fit their fields, the absorbed blocks determine the six fields. */
  lemma EssenceDetermines(a: Transaction, b: Transaction)
    requires EssenceSized(a) && EssenceSized(b) && EssenceFits(a) && EssenceFits(b)
    ensures Essence(a) == Essence(b) <==> SameEssence(a, b)
  {
    hide IndexTrits, ToTrits, Fits, AsInt64;
    if Essence(a) == Essence(b) {
      var s, t := Essence(a)[1].trits, Essence(b)[1].trits;
      FittingIndexes(AsInt64(a.timestamp), AsInt64(a.currentIndex), AsInt64(a.lastIndex));
      FittingIndexes(AsInt64(b.timestamp), AsInt64(b.currentIndex), AsInt64(b.lastIndex));
      assert s[..81] == ToTrits(a.value, 81) && t[..81] == ToTrits(b.value, 81);
      assert s[81..162] == a.obsoleteTag && t[81..162] == b.obsoleteTag;
      assert s[162..189] == ToTrits(AsInt64(a.timestamp), 27) && t[162..189] == ToTrits(AsInt64(b.timestamp), 27);
      assert s[189..216] == ToTrits(AsInt64(a.currentIndex), 27) && t[189..216] == ToTrits(AsInt64(b.currentIndex), 27);
      assert s[216..] == ToTrits(AsInt64(a.lastIndex), 27) && t[216..] == ToTrits(AsInt64(b.lastIndex), 27);
      Int64Fits(a.value, 81);
      Int64Fits(b.value, 81);
      SameDigits(a.value, b.value, 81);
      SameLongs(a.timestamp, b.timestamp);
      SameLongs(a.currentIndex, b.currentIndex);
      SameLongs(a.lastIndex, b.lastIndex);
    }
  }

  lemma FittingIndexes(timestamp: Int64, current: Int64, last: Int64)
    requires Fits(timestamp, 27) && Fits(current, 27)
    ensures IndexTrits(timestamp, current, last) == ToTrits(timestamp, 27) + ToTrits(current, 27) + ToTrits(last, 27)
  {
    hide IndexTrits, ToTrits, Overwrite, Half, Width;
    IndexFields(timestamp, current, last);
    HalfMonotone(27, 27 + Extent(current));
    HalfMonotone(27, 27 + Extent(last));
    FieldAfter(timestamp, current);
    FieldAfter(current, last);
  }

  lemma SameDigits(x: int, y: int, n: nat)
    requires Fits(x, n) && Fits(y, n) && ToTrits(x, n) == ToTrits(y, n)
    ensures x == y
  {
    ToTritsValue(x, n);
    ToTritsValue(y, n);
  }

  lemma SameLongs(x: UInt64, y: UInt64)
    requires Fits(AsInt64(x), 27) && Fits(AsInt64(y), 27) && ToTrits(AsInt64(x), 27) == ToTrits(AsInt64(y), 27)
    ensures x == y
  {
    hide Fits;
    SameDigits(AsInt64(x), AsInt64(y), 27);
  }

  /** The transaction that the absorbed blocks spell: its integers are read back from their 27-trit parts. */
  function Canonical(tx: Transaction): Transaction
  {
    var r := IndexTrits(AsInt64(tx.timestamp), AsInt64(tx.currentIndex), AsInt64(tx.lastIndex));
    tx.(timestamp := ReadLong(r[..27]), currentIndex := ReadLong(r[27..54]), lastIndex := ReadLong(r[54..]))
  }

  /** Every transaction shares its essence with one whose integers fit their fields, and that one is itself exactly
      when its own integers fit: a transaction that does not fit always collides with another one. */
  lemma CanonicalMeaning(tx: Transaction)
    ensures EssenceFits(Canonical(tx)) && Essence(Canonical(tx)) == Essence(tx)
    ensures SameEssence(Canonical(tx), tx) <==> EssenceFits(tx)
  {
    hide IndexTrits, ToTrits, Fits, AsInt64, ReadLong;
    var ts, ci, li := AsInt64(tx.timestamp), AsInt64(tx.currentIndex), AsInt64(tx.lastIndex);
    var r := IndexTrits(ts, ci, li);
    LongReadWrite(r[..27]);
    LongReadWrite(r[27..54]);
    LongReadWrite(r[54..]);
    var c := Canonical(tx);
    FittingIndexes(AsInt64(c.timestamp), AsInt64(c.currentIndex), AsInt64(c.lastIndex));
    assert r == r[..27] + r[27..54] + r[54..];
    if EssenceFits(tx) {
      FittingIndexes(ts, ci, li);
      assert r[..27] == ToTrits(ts, 27) && r[27..54] == ToTrits(ci, 27) && r[54..] == ToTrits(li, 27);
      LongRoundTrip(tx.timestamp);
      LongRoundTrip(tx.currentIndex);
      LongRoundTrip(tx.lastIndex);
    }
  }

  /** Two transactions have one essence exactly when the blocks spell the same six fields. */
  lemma EssenceEqualIff(a: Transaction, b: Transaction)
    requires EssenceSized(a) && EssenceSized(b)
    ensures Essence(a) == Essence(b) <==> SameEssence(Canonical(a), Canonical(b))
  {
    hide Essence, EssenceFits, IndexTrits, ReadLong, AsInt64;
    CanonicalMeaning(a);
    CanonicalMeaning(b);
    EssenceDetermines(Canonical(a), Canonical(b));
  }

  // ----- two transactions with one essence

  /** Low digits, then high digits. */
  lemma SplitTrits(low: int, high: int, n: nat, m: nat)
    requires Fits(low, n) && Fits(high, m)
    ensures ToTrits(low + Pow3(n) * high, n + m) == ToTrits(low, n) + ToTrits(high, m)
  {
    hide ToTrits, Val, Half, Pow3;
    ToTritsValue(low, n);
    ToTritsValue(high, m);
    var t := ToTrits(low, n) + ToTrits(high, m);
    ValAppend(ToTrits(low, n), ToTrits(high, m));
    ToTritsOfVal(t);
  }

  /** Outside that range it does not: a timestamp that spills and a shorter one with another index give one essence. */
  lemma EssenceCollision(tx: Transaction)
    requires tx.timestamp == 102945566047325 && tx.currentIndex == 0
    ensures var other := tx.(timestamp := AsUInt64(-3812798742493), currentIndex := 27);
            Essence(other) == Essence(tx) && !SameEssence(other, tx)
  {
    hide IndexTrits, ToTrits, Overwrite, Half, Pow3;
    var li := AsInt64(tx.lastIndex);
    HalfValues();
    Halves();
    SplitTrits(-3812798742493, 14, 27, 27);
    SplitTrits(-3812798742493, 0, 27, 27);
    UnitMultiples(Pow3(27));
    IndexFields(102945566047325, 0, li);
    IndexFields(-3812798742493, 27, li);
    var t, u := ToTrits(102945566047325, 54), ToTrits(-3812798742493, 54);
    ToTritsPrefix(102945566047325, 54, 27);
    ToTritsPrefix(-3812798742493, 54, 27);
    assert t[27..] == ToTrits(14, 27) && u[27..] == ToTrits(0, 27);
    OverwrittenFields();
    assert ToTrits(0, 54)[27..] == ToTrits(27, 54)[27..];
  }

  lemma Halves()
    ensures Half(3) == 13 && Half(4) == 40 && Fits(14, 27) && Fits(27, 27) && Fits(0, 27)
              && Pow3(27) == 2 * Half(27) + 1
  {
    assert Half(1) == 1 && Half(2) == 4;
    hide Half;
    HalfValues();
  }

  lemma OverwrittenFields()
    ensures Overwrite(ToTrits(14, 27), 0) == Overwrite(ToTrits(0, 27), 27)
    ensures ToTrits(0, 54)[27..] == ToTrits(27, 54)[27..]
  {
    hide Half, ToTrits, Width, Fits, Pow3;
    Halves();
    ThreeTrits();
    ExtentOfZero();
    SplitTrits(-13, 1, 3, 24);
    SplitTrits(0, 1, 3, 24);
    assert Overwrite(ToTrits(14, 27), 0) == ToTrits(0, 3) + ToTrits(1, 24);
    OverwriteIff(0, 27, 27);
    ToTritsPad(0, 27, 54);
    ToTritsPad(27, 27, 54);
  }

  lemma CubeOf3()
    ensures Pow3(3) == 27
  {
    assert Pow3(1) == 3 && Pow3(2) == 9;
  }

  lemma ThreeTrits()
    ensures Pow3(3) == 27 && Fits(-13, 3) && Fits(0, 3) && Fits(1, 24) && Fits(0, Extent(27))
  {
    hide Half, Width, Pow3;
    CubeOf3();
    Halves();
    HalfMonotone(3, 24);
    HalfMonotone(3, Extent(27));
  }
}
