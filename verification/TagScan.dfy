/**
 The tags a miner hashes (utils/bundle_miner.c:41). Every thread writes its indexes one after the other into its own
 copy of the essence, in place; a shorter index leaves digits of a longer one behind.
 */
module TagScan {
  import opened Arith
  import opened Ternary
  import opened TritLong
  import opened Transactions
  import opened Codec

  const TAG_TRITS: nat := 81

  /** Where the range of thread k starts. */
  function RangeStart(start: int, per: nat, k: nat): int
  {
    start + per * k
  }

  lemma RangeStep(start: int, per: nat, k: nat)
    ensures RangeStart(start, per, 0) == start <= RangeStart(start, per, k)
    ensures RangeStart(start, per, k + 1) == RangeStart(start, per, k) + per
  {
    MulMonotone(per, 0, k);
  }

  predicate IsRangeStart(start: int, per: nat, x: int)
  {
    x <= start || per == 0 || (x - start) % per == 0
  }

  /** The tag in the buffer of the thread that hashes index x, for threads that scan `per` indexes each. */
  function CandidateTag(tag: seq<Trit>, start: int, per: nat, x: int): (r: seq<Trit>)
    ensures |r| == |tag|
    decreases x - start
  {
    if IsRangeStart(start, per, x) then Overwrite(tag, x) else Overwrite(CandidateTag(tag, start, per, x - 1), x)
  }

  /** The tags of the indexes s, s + 1, .., s + n - 1 arise by writing them one after the other over `tag`. */
  ghost predicate Follows(tags: int -> seq<Trit>, tag: seq<Trit>, s: int, n: nat)
  {
    && (n > 0 ==> tags(s) == Overwrite(tag, s))
    && forall x :: s < x < s + n ==> tags(x) == Overwrite(tags(x - 1), x)
  }

  /** The tags as the threads of one mining call leave them. */
  ghost predicate TagsOf(tags: int -> seq<Trit>, tag: seq<Trit>, start: int, per: nat)
  {
    forall x :: tags(x) == CandidateTag(tag, start, per, x)
  }

  lemma ThreadFollows(tags: int -> seq<Trit>, tag: seq<Trit>, start: int, per: nat, k: nat)
    requires TagsOf(tags, tag, start, per)
    ensures Follows(tags, tag, RangeStart(start, per, k), per)
  {
    hide Overwrite;
    if per > 0 {
      var s := RangeStart(start, per, k);
      RangeStep(start, per, k);
      DivisionIs(per * k, per, k, 0);
      assert IsRangeStart(start, per, s);
      forall x | s < x < s + per ensures tags(x) == Overwrite(tags(x - 1), x) {
        DivisionIs(x - start, per, k, x - s);
        assert !IsRangeStart(start, per, x);
      }
    }
  }

  // ----- one thread

  /** Every index is spelled by the tag that is hashed for it. */
  ghost predicate Spelled(tags: int -> seq<Trit>, s: int, n: nat)
  {
    forall x :: s <= x < s + n ==> tags(x) == ToTrits(x, TAG_TRITS)
  }

  /** Of the indexes s, .., s + n - 1 none leaves digits that the next one does not cover. */
  predicate NeverShorter(s: int, n: nat)
  {
    s >= -13 || (s + n - 1 < 0 && Width(s) == Width(s + n - 1))
  }

  /** A longer magnitude is at least as wide. */
  lemma WidthMonotone(x: int, y: int)
    requires Abs(x) <= Abs(y)
    ensures Width(x) <= Width(y) && Extent(x) <= Extent(y)
  {
    hide Half, Width;
    FitsIffWide(x, Width(y));
  }

  lemma WidthOf13(x: int)
    ensures Width(x) <= 3 <==> -13 <= x <= 13
  {
    assert Half(1) == 1 && Half(2) == 4 && Half(3) == 13;
    FitsIffWide(x, 3);
  }

  /** One more index: the scan stays clean exactly when the last write covers the index before. */
  lemma NeverShorterStep(s: int, n: nat)
    requires n > 0
    ensures NeverShorter(s, n + 1) <==> NeverShorter(s, n) && Fits(s + n - 1, Extent(s + n))
  {
    hide Half, Width, Fits;
    var e := s + n - 1;
    FitsIffWide(e, Extent(e + 1));
    WidthOf13(s);
    WidthOf13(e);
    WidthOf13(e + 1);
    if e >= 0 {
      WidthMonotone(e, e + 1);
    } else {
      WidthMonotone(e + 1, e);
      WidthMonotone(e, s);
    }
  }

  /** Writing s, .., s + n - 1 over the tag that spells `first` spells every index exactly when the first write covers
      `first` and no index is shorter than the one before. */
  lemma {:induction false} ThreadSpelledIff(tags: int -> seq<Trit>, first: Int64, s: int, n: nat)
    requires n > 0 && -0x8000_0000_0000_0000 <= s && s + n < 0x8000_0000_0000_0000
    requires Follows(tags, ToTrits(first, TAG_TRITS), s, n)
    ensures Spelled(tags, s, n) <==> Fits(first, Extent(s)) && NeverShorter(s, n)
    decreases n
  {
    hide ToTrits, Overwrite, Width, Half, Fits;
    if n == 1 {
      Int64Fits(first, TAG_TRITS);
      Int64Fits(s, TAG_TRITS);
      OverwriteIff(first, s, TAG_TRITS);
      assert tags(s) == Overwrite(ToTrits(first, TAG_TRITS), s);
    } else {
      var e := s + n - 1;
      ThreadSpelledIff(tags, first, s, n - 1);
      NeverShorterStep(s, n - 1);
      SpelledStep(tags, s, n - 1);
      assert tags(e) == Overwrite(tags(e - 1), e);
      Int64Fits(e, TAG_TRITS);
      Int64Fits(e - 1, TAG_TRITS);
      OverwriteIff(e - 1, e, TAG_TRITS);
    }
  }

  lemma SpelledStep(tags: int -> seq<Trit>, s: int, n: nat)
    ensures Spelled(tags, s, n + 1) <==> Spelled(tags, s, n) && tags(s + n) == ToTrits(s + n, TAG_TRITS)
    ensures n > 0 && Spelled(tags, s, n) ==> tags(s + n - 1) == ToTrits(s + n - 1, TAG_TRITS)
  {
    hide ToTrits;
  }

  // ----- all threads

  /** What a caller can check before mining: every thread's first index covers the tag it starts from, and no index of
      its range is shorter than the one before. */
  ghost predicate CleanRanges(start: int, per: nat, threads: nat)
  {
    forall k: nat :: k < threads ==>
      Fits(start, Extent(RangeStart(start, per, k))) && NeverShorter(RangeStart(start, per, k), per)
  }

  /** All threads together hash, for every index of the whole range, the tag that spells it, exactly when the ranges
      are clean. */
  lemma ScanSpelledIff(tags: int -> seq<Trit>, start: int, per: nat, threads: nat)
    requires per > 0 && TagsOf(tags, ToTrits(start, TAG_TRITS), start, per)
    requires -0x8000_0000_0000_0000 <= start && RangeStart(start, per, threads) < 0x8000_0000_0000_0000
    ensures Spelled(tags, start, per * threads) <==> CleanRanges(start, per, threads)
  {
    hide ToTrits, Width, Half, Fits, TagsOf, NeverShorter, RangeStart;
    RangeStep(start, per, threads);
    forall k: nat | k < threads
      ensures Spelled(tags, RangeStart(start, per, k), per)
         <==> Fits(start, Extent(RangeStart(start, per, k))) && NeverShorter(RangeStart(start, per, k), per)
    {
      InRange(start, per, threads, k);
      ThreadFollows(tags, ToTrits(start, TAG_TRITS), start, per, k);
      ThreadSpelledIff(tags, start, RangeStart(start, per, k), per);
    }
    SpelledByThreads(tags, start, per, threads);
  }

  lemma InRange(start: int, per: nat, threads: nat, k: nat)
    requires k < threads
    ensures start <= RangeStart(start, per, k) && RangeStart(start, per, k) + per <= RangeStart(start, per, threads)
  {
    RangeStep(start, per, k);
    MulMonotone(per, k + 1, threads);
  }

  lemma SpelledByThreads(tags: int -> seq<Trit>, start: int, per: nat, threads: nat)
    requires per > 0
    ensures Spelled(tags, start, per * threads)
       <==> forall k: nat :: k < threads ==> Spelled(tags, RangeStart(start, per, k), per)
  {
    hide ToTrits;
    if Spelled(tags, start, per * threads) {
      forall k: nat | k < threads ensures Spelled(tags, RangeStart(start, per, k), per) {
        InRange(start, per, threads, k);
      }
    }
    if forall k: nat :: k < threads ==> Spelled(tags, RangeStart(start, per, k), per) {
      forall x | start <= x < start + per * threads ensures tags(x) == ToTrits(x, TAG_TRITS) {
        var k := ThreadOf(start, per, threads, x);
        assert Spelled(tags, RangeStart(start, per, k), per);
      }
    }
  }

  /** The thread whose range holds index x. */
  lemma ThreadOf(start: int, per: nat, threads: nat, x: int) returns (k: nat)
    requires per > 0 && start <= x < start + per * threads
    ensures k < threads && RangeStart(start, per, k) <= x < RangeStart(start, per, k) + per
  {
    k := (x - start) / per;
    assert x - start == per * k + (x - start) % per;
    if k >= threads {
      MulMonotone(per, threads, k);
    }
  }

  /** In particular scans from -13 on are clean, however many threads there are. */
  lemma CleanFromMinus13(start: int, per: nat, threads: nat)
    requires start >= -13
    ensures CleanRanges(start, per, threads)
  {
    hide Half, Width, Fits, RangeStart;
    forall k: nat | k < threads
      ensures Fits(start, Extent(RangeStart(start, per, k))) && NeverShorter(RangeStart(start, per, k), per)
    {
      var s := RangeStart(start, per, k);
      RangeStep(start, per, k);
      FitsIffWide(start, Extent(s));
      WidthOf13(start);
      if start >= 0 {
        WidthMonotone(start, s);
      }
    }
  }

  /** For a single thread the condition is on the two ends of the range alone. */
  lemma CleanForOneThread(start: int, per: nat)
    ensures CleanRanges(start, per, 1) <==> NeverShorter(start, per)
  {
    hide Half, Width, Fits, RangeStart, NeverShorter;
    RangeStep(start, per, 0);
    FitsIffWide(start, Extent(start));
  }

  /** A scan of two indexes from -14 hashes a digit of -14 with the index -13. */
  lemma StaleScan()
    ensures CandidateTag(ToTrits(-14, TAG_TRITS), -14, 2, -13) != ToTrits(-13, TAG_TRITS)
  {
    hide ToTrits, Overwrite, Width, Half, Fits;
    var tag := ToTrits(-14, TAG_TRITS);
    Int64Fits(-14, TAG_TRITS);
    Int64Fits(-13, TAG_TRITS);
    WidthOf13(-13);
    WidthOf13(-14);
    FitsIffWide(-14, Extent(-14));
    FitsIffWide(-14, Extent(-13));
    OverwriteIff(-14, -14, TAG_TRITS);
    OverwriteIff(-14, -13, TAG_TRITS);
    assert CandidateTag(tag, -14, 2, -14) == tag;
  }
}
