/**
 Bundle hashing, indexing and finalizing (common/model/bundle.c). A bundle is an
 array of transaction records updated in place.
 */
module Bundle {
  import opened Ternary
  import opened Sponges
  import opened Normalize
  import opened Transactions
  import opened BundleEssence

  // ----- hash (bundle.c:109-124)

  function Essences(txs: seq<Transaction>): seq<Hash>
  {
    if |txs| == 0 then [] else Essences(txs[..|txs| - 1]) + Essence(txs[|txs| - 1])
  }

  function BundleHash(f: Transform, txs: seq<Transaction>): Hash
  {
    Digest(f, Essences(txs))
  }

  ghost predicate EssencesSized(txs: seq<Transaction>)
  {
    forall i :: 0 <= i < |txs| ==> EssenceSized(txs[i])
  }

  lemma SizedEssences(txs: seq<Transaction>)
    requires AllSized(txs)
    ensures EssencesSized(txs)
  {
    forall i | 0 <= i < |txs| ensures EssenceSized(txs[i]) {
      assert txs[i].Sized();
    }
  }

  /** bundle_calculate_hash. */
  method CalculateHash(bundle: array<Transaction>, kerl: Sponge) returns (out: Hash)
    requires EssencesSized(bundle[..])
    modifies kerl
    ensures out == BundleHash(kerl.f, bundle[..])
  {
    hide Essence, EssenceSized;
    kerl.Reset();
    ghost var txs := bundle[..];
    var buffer := new Trit[REACHED_TRITS](_ => 0);
    for i := 0 to bundle.Length
      invariant bundle[..] == txs
      invariant kerl.squeezed == 0 && kerl.absorbed == Essences(txs[..i])
    {
      assert EssenceSized(txs[i]);
      assert txs[..i + 1][..i] == txs[..i];
      AbsorbEssence(kerl, bundle[i], buffer);
    }
    assert txs[..bundle.Length] == txs;
    out := kerl.Squeeze();
  }

  /** Every transaction contributes its own two blocks, in order. */
  lemma {:induction false} EssencesAt(txs: seq<Transaction>, i: nat)
    requires i < |txs|
    ensures |Essences(txs)| == 2 * |txs| && Essences(txs)[2 * i..2 * i + 2] == Essence(txs[i])
  {
    hide Essence;
    var n := |txs| - 1;
    if n > 0 {
      EssencesAt(txs[..n], if i < n then i else 0);
    }
    var e, last := Essences(txs[..n]), Essence(txs[n]);
    assert |e| == 2 * n && Essences(txs) == e + last;
    if i < n {
      assert (e + last)[2 * i..2 * i + 2] == e[2 * i..2 * i + 2];
    } else {
      assert (e + last)[2 * n..2 * n + 2] == last;
    }
  }

  /** Two bundles are hashed alike exactly when they have the same length and every transaction spells the same six
      fields: no transaction, no field and no order is left out. */
  lemma EssencesEqualIff(a: seq<Transaction>, b: seq<Transaction>)
    requires EssencesSized(a) && EssencesSized(b)
    ensures Essences(a) == Essences(b) <==>
            |a| == |b| && forall i :: 0 <= i < |a| ==> SameEssence(Canonical(a[i]), Canonical(b[i]))
  {
    hide Essence, Canonical, SameEssence, Essences, EssenceSized;
    EssencesLength(a);
    EssencesLength(b);
    if Essences(a) == Essences(b) {
      forall i | 0 <= i < |a| ensures SameEssence(Canonical(a[i]), Canonical(b[i])) {
        EssencesAt(a, i);
        EssencesAt(b, i);
        EssenceEqualIff(a[i], b[i]);
      }
    } else if |a| == |b| && forall i :: 0 <= i < |a| ==> SameEssence(Canonical(a[i]), Canonical(b[i])) {
      forall i | 0 <= i < |a| ensures Essence(a[i]) == Essence(b[i]) {
        EssenceEqualIff(a[i], b[i]);
      }
      SameBlocks(a, b);
    }
  }

  lemma EssencesLength(txs: seq<Transaction>)
    ensures |Essences(txs)| == 2 * |txs|
  {
    if |txs| > 0 {
      EssencesAt(txs, 0);
    }
  }

  lemma {:induction false} SameBlocks(a: seq<Transaction>, b: seq<Transaction>)
    requires |a| == |b| && forall i :: 0 <= i < |a| ==> Essence(a[i]) == Essence(b[i])
    ensures Essences(a) == Essences(b)
  {
    hide Essence;
    if |a| != 0 {
      SameBlocks(a[..|a| - 1], b[..|b| - 1]);
    }
  }

  /** Hence one bundle hash for two bundles that differ in a spelled field exhibits a collision of the sponge. */
  lemma HashCommits(f: Transform, a: seq<Transaction>, b: seq<Transaction>) returns (x: seq<Hash>, y: seq<Hash>)
    requires EssencesSized(a) && EssencesSized(b) && BundleHash(f, a) == BundleHash(f, b)
    ensures (|a| == |b| && forall i :: 0 <= i < |a| ==> SameEssence(Canonical(a[i]), Canonical(b[i])))
            || (x != y && Digest(f, x) == Digest(f, y))
  {
    hide Canonical, SameEssence, Essences, EssencesSized;
    EssencesEqualIff(a, b);
    x, y := Essences(a), Essences(b);
  }

  ghost predicate SameEssences(a: seq<Transaction>, b: seq<Transaction>)
  {
    |a| == |b| && forall i :: 0 <= i < |a| ==> SameEssence(a[i], b[i])
  }

  lemma {:induction false} HashReadsEssence(a: seq<Transaction>, b: seq<Transaction>)
    requires SameEssences(a, b)
    ensures Essences(a) == Essences(b)
  {
    if |a| != 0 {
      HashReadsEssence(a[..|a| - 1], b[..|b| - 1]);
      assert SameEssence(a[|a| - 1], b[|b| - 1]);
    }
  }

  // ----- indexes (bundle.c:241-257)

  /** Transaction i of n, reindexed. */
  function Indexed(tx: Transaction, i: nat, n: nat): Transaction
    requires i < n < 0x1_0000_0000_0000_0000
  {
    tx.(currentIndex := i, lastIndex := n - 1)
  }

  function ResetIndexes(txs: seq<Transaction>): (r: seq<Transaction>)
    requires |txs| < 0x1_0000_0000_0000_0000
    ensures |r| == |txs|
  {
    seq(|txs|, i requires 0 <= i < |txs| => Indexed(txs[i], i, |txs|))
  }

  /** bundle_reset_indexes. */
  method ResetBundleIndexes(bundle: array?<Transaction>)
    requires bundle != null ==> bundle.Length < 0x1_0000_0000_0000_0000
    modifies bundle
    ensures bundle != null ==> bundle[..] == ResetIndexes(old(bundle[..]))
    ensures bundle != null ==> forall i :: 0 <= i < bundle.Length ==>
              && bundle[i].currentIndex == i && bundle[i].lastIndex == bundle.Length - 1
              && bundle[i].(currentIndex := old(bundle[i].currentIndex), lastIndex := old(bundle[i].lastIndex))
                 == old(bundle[i])
  {
    if bundle == null {
      return;
    }
    for i := 0 to bundle.Length
      invariant forall j :: 0 <= j < i ==> bundle[j] == Indexed(old(bundle[j]), j, bundle.Length)
      invariant forall j :: i <= j < bundle.Length ==> bundle[j] == old(bundle[j])
    {
      bundle[i] := bundle[i].(lastIndex := bundle.Length - 1);
      bundle[i] := bundle[i].(currentIndex := i);
    }
  }

  // ----- finalizing (bundle.c:133-164)

  /** The bundle with the head's obsolete tag incremented k times. */
  function Tagged(txs: seq<Transaction>, k: nat): (r: seq<Transaction>)
    requires |txs| > 0
    ensures |r| == |txs|
  {
    txs[0 := txs[0].(obsoleteTag := IncBy(txs[0].obsoleteTag, k))]
  }

  /** No normalized tryte of the hash is 13. */
  predicate IsSecure(hash: Hash)
    requires |hash.trits| == HASH_LENGTH
  {
    forall i :: 0 <= i < 81 ==> NormalizeHash(hash)[i] != TRYTE_MAX
  }

  /** The transform squeezes blocks of full length. */
  ghost predicate FullBlocks(f: Transform) { forall blocks, k :: |f(blocks, k).trits| == HASH_LENGTH }

  lemma HashIsFull(f: Transform, txs: seq<Transaction>)
    requires FullBlocks(f)
    ensures |BundleHash(f, txs).trits| == HASH_LENGTH
  {
  }

  ghost predicate SecureAt(f: Transform, txs: seq<Transaction>, k: nat)
    requires |txs| > 0 && FullBlocks(f)
  {
    IsSecure(BundleHash(f, Tagged(txs, k)))
  }

  /** k is the first number of increments that makes the bundle hash secure. */
  ghost predicate FirstSecure(f: Transform, txs: seq<Transaction>, k: nat)
    requires |txs| > 0 && FullBlocks(f)
  {
    SecureAt(f, txs, k) && forall j: nat :: j < k ==> !SecureAt(f, txs, j)
  }

  function WithHash(txs: seq<Transaction>, hash: Hash): (r: seq<Transaction>)
    ensures |r| == |txs|
  {
    seq(|txs|, i requires 0 <= i < |txs| => txs[i].(bundle := hash))
  }

  /** What finalizing leaves: the tag moved by k, and the hash of that in every bundle field. */
  function Finalized(f: Transform, txs: seq<Transaction>, k: nat): (r: seq<Transaction>)
    requires |txs| > 0
    ensures |r| == |txs|
  {
    WithHash(Tagged(txs, k), BundleHash(f, Tagged(txs, k)))
  }

  /** The scan for an insecure tryte. */
  method HasInsecureTryte(hash: Hash) returns (found: bool)
    requires |hash.trits| == HASH_LENGTH
    ensures found <==> !IsSecure(hash)
  {
    hide NormalizeHash;
    var normalized := new int[81](_ => 0);
    NormalizeInto(hash, normalized);
    assert forall j :: 0 <= j < 81 ==> normalized[j] == normalized[..][j];
    for i := 0 to 81
      invariant forall j :: 0 <= j < i ==> normalized[j] != TRYTE_MAX
    {
      if normalized[i] == TRYTE_MAX {
        return true;
      }
    }
    return false;
  }

  /** One more increment of the head's obsolete tag, through add_assign on a trit buffer. */
  method IncrementTag(bundle: array<Transaction>, tag: array<int>, ghost txs: seq<Transaction>, ghost k: nat)
    requires bundle.Length > 0 && |txs| == bundle.Length && bundle[..] == Tagged(txs, k)
    requires tag.Length == 81 && tag[..] == bundle[0].obsoleteTag
    modifies bundle, tag
    ensures bundle[..] == Tagged(txs, k + 1) && tag[..] == bundle[0].obsoleteTag
  {
    hide Add, Val, Inc, SameModulo, Half, Pow3;
    ghost var was := bundle[0].obsoleteTag;
    assert tag[..81] == was;
    var code := AddAssign(tag, 81, 1);
    AddOneIsInc(was);
    bundle[0] := bundle[0].(obsoleteTag := tag[..81]);
    assert tag[..81] == tag[..];
    assert bundle[..] == Tagged(txs, k + 1);
  }

  /**
   bundle_finalize. It stops whenever some number of tag increments makes the
   hash secure, at the least such number.
   */
  method Finalize(bundle: array<Transaction>, kerl: Sponge) returns (ghost k: nat)
    requires bundle.Length > 0 && EssencesSized(bundle[..]) && FullBlocks(kerl.f)
    requires exists n: nat :: SecureAt(kerl.f, bundle[..], n)
    modifies bundle, kerl
    ensures FirstSecure(kerl.f, old(bundle[..]), k)
    ensures bundle[..] == Finalized(kerl.f, old(bundle[..]), k)
  {
    hide BundleHash, IsSecure;
    ghost var txs := bundle[..];
    assert EssenceSized(txs[0]);
    ghost var bound: nat :| SecureAt(kerl.f, txs, bound);
    var headTag := bundle[0].obsoleteTag;
    var tag := new int[81](i requires 0 <= i < 81 => headTag[i]);
    assert tag[..] == bundle[0].obsoleteTag;
    k := 0;
    assert bundle[..] == Tagged(txs, 0);
    var hash := CalculateHash(bundle, kerl);
    HashIsFull(kerl.f, bundle[..]);
    var insecure := HasInsecureTryte(hash);
    while insecure
      invariant k <= bound && (insecure ==> k < bound)
      invariant bundle[..] == Tagged(txs, k) && tag[..] == bundle[0].obsoleteTag
      invariant hash == BundleHash(kerl.f, bundle[..]) && (insecure <==> !SecureAt(kerl.f, txs, k))
      invariant forall j: nat :: j < k ==> !SecureAt(kerl.f, txs, j)
      decreases bound - k
    {
      IncrementTag(bundle, tag, txs, k);
      k := k + 1;
      TaggedSized(txs, k);
      hash := CalculateHash(bundle, kerl);
      HashIsFull(kerl.f, bundle[..]);
      insecure := HasInsecureTryte(hash);
    }
    SetBundleHash(bundle, hash);
  }

  lemma TaggedSized(txs: seq<Transaction>, k: nat)
    requires |txs| > 0 && EssencesSized(txs)
    ensures EssencesSized(Tagged(txs, k))
  {
    assert EssenceSized(txs[0]);
  }

  method SetBundleHash(bundle: array<Transaction>, hash: Hash)
    modifies bundle
    ensures bundle[..] == WithHash(old(bundle[..]), hash)
  {
    for i := 0 to bundle.Length
      invariant forall j :: 0 <= j < i ==> bundle[j] == old(bundle[j]).(bundle := hash)
      invariant forall j :: i <= j < bundle.Length ==> bundle[j] == old(bundle[j])
    {
      bundle[i] := bundle[i].(bundle := hash);
    }
  }

  /**
   What finalizing means: only the head's obsolete tag and the bundle fields
   change, the tag is the original plus k modulo 3^81, and every bundle field is
   the hash of the finalized bundle itself.
   */
  lemma FinalizedMeaning(f: Transform, txs: seq<Transaction>, k: nat)
    requires |txs| > 0
    ensures var r := Finalized(f, txs, k);
            && SameModulo(Val(r[0].obsoleteTag), Val(txs[0].obsoleteTag) + k, |txs[0].obsoleteTag|)
            && (forall i :: 0 <= i < |txs| ==> r[i].bundle == BundleHash(f, r))
            && (forall i :: 0 <= i < |txs| ==>
                  r[i] == txs[i].(bundle := r[i].bundle, obsoleteTag := r[i].obsoleteTag))
            && (forall i :: 1 <= i < |txs| ==> r[i].obsoleteTag == txs[i].obsoleteTag)
  {
    hide IncBy, Val, SameModulo, Essence;
    IncByValue(txs[0].obsoleteTag, k);
    HashReadsEssence(Finalized(f, txs, k), Tagged(txs, k));
  }

  /** If any number of increments is secure, one below 3^81 is: the tag cycles. */
  lemma SearchIsBounded(f: Transform, txs: seq<Transaction>, k: nat)
    requires |txs| > 0 && FullBlocks(f) && FirstSecure(f, txs, k)
    ensures k < Pow3(|txs[0].obsoleteTag|)
  {
    hide BundleHash, IsSecure, IncBy, Pow3;
    if k >= Pow3(|txs[0].obsoleteTag|) {
      SecurityCycles(f, txs, k - Pow3(|txs[0].obsoleteTag|));
    }
  }

  lemma SecurityCycles(f: Transform, txs: seq<Transaction>, k: nat)
    requires |txs| > 0 && FullBlocks(f)
    ensures SecureAt(f, txs, k + Pow3(|txs[0].obsoleteTag|)) == SecureAt(f, txs, k)
  {
    hide BundleHash, IsSecure, IncBy, Pow3;
    IncByPeriod(txs[0].obsoleteTag, k);
  }

  lemma IncByPeriod(t: seq<Trit>, k: nat)
    ensures IncBy(t, k + Pow3(|t|)) == IncBy(t, k)
  {
    hide IncBy, Val, Pow3;
    var p := Pow3(|t|);
    var q := IncByQuotient(t, k);
    var q' := IncByQuotient(t, k + p);
    assert p * q' - p * q - p == p * (q' - q - 1);
    ValUniqueModulo(IncBy(t, k), IncBy(t, k + p), q' - q - 1);
  }
}
