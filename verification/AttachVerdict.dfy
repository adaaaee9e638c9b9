/** Attaching a bundle does not change what bundle_validate says about it. */
module AttachVerdict {
  import opened Ternary
  import opened Sponges
  import opened Normalize
  import opened Transactions
  import opened BundleEssence
  import opened Bundle
  import opened BundleValidate
  import opened BundleSign
  import opened SignValidate
  import opened Attach

  lemma CoresShare(a: seq<Transaction>, b: seq<Transaction>)
    requires SameCores(a, b)
    ensures SameGroups(a, b) && SameEssences(a, b)
    ensures forall i :: 0 <= i < |a| ==> a[i].signature == b[i].signature && a[i].bundle == b[i].bundle
  {
    forall i | 0 <= i < |a|
      ensures SameEssence(a[i], b[i]) && a[i].signature == b[i].signature && a[i].bundle == b[i].bundle
    {
      assert SameCore(a[i], b[i]);
    }
  }

  lemma {:induction false} GroupDigestsSame(f: Transform, a: seq<Transaction>, b: seq<Transaction>, norm: seq<Trit>,
                                            i: nat, e: nat)
    requires |a| == |b| && FullSignatures(a) && FullSignatures(b) && |norm| == HASH_LENGTH && i <= e <= |a|
    requires forall j :: 0 <= j < |a| ==> a[j].signature == b[j].signature
    ensures GroupDigests(f, a, norm, i, e) == GroupDigests(f, b, norm, i, e)
    decreases e
  {
    if e != i {
      GroupDigestsSame(f, a, b, norm, i, e - 1);
      assert FragmentDigest(f, a[e - 1], norm, e - 1 - i) == FragmentDigest(f, b[e - 1], norm, e - 1 - i);
    }
  }

  lemma SignaturesSame(f: Transform, a: seq<Transaction>, b: seq<Transaction>)
    requires AllSized(a) && AllSized(b) && FullBlocks(f) && SameCores(a, b)
    ensures SignaturesOk(f, a) <==> SignaturesOk(f, b)
  {
    hide BundleHash, NormalizedTrits, GroupDigests, GroupEnd, SameCores;
    CoresShare(a, b);
    HashSame(f, a, b);
    HashIsFull(f, a);
    FullOfSized(a);
    FullOfSized(b);
    var norm := NormalizedTrits(BundleHash(f, a));
    forall i | 0 <= i < |a| && a[i].value < 0 ensures GroupSigned(f, a, norm, i) <==> GroupSigned(f, b, norm, i) {
      GroupEndSame(a, b, i, i + 1);
      GroupDigestsSame(f, a, b, norm, i, GroupEnd(a, i, i + 1));
    }
  }

  lemma FullOfSized(txs: seq<Transaction>)
    requires AllSized(txs)
    ensures FullSignatures(txs)
  {
    forall i | 0 <= i < |txs| ensures |txs[i].signature| == 27 {
      assert txs[i].Sized();
    }
  }

  lemma HashSame(f: Transform, a: seq<Transaction>, b: seq<Transaction>)
    requires SameEssences(a, b)
    ensures BundleHash(f, a) == BundleHash(f, b)
  {
    HashReadsEssence(a, b);
  }

  /** Every check of every transaction gives the same answer before and after attaching. */
  lemma VerdictUnchanged(f: Transform, a: seq<Transaction>, b: seq<Transaction>, i: nat)
    requires AllSized(a) && AllSized(b) && FullBlocks(f) && SameCores(a, b) && i < |a|
    ensures TxStatus(f, a, i) == TxStatus(f, b, i)
  {
    hide BundleHash, SignaturesOk, SameCores, Transaction.Sized, ValueSum;
    CoresShare(a, b);
    assert SameEssence(a[i], b[i]) && SameEssence(a[0], b[0]);
    SignaturesSame(f, a, b);
    HashSame(f, a, b);
    ValueSumSame(a, b, i + 1);
    if a[0].lastIndex + 1 <= |a| {
      ValueSumSame(a, b, a[0].lastIndex + 1);
    }
    SizedAt(a, i);
    SizedAt(b, i);
  }

  lemma SizedAt(txs: seq<Transaction>, i: nat)
    requires AllSized(txs) && i < |txs|
    ensures |txs[i].address.trits| == HASH_LENGTH
  {
    assert txs[i].Sized();
  }

  /** So a bundle is valid after attaching exactly when it was valid before. */
  lemma ValidityUnchanged(f: Transform, a: seq<Transaction>, b: seq<Transaction>)
    requires |a| > 0 && AllSized(a) && AllSized(b) && FullBlocks(f) && SameCores(a, b)
    ensures ValidBundle(f, a) <==> ValidBundle(f, b)
  {
    hide TxStatus, ValidBundle, SameCores, AllSized;
    CoresShare(a, b);
    assert SameEssence(a[0], b[0]);
    if |a| == a[0].lastIndex + 1 {
      forall i | 0 <= i < |a| ensures TxStatus(f, a, i) == TxStatus(f, b, i) {
        VerdictUnchanged(f, a, b, i);
      }
      ValidIffNoFault(f, a);
      ValidIffNoFault(f, b);
    } else {
      IncompleteIsInvalid(f, a);
      IncompleteIsInvalid(f, b);
    }
  }

  lemma IncompleteIsInvalid(f: Transform, txs: seq<Transaction>)
    requires |txs| > 0 && AllSized(txs) && FullBlocks(f) && |txs| != txs[0].lastIndex + 1
    ensures !ValidBundle(f, txs)
  {
  }

  /** Bundles that share their cores have one verdict. */
  lemma VerdictSame(f: Transform, a: seq<Transaction>, b: seq<Transaction>, x: Status, y: Status)
    requires |a| > 0 && |b| > 0 && AllSized(a) && AllSized(b) && FullBlocks(f) && SameCores(a, b)
    requires IsVerdict(f, a, x) && IsVerdict(f, b, y)
    ensures x == y
  {
    hide TxStatus, ValidBundle, SameCores, AllSized;
    CoresShare(a, b);
    assert SameEssence(a[0], b[0]);
    ValidityUnchanged(f, a, b);
    if x != Incomplete && x != Valid {
      var i :| FirstFault(f, a, i, x);
      var j :| FirstFault(f, b, j, y);
      var k := if i < j then i else j;
      VerdictUnchanged(f, a, b, k);
    }
  }

  /**
   Attaching never changes the verdict of bundle_validate, whatever the outcome of the attachment and whether or not
   the bundle was valid.
   */
  method AttachThenValidate(bundle: array<Transaction>, call: Call, f: Transform)
    returns (before: Status, outcome: Outcome, after: Status)
    requires bundle.Length > 0 && AllSized(bundle[..]) && FullBlocks(f) && (call.Call? ==> SizedTangle(call.g))
    requires LastAgrees(bundle[..], bundle[0].lastIndex)
    modifies bundle
    ensures after == before
    ensures AllSized(bundle[..]) && (after == Valid <==> ValidBundle(f, bundle[..]))
  {
    hide FirstFault, ValidBundle, SameCores, AllSized, Find, LinkedFrom;
    ghost var txs := bundle[..];
    before := Validate(bundle, f);
    SizedTags(txs);
    outcome := PowBundle(bundle, call);
    if outcome == NullParam {
      CoresReflexive(txs);
    }
    after := Validate(bundle, f);
    VerdictSame(f, bundle[..], txs, after, before);
  }

  lemma SizedTags(txs: seq<Transaction>)
    requires AllSized(txs)
    ensures AllTagsSized(txs)
  {
    forall i | 0 <= i < |txs| ensures TagsSized(txs[i]) {
      assert txs[i].Sized();
    }
  }
}
