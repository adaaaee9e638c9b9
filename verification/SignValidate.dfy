/**
 Sign-then-validate: bundle_sign followed by bundle_validate reports a valid
 bundle (common/model/bundle.c:166-320).
 */
module SignValidate {
  import opened Ternary
  import opened Sponges
  import opened Normalize
  import opened Signing
  import opened Transactions
  import opened BundleEssence
  import opened Bundle
  import opened BundleValidate
  import opened BundleSign

  /** The bundle after indexing and finalizing with k tag increments. */
  function Prepared(f: Transform, txs: seq<Transaction>, k: nat): (r: seq<Transaction>)
    requires 0 < |txs| < 0x1_0000_0000_0000_0000
    ensures |r| == |txs|
  {
    Finalized(f, ResetIndexes(txs), k)
  }

  lemma PreparedMeaning(f: Transform, txs: seq<Transaction>, k: nat)
    requires 0 < |txs| < 0x1_0000_0000_0000_0000 && FullBlocks(f)
    ensures var r := Prepared(f, txs, k);
            && SameGroups(r, txs) && Indexes(r) && FullHashes(r)
            && (forall i :: 0 <= i < |r| ==> r[i].bundle == BundleHash(f, r))
  {
    hide SameModulo, Val, IncBy, BundleHash;
    var s := ResetIndexes(txs);
    FinalizedMeaning(f, s, k);
    HashIsFull(f, Prepared(f, txs, k));
    hide Finalized;
    var r := Prepared(f, txs, k);
    forall i | 0 <= i < |r|
      ensures r[i].address == txs[i].address && r[i].value == txs[i].value
      ensures r[i].currentIndex == i && r[i].lastIndex == |r| - 1
      ensures |r[i].bundle.trits| == HASH_LENGTH
    {
      assert r[i] == s[i].(bundle := r[i].bundle, obsoleteTag := r[i].obsoleteTag);
    }
  }

  lemma PreparedSized(f: Transform, txs: seq<Transaction>, k: nat)
    requires 0 < |txs| < 0x1_0000_0000_0000_0000 && FullBlocks(f) && AllSized(txs)
    ensures AllSized(Prepared(f, txs, k))
  {
    hide SameModulo, Val, IncBy, BundleHash, Transaction.Sized;
    var s := ResetIndexes(txs);
    HashIsFull(f, Tagged(s, k));
    var r := Prepared(f, txs, k);
    forall i | 0 <= i < |r| ensures r[i].Sized() {
      assert txs[i].Sized() && |r[i].bundle.trits| == HASH_LENGTH;
      assert r[i] == s[i].(bundle := r[i].bundle, obsoleteTag := r[i].obsoleteTag);
      SizedUpdate(txs[i], r[i]);
    }
  }

  lemma SizedUpdate(a: Transaction, b: Transaction)
    requires a.Sized() && |b.bundle.trits| == HASH_LENGTH && |b.obsoleteTag| == |a.obsoleteTag|
    requires b == a.(bundle := b.bundle, obsoleteTag := b.obsoleteTag, currentIndex := b.currentIndex,
              lastIndex := b.lastIndex)
    ensures b.Sized()
  {
  }

  // ----- sizes survive signing

  lemma {:induction false} ChainIsFull(f: Transform, x: Hash, n: nat)
    requires FullBlocks(f) && |x.trits| == HASH_LENGTH
    ensures |Chain(f, x, n).trits| == HASH_LENGTH
    decreases n
  {
    if n != 0 {
      ChainIsFull(f, Digest(f, [x]), n - 1);
    }
  }

  lemma SignatureIsFull(f: Transform, seed: Hash, input: Input, hash: Hash, i: nat)
    requires FullBlocks(f) && |hash.trits| == HASH_LENGTH && 1 <= input.security <= 3 && i < 27 * input.security
    ensures |SignatureFor(f, seed, input, hash)[i].trits| == HASH_LENGTH
  {
    hide Chain, NormalizedTrits, Subseed;
    var key := Key(f, seed, input.keyIndex, input.security);
    var rounds := SignRounds(NormalizedTrits(hash), |key|);
    assert key[i] == f([Subseed(f, seed, input.keyIndex)], i);
    ChainIsFull(f, key[i], rounds[i]);
  }

  lemma {:induction false} SignedSized(f: Transform, seed: Hash, inputs: seq<Input>, txs: seq<Transaction>, t: nat)
    requires FullBlocks(f) && AllSized(txs) && Signable(f, seed, inputs, txs) && FullHashes(txs)
    ensures AllSized(SignedFrom(f, seed, inputs, txs, t))
    decreases |txs| - t
  {
    hide Signable, FullHashes, AllSized, SignatureFor, FirstMatch, WriteFragments, SignedFrom;
    if t >= |txs| {
      SignedDone(f, seed, inputs, txs, t);
    } else {
      SignStep(f, seed, inputs, txs, t);
      if txs[t].value < 0 {
        var input := inputs[FirstMatch(inputs, txs[t].address)];
        var sig := SignatureFor(f, seed, input, txs[t].bundle);
        forall i | 0 <= i < |sig| ensures |sig[i].trits| == HASH_LENGTH {
          SignatureIsFull(f, seed, input, txs[t].bundle, i);
        }
        WriteSized(txs, t, input.security, sig);
        SignedSized(f, seed, inputs, WriteFragments(txs, t, input.security, sig), t + input.security);
      } else {
        SignedSized(f, seed, inputs, txs, t + 1);
      }
    }
  }

  lemma WriteSized(txs: seq<Transaction>, at: nat, count: nat, sig: seq<Hash>)
    requires AllSized(txs) && |sig| == 27 * count && forall i :: 0 <= i < |sig| ==> |sig[i].trits| == HASH_LENGTH
    ensures AllSized(WriteFragments(txs, at, count, sig))
  {
    var r := WriteFragments(txs, at, count, sig);
    forall i | 0 <= i < |r| ensures r[i].Sized() {
      assert txs[i].Sized();
      if at <= i < at + count {
        assert r[i].signature == Fragment(sig, i - at);
      }
    }
  }

  // ----- the theorem

  lemma {:induction false} ValueSumSame(a: seq<Transaction>, b: seq<Transaction>, i: nat)
    requires SameGroups(a, b) && i <= |a|
    ensures ValueSum(a, i) == ValueSum(b, i)
  {
    if i != 0 {
      ValueSumSame(a, b, i - 1);
    }
  }

  lemma ValuesSame(a: seq<Transaction>, b: seq<Transaction>)
    requires SameGroups(a, b)
    ensures ValuesOk(a) <==> ValuesOk(b)
  {
    forall i | 0 <= i <= |a| ensures ValueSum(a, i) == ValueSum(b, i) {
      ValueSumSame(a, b, i);
    }
  }

  /** A signed bundle passes every check exactly when its values and addresses are in order. */
  lemma SignedIsValid(f: Transform, seed: Hash, inputs: seq<Input>, txs: seq<Transaction>, k: nat)
    requires 0 < |txs| < 0x1_0000_0000_0000_0000 && FullBlocks(f) && AllSized(txs)
    requires Signable(f, seed, inputs, txs)
    ensures Signable(f, seed, inputs, Prepared(f, txs, k)) && FullHashes(Prepared(f, txs, k))
    ensures var r := SignedFrom(f, seed, inputs, Prepared(f, txs, k), 0);
            AllSized(r) && (ValidBundle(f, r) <==> ValuesOk(txs) && AddressesOk(txs))
  {
    hide Signable, SignedFrom, Prepared, AllSized, BundleHash, SignaturesOk, ValuesOk, AddressesOk;
    var p := Prepared(f, txs, k);
    PreparedMeaning(f, txs, k);
    PreparedSized(f, txs, k);
    SignableSame(f, seed, inputs, p, txs);
    var r := SignedFrom(f, seed, inputs, p, 0);
    SignedSame(f, seed, inputs, p, 0);
    SignedSized(f, seed, inputs, p, 0);
    MessagesKeepGroups(r, p, txs);
    ValuesSame(r, txs);
    AddressesSame(r, txs);
    HashIgnoresMessages(f, r, p);
    SignedChecks(f, seed, inputs, p);
  }

  lemma MessagesKeepGroups(r: seq<Transaction>, p: seq<Transaction>, txs: seq<Transaction>)
    requires SameButMessages(r, p) && SameGroups(p, txs) && Indexes(p)
    ensures SameGroups(r, txs) && SameGroups(r, p) && Indexes(r)
    ensures |r| > 0 && |r| < 0x1_0000_0000_0000_0000 ==> IndexesOk(r)
    ensures forall i :: 0 <= i < |r| ==> r[i].bundle == p[i].bundle
  {
    assert forall i :: 0 <= i < |r| ==> r[i].(signature := p[i].signature) == p[i];
  }

  lemma AddressesSame(a: seq<Transaction>, b: seq<Transaction>)
    requires SameGroups(a, b) && AllSized(a) && AllSized(b)
    ensures AddressesOk(a) <==> AddressesOk(b)
  {
    hide Transaction.Sized;
  }

  lemma HashIgnoresMessages(f: Transform, a: seq<Transaction>, b: seq<Transaction>)
    requires SameButMessages(a, b)
    ensures BundleHash(f, a) == BundleHash(f, b)
  {
    hide Essences;
    forall i | 0 <= i < |a| ensures SameEssence(a[i], b[i]) {
      assert a[i].(signature := b[i].signature) == b[i];
    }
    HashReadsEssence(a, b);
  }

  lemma SignedChecks(f: Transform, seed: Hash, inputs: seq<Input>, p: seq<Transaction>)
    requires FullBlocks(f) && AllSized(p) && Signable(f, seed, inputs, p) && FullHashes(p)
    requires forall i :: 0 <= i < |p| ==> p[i].bundle == BundleHash(f, p)
    ensures var r := SignedFrom(f, seed, inputs, p, 0);
            AllSized(r) && SignaturesOk(f, r)
  {
    hide BundleHash, SignedFrom, NormalizedTrits, GroupSigned, HoldsSignature, SignatureFor, GroupEnd, Address,
         FirstMatch;
    var r := SignedFrom(f, seed, inputs, p, 0);
    SignedSized(f, seed, inputs, p, 0);
    SignedSame(f, seed, inputs, p, 0);
    HashIgnoresMessages(f, r, p);
    HashIsFull(f, r);
    assert FullSignatures(r) by {
      forall i | 0 <= i < |r| ensures |r[i].signature| == 27 {
        assert r[i].Sized();
      }
    }
    forall i | 0 <= i < |r| && r[i].value < 0 ensures GroupSigned(f, r, NormalizedTrits(BundleHash(f, r)), i) {
      assert r[i].(signature := p[i].signature) == p[i];
      SignedGroup(f, seed, inputs, p, 0, i);
      assert SameGroups(r, p) by {
        assert forall j :: 0 <= j < |r| ==> r[j].(signature := p[j].signature) == p[j];
      }
      GroupEndSame(r, p, i, i + 1);
      SignedGroupChecks(f, seed, inputs[FirstMatch(inputs, p[i].address)], r, i, p[i].bundle);
    }
  }

  // ----- the methods

  /** bundle_sign. */
  method Sign(bundle: array<Transaction>, seed: Hash, inputs: seq<Input>, kerl: Sponge)
    returns (code: Code, ghost k: nat)
    requires 0 < bundle.Length < 0x1_0000_0000_0000_0000 && EssencesSized(bundle[..])
    requires FullBlocks(kerl.f)
    requires exists n: nat :: SecureAt(kerl.f, ResetIndexes(bundle[..]), n)
    modifies bundle, kerl
    ensures FirstSecure(kerl.f, ResetIndexes(old(bundle[..])), k)
    ensures FullHashes(Prepared(kerl.f, old(bundle[..]), k))
    ensures Signed(code, bundle[..]) == SignFrom(kerl.f, seed, inputs, Prepared(kerl.f, old(bundle[..]), k), 0, 0)
    ensures SameButMessages(bundle[..], Prepared(kerl.f, old(bundle[..]), k))
    ensures Signable(kerl.f, seed, inputs, old(bundle[..])) ==>
              && code == Ok
              && Signable(kerl.f, seed, inputs, Prepared(kerl.f, old(bundle[..]), k))
              && bundle[..] == SignedFrom(kerl.f, seed, inputs, Prepared(kerl.f, old(bundle[..]), k), 0)
    ensures code == SignError ==>
              exists i :: 0 <= i < bundle.Length && old(bundle[i].value) < 0
                && IllegalLevel(inputs, old(bundle[i].address))
  {
    hide Signable, SignedFrom, FirstSecure, Finalized, FullHashes, SameGroups, Indexes, SameButMessages,
         SecureAt, SignFrom, EssencesSized;
    ghost var txs := bundle[..];
    ResetBundleIndexes(bundle);
    ResetSized(txs);
    k := Finalize(bundle, kerl);
    ghost var p := bundle[..];
    PreparedMeaning(kerl.f, txs, k);
    SignableSame(kerl.f, seed, inputs, p, txs);
    code := SignLoop(bundle, seed, inputs, kerl.f);
    SignKeepsRest(kerl.f, seed, inputs, p, 0, 0);
    if Signable(kerl.f, seed, inputs, txs) {
      SignableSigned(kerl.f, seed, inputs, p, 0);
    }
    if code == SignError {
      SignErrorMeans(kerl.f, seed, inputs, p, 0, 0);
    }
    SameGroupsAt(p, txs);
    if code == Ok {
      ghost var r := bundle[..];
      ResetTwice(r, p);
      ResetBundleIndexes(bundle);
    }
  }

  lemma ResetSized(txs: seq<Transaction>)
    requires |txs| < 0x1_0000_0000_0000_0000 && EssencesSized(txs)
    ensures EssencesSized(ResetIndexes(txs))
  {
    forall i | 0 <= i < |txs| ensures EssenceSized(ResetIndexes(txs)[i]) {
      assert EssenceSized(txs[i]);
    }
  }

  lemma SameGroupsAt(a: seq<Transaction>, b: seq<Transaction>)
    requires SameGroups(a, b)
    ensures |a| == |b| && forall i :: 0 <= i < |a| ==> a[i].address == b[i].address && a[i].value == b[i].value
  {
  }

  /** Reindexing an indexed bundle changes nothing. */
  lemma ResetTwice(a: seq<Transaction>, b: seq<Transaction>)
    requires SameButMessages(a, b) && Indexes(b) && |b| < 0x1_0000_0000_0000_0000
    ensures ResetIndexes(a) == a
  {
    forall i | 0 <= i < |a| ensures ResetIndexes(a)[i] == a[i] {
      assert a[i].(signature := b[i].signature) == b[i];
    }
  }

  /**
   Sign, then validate: for every bundle with one group per input, the verdict is
   Valid exactly when the values are within supply and balance and the value
   addresses are well formed.
   */
  method SignThenValidate(bundle: array<Transaction>, seed: Hash, inputs: seq<Input>, kerl: Sponge)
    returns (status: Status)
    requires 0 < bundle.Length < 0x1_0000_0000_0000_0000 && AllSized(bundle[..]) && FullBlocks(kerl.f)
    requires Signable(kerl.f, seed, inputs, bundle[..])
    requires exists n: nat :: SecureAt(kerl.f, ResetIndexes(bundle[..]), n)
    modifies bundle, kerl
    ensures status == Valid <==> ValuesOk(old(bundle[..])) && AddressesOk(old(bundle[..]))
  {
    hide ValuesOk, AddressesOk, SecureAt, SignedFrom, ValidBundle, Prepared, SameButMessages, FirstSecure;
    ghost var txs := bundle[..];
    SizedEssences(txs);
    var code, k := Sign(bundle, seed, inputs, kerl);
    SignedIsValid(kerl.f, seed, inputs, txs, k);
    status := Validate(bundle, kerl.f);
  }
}
