/**
 bundle_validate and validate_signatures (common/model/bundle.c), proved against
 a specification that does not mention the order of the checks.
 */
module BundleValidate {
  import opened Ternary
  import opened Sponges
  import opened Normalize
  import opened Signing
  import opened Transactions
  import opened Codec
  import opened Bundle

  const MAX_IOTA_SUPPLY := 2779530283277761

  datatype Status =
    | NotInitialized | Valid | Empty | Incomplete | InvalidTx
    | InvalidInputAddress | InvalidValue | InvalidHash | InvalidSignature

  // ----- signature groups

  /** Transaction j continues the group of input i: same address, no value of its own. */
  predicate Continues(txs: seq<Transaction>, i: nat, j: nat)
    requires i < |txs|
  {
    j < |txs| && txs[j].address == txs[i].address && txs[j].value == 0
  }

  /** End of the run, from j on, of transactions that continue input i. */
  function GroupEnd(txs: seq<Transaction>, i: nat, j: nat): (e: nat)
    requires i < j <= |txs|
    ensures j <= e <= |txs|
    ensures !Continues(txs, i, e)
    ensures forall k :: j <= k < e ==> Continues(txs, i, k)
    decreases |txs| - j
  {
    if Continues(txs, i, j) then GroupEnd(txs, i, j + 1) else j
  }

  /** Groups of different inputs never overlap: an input has a value, so it continues no group. */
  lemma GroupsDisjoint(txs: seq<Transaction>, i: nat, j: nat)
    requires i < j < |txs| && txs[i].value < 0 && txs[j].value < 0
    ensures GroupEnd(txs, i, i + 1) <= j
  {
    assert !Continues(txs, i, j);
  }

  /** Digest of one signature fragment, checked against chunk j mod 3 of the normalized hash. */
  function FragmentDigest(f: Transform, tx: Transaction, norm: seq<Trit>, j: nat): Hash
    requires |tx.signature| == 27 && |norm| == HASH_LENGTH
  {
    SigDigest(f, tx.signature, norm[81 * (j % 3)..])
  }

  ghost predicate FullSignatures(txs: seq<Transaction>)
  {
    forall i :: 0 <= i < |txs| ==> |txs[i].signature| == 27
  }

  /** Digests of the fragments of transactions i..e. */
  function GroupDigests(f: Transform, txs: seq<Transaction>, norm: seq<Trit>, i: nat, e: nat): (r: seq<Hash>)
    requires i <= e <= |txs| && FullSignatures(txs) && |norm| == HASH_LENGTH
    ensures |r| == e - i
    decreases e
  {
    if e == i then [] else GroupDigests(f, txs, norm, i, e - 1) + [FragmentDigest(f, txs[e - 1], norm, e - 1 - i)]
  }

  /** Input i is correctly signed by the maximal group it heads. */
  predicate GroupSigned(f: Transform, txs: seq<Transaction>, norm: seq<Trit>, i: nat)
    requires i < |txs| && FullSignatures(txs) && |norm| == HASH_LENGTH
  {
    Digest(f, GroupDigests(f, txs, norm, i, GroupEnd(txs, i, i + 1))) == txs[i].address
  }

  ghost predicate AllSigned(f: Transform, txs: seq<Transaction>, norm: seq<Trit>)
    requires FullSignatures(txs) && |norm| == HASH_LENGTH
  {
    forall i :: 0 <= i < |txs| && txs[i].value < 0 ==> GroupSigned(f, txs, norm, i)
  }

  /** Trit offset of chunk j as the do/while loop advances it (bundle.c:71). */
  function ChunkOffset(j: nat): nat
  {
    if j == 0 then 0 else (ChunkOffset(j - 1) + 27 * 3 - 1) % HASH_LENGTH + 1
  }

  lemma {:induction false} ChunkOffsetCycles(j: nat)
    ensures ChunkOffset(j) % HASH_LENGTH == 81 * (j % 3)
    ensures ChunkOffset(j) == if j == 0 then 0 else 81 * ((j - 1) % 3 + 1)
  {
    if j != 0 {
      ChunkOffsetCycles(j - 1);
    }
  }

  /** The do/while loop of validate_signatures: absorb the fragment digests of one group. */
  method DigestGroup(bundle: array<Transaction>, norm: seq<Trit>, i: nat, addressKerl: Sponge)
    returns (address: Hash, next: nat)
    requires i < bundle.Length && FullSignatures(bundle[..]) && |norm| == HASH_LENGTH
    modifies addressKerl
    ensures next == GroupEnd(bundle[..], i, i + 1)
    ensures address == Digest(addressKerl.f, GroupDigests(addressKerl.f, bundle[..], norm, i, next))
  {
    hide FragmentDigest, SigDigest;
    ghost var txs := bundle[..];
    addressKerl.Reset();
    var offset := 0;
    next := i;
    var more := true;
    while more
      invariant i <= next <= bundle.Length && (next == i ==> more) && bundle[..] == txs
      invariant more ==> next < bundle.Length
      invariant offset == ChunkOffset(next - i)
      invariant next > i ==> (more <==> Continues(txs, i, next)) && GroupEnd(txs, i, i + 1) == GroupEnd(txs, i, next)
      invariant addressKerl.squeezed == 0
      invariant addressKerl.absorbed == GroupDigests(addressKerl.f, txs, norm, i, next)
      decreases bundle.Length - next
    {
      var digest := DigestFragment(addressKerl.f, bundle[next], norm, offset, next - i);
      addressKerl.Absorb(digest);
      offset := (offset + 27 * 3 - 1) % HASH_LENGTH + 1;
      next := next + 1;
      more := next < bundle.Length && bundle[next].address == bundle[i].address && bundle[next].value == 0;
    }
    address := addressKerl.Squeeze();
  }

  method DigestFragment(f: Transform, tx: Transaction, norm: seq<Trit>, offset: nat, ghost j: nat)
    returns (digest: Hash)
    requires |tx.signature| == 27 && |norm| == HASH_LENGTH && offset == ChunkOffset(j)
    ensures digest == FragmentDigest(f, tx, norm, j)
  {
    ChunkOffsetCycles(j);
    digest := SigDigest(f, tx.signature, norm[offset % HASH_LENGTH..]);
  }

  /** validate_signatures: the cursor jumps over every checked group. */
  method ValidateSignatures(bundle: array<Transaction>, norm: seq<Trit>, kerl: Sponge) returns (isValid: bool)
    requires FullSignatures(bundle[..]) && |norm| == HASH_LENGTH
    modifies kerl
    ensures isValid <==> AllSigned(kerl.f, bundle[..], norm)
  {
    hide GroupDigests;
    ghost var txs := bundle[..];
    var cursor := 0;
    while cursor < bundle.Length
      invariant 0 <= cursor <= bundle.Length && bundle[..] == txs
      invariant forall i :: 0 <= i < cursor && txs[i].value < 0 ==> GroupSigned(kerl.f, txs, norm, i)
    {
      if bundle[cursor].value >= 0 {
        cursor := cursor + 1;
        continue;
      }
      var address, next := DigestGroup(bundle, norm, cursor, kerl);
      if address != bundle[cursor].address {
        return false;
      }
      forall k | cursor < k < next ensures txs[k].value == 0 {
        assert Continues(txs, cursor, k);
      }
      cursor := next;
    }
    return true;
  }

  // ----- the whole bundle

  function Llabs(x: int): int { if x < 0 then -x else x }

  /** Sum of the values of the first i transactions. */
  function ValueSum(txs: seq<Transaction>, i: nat): int
    requires i <= |txs|
  {
    if i == 0 then 0 else ValueSum(txs, i - 1) + txs[i - 1].value
  }

  /** The supply is (3^33 - 1) / 2. */
  lemma SupplyIs()
    ensures MAX_IOTA_SUPPLY == Half(33)
  {
    HalfValues();
  }

  /** The sum is the sum: one transaction counts its value, and the values of two parts add up. */
  lemma {:induction false} ValueSumSplits(a: seq<Transaction>, b: seq<Transaction>)
    ensures |a| == 1 ==> ValueSum(a, 1) == a[0].value
    ensures ValueSum(a + b, |a| + |b|) == ValueSum(a, |a|) + ValueSum(b, |b|)
    decreases |b|
  {
    assert |a| == 1 ==> ValueSum(a, 0) == 0;
    if |b| == 0 {
      assert a + b == a;
    } else {
      var n := |b| - 1;
      ValueSumSplits(a, b[..n]);
      ValueSumPrefix(a + b, a + b[..n], |a| + n);
      ValueSumPrefix(b, b[..n], n);
    }
  }

  lemma {:induction false} ValueSumPrefix(a: seq<Transaction>, b: seq<Transaction>, n: nat)
    requires n <= |a| && n <= |b| && a[..n] == b[..n]
    ensures ValueSum(a, n) == ValueSum(b, n)
  {
    if n != 0 {
      assert a[..n - 1] == a[..n][..n - 1] && b[..n - 1] == b[..n][..n - 1];
      assert a[n - 1] == a[..n][n - 1] && b[n - 1] == b[..n][n - 1];
      ValueSumPrefix(a, b, n - 1);
    }
  }

  predicate InSupply(x: int) { -MAX_IOTA_SUPPLY <= x <= MAX_IOTA_SUPPLY }

  ghost predicate IndexesOk(txs: seq<Transaction>)
    requires |txs| > 0
  {
    |txs| == txs[0].lastIndex + 1 &&
    forall i :: 0 <= i < |txs| ==> txs[i].currentIndex == i && txs[i].lastIndex == txs[0].lastIndex
  }

  ghost predicate ValuesOk(txs: seq<Transaction>)
  {
    && (forall i :: 0 <= i < |txs| ==> InSupply(txs[i].value))
    && (forall i :: 0 <= i <= |txs| ==> InSupply(ValueSum(txs, i)))
    && ValueSum(txs, |txs|) == 0
  }

  ghost predicate AddressesOk(txs: seq<Transaction>)
    requires AllSized(txs)
  {
    forall i :: 0 <= i < |txs| && txs[i].value != 0 ==> txs[i].address.trits[HASH_LENGTH - 1] == 0
  }

  ghost predicate SignaturesOk(f: Transform, txs: seq<Transaction>)
    requires AllSized(txs) && FullBlocks(f)
  {
    HashIsFull(f, txs);
    AllSigned(f, txs, NormalizedTrits(BundleHash(f, txs)))
  }

  /** What a valid bundle is, independently of how it is checked. */
  ghost predicate ValidBundle(f: Transform, txs: seq<Transaction>)
    requires |txs| > 0 && AllSized(txs) && FullBlocks(f)
  {
    && IndexesOk(txs) && ValuesOk(txs) && AddressesOk(txs)
    && txs[0].bundle == BundleHash(f, txs)
    && SignaturesOk(f, txs)
  }

  /** The first check transaction i fails, in the order of the code; Valid when it fails none. */
  ghost function TxStatus(f: Transform, txs: seq<Transaction>, i: nat): Status
    requires i < |txs| && AllSized(txs) && FullBlocks(f)
  {
    if !InSupply(txs[i].value) || !InSupply(ValueSum(txs, i + 1)) then InvalidValue
    else if txs[i].currentIndex != i || txs[i].lastIndex != txs[0].lastIndex then InvalidTx
    else if txs[i].value != 0 && txs[i].address.trits[HASH_LENGTH - 1] != 0 then InvalidInputAddress
    else if txs[i].currentIndex == txs[0].lastIndex then FinalStatus(f, txs)
    else Valid
  }

  /** The checks made once, at the transaction whose index is the last one. */
  ghost function FinalStatus(f: Transform, txs: seq<Transaction>): Status
    requires |txs| > 0 && AllSized(txs) && FullBlocks(f)
  {
    if txs[0].lastIndex + 1 <= |txs| && ValueSum(txs, txs[0].lastIndex + 1) != 0 then InvalidValue
    else if txs[0].bundle != BundleHash(f, txs) then InvalidHash
    else if !SignaturesOk(f, txs) then InvalidSignature
    else Valid
  }

  /** Transaction i is the first that fails a check, and `status` is the check it fails. */
  ghost predicate FirstFault(f: Transform, txs: seq<Transaction>, i: nat, status: Status)
    requires AllSized(txs) && FullBlocks(f)
  {
    i < |txs| && TxStatus(f, txs, i) == status && forall j :: 0 <= j < i ==> TxStatus(f, txs, j) == Valid
  }

  /** The verdict on a bundle: valid exactly for valid bundles, incomplete exactly when the count is wrong, otherwise
      the first fault of the first faulty transaction. */
  ghost predicate IsVerdict(f: Transform, txs: seq<Transaction>, status: Status)
    requires |txs| > 0 && AllSized(txs) && FullBlocks(f)
  {
    && status != NotInitialized
    && (status == Valid <==> ValidBundle(f, txs))
    && (status == Incomplete <==> |txs| != txs[0].lastIndex + 1)
    && (status != Incomplete && status != Valid ==> exists i :: FirstFault(f, txs, i, status))
  }

  /** The order of the checks: a bad value hides a bad index, a bad index hides a bad address, and these hide the checks
      of the whole bundle, of which the total comes before the hash and the hash before the signatures. */
  lemma CheckOrder(f: Transform, txs: seq<Transaction>, i: nat)
    requires i < |txs| && AllSized(txs) && FullBlocks(f)
    ensures var status, tx := TxStatus(f, txs, i), txs[i];
            var badValue := !InSupply(tx.value) || !InSupply(ValueSum(txs, i + 1));
            var badIndex := tx.currentIndex != i || tx.lastIndex != txs[0].lastIndex;
            && (badValue ==> status == InvalidValue)
            && (status == InvalidTx <==> !badValue && badIndex)
            && (status == InvalidInputAddress ==> !badValue && !badIndex && tx.value != 0)
            && (status == InvalidHash || status == InvalidSignature ==> !badValue && !badIndex && i == txs[0].lastIndex
                                                                        && ValueSum(txs, i + 1) == 0)
            && (status == InvalidSignature ==> txs[0].bundle == BundleHash(f, txs))
            && (status == InvalidHash ==> txs[0].bundle != BundleHash(f, txs))
  {
    hide BundleHash, SignaturesOk, ValueSum, Transaction.Sized;
  }

  /** A complete bundle is valid exactly when no transaction fails a check. */
  lemma ValidIffNoFault(f: Transform, txs: seq<Transaction>)
    requires |txs| > 0 && AllSized(txs) && FullBlocks(f) && |txs| == txs[0].lastIndex + 1
    ensures ValidBundle(f, txs) <==> forall i :: 0 <= i < |txs| ==> TxStatus(f, txs, i) == Valid
  {
    hide SignaturesOk, BundleHash, Transaction.Sized;
    if forall i :: 0 <= i < |txs| ==> TxStatus(f, txs, i) == Valid {
      NoFaultIsValid(f, txs);
    }
  }

  lemma NoFaultIsValid(f: Transform, txs: seq<Transaction>)
    requires |txs| > 0 && AllSized(txs) && FullBlocks(f) && |txs| == txs[0].lastIndex + 1
    requires forall i :: 0 <= i < |txs| ==> TxStatus(f, txs, i) == Valid
    ensures ValidBundle(f, txs)
  {
    hide SignaturesOk, BundleHash;
    forall i | 0 <= i < |txs|
      ensures InSupply(txs[i].value) && InSupply(ValueSum(txs, i + 1))
      ensures txs[i].currentIndex == i && txs[i].lastIndex == txs[0].lastIndex
      ensures txs[i].value != 0 ==> txs[i].address.trits[HASH_LENGTH - 1] == 0
    {
      assert TxStatus(f, txs, i) == Valid;
    }
    forall i | 0 <= i <= |txs| ensures InSupply(ValueSum(txs, i)) {
      if i > 0 {
        assert InSupply(ValueSum(txs, (i - 1) + 1));
      }
    }
    assert TxStatus(f, txs, |txs| - 1) == Valid;
    assert FinalStatus(f, txs) == Valid;
  }

  /** The last step of the loop: hash and signatures (bundle.c:216-235). */
  method ValidateWhole(bundle: array<Transaction>, bundleHash: Hash, f: Transform, bundleValue: int)
    returns (status: Status)
    requires bundle.Length > 0 && AllSized(bundle[..]) && FullBlocks(f)
    requires bundle.Length == bundle[0].lastIndex + 1 && bundleHash == bundle[0].bundle
    requires bundleValue == ValueSum(bundle[..], bundle.Length)
    ensures status == FinalStatus(f, bundle[..])
  {
    hide AllSigned, NormalizedTrits, BundleHash;
    if bundleValue != 0 {
      return InvalidValue;
    }
    var kerl := new Sponge(f);
    SizedEssences(bundle[..]);
    var calculated := CalculateHash(bundle, kerl);
    if bundleHash != calculated {
      return InvalidHash;
    }
    HashIsFull(f, bundle[..]);
    var validSig := ValidateSignatures(bundle, NormalizedTrits(calculated), kerl);
    return if validSig then Valid else InvalidSignature;
  }

  /**
   bundle_validate on a non-empty bundle. BUNDLE_VALID is reported exactly for
   valid bundles; any other verdict is the first failing check of the first
   failing transaction. The running sum stays within int64_t.
   */
  method Validate(bundle: array?<Transaction>, f: Transform) returns (status: Status)
    requires bundle != null ==> bundle.Length > 0 && AllSized(bundle[..]) && FullBlocks(f)
    ensures status == NotInitialized <==> bundle == null
    ensures bundle != null ==> IsVerdict(f, bundle[..], status)
  {
    hide FinalStatus, SignaturesOk, BundleHash, Transaction.Sized;
    if bundle == null {
      return NotInitialized;
    }
    var lastIndex: int := bundle[0].lastIndex;
    if bundle.Length != lastIndex + 1 {
      return Incomplete;
    }
    ghost var txs := bundle[..];
    ValidIffNoFault(f, txs);
    var i;
    status, i := CheckTransactions(bundle, f);
    assert status != Valid ==> FirstFault(f, bundle[..], i, status);
  }

  /** The loop over the transactions; i is where it stopped. */
  method CheckTransactions(bundle: array<Transaction>, f: Transform) returns (status: Status, i: nat)
    requires bundle.Length > 0 && AllSized(bundle[..]) && FullBlocks(f) && bundle.Length == bundle[0].lastIndex + 1
    ensures i <= bundle.Length && forall j :: 0 <= j < i ==> TxStatus(f, bundle[..], j) == Valid
    ensures status == Valid <==> i == bundle.Length
    ensures i < bundle.Length ==> TxStatus(f, bundle[..], i) == status
    ensures status != Incomplete && status != NotInitialized
  {
    hide FinalStatus, BundleHash, TxStatus, AllSized;
    var bundleValue: Int64 := 0;
    ghost var txs := bundle[..];
    status := Empty;
    i := 0;
    while i < bundle.Length
      invariant 0 <= i <= bundle.Length && bundle[..] == txs
      invariant bundleValue == ValueSum(txs, i) && InSupply(bundleValue)
      invariant i > 0 ==> status == Valid
      invariant forall j :: 0 <= j < i ==> TxStatus(f, txs, j) == Valid
    {
      status, bundleValue := CheckTransaction(bundle, f, i, bundleValue);
      if status != Valid {
        break;
      }
      i := i + 1;
    }
  }

  /** The body of the loop, for transaction i. */
  method CheckTransaction(bundle: array<Transaction>, f: Transform, i: nat, sum: Int64)
    returns (status: Status, bundleValue: Int64)
    requires i < bundle.Length && AllSized(bundle[..]) && FullBlocks(f) && bundle.Length == bundle[0].lastIndex + 1
    requires sum == ValueSum(bundle[..], i) && InSupply(sum)
    ensures status == TxStatus(f, bundle[..], i) && status != Incomplete && status != NotInitialized
    ensures status == Valid ==> bundleValue == ValueSum(bundle[..], i + 1) && InSupply(bundleValue)
  {
    hide SignaturesOk, BundleHash;
    var lastIndex := bundle[0].lastIndex;
    var bundleHash := bundle[0].bundle;
    var tx := bundle[i];
    assert bundle[..][i].Sized();
    bundleValue := sum;
    if Llabs(tx.value) > MAX_IOTA_SUPPLY {
      return InvalidValue, bundleValue;
    }
    bundleValue := bundleValue + tx.value;
    if Llabs(bundleValue) > MAX_IOTA_SUPPLY {
      return InvalidValue, bundleValue;
    }
    if tx.currentIndex != i || tx.lastIndex != lastIndex {
      return InvalidTx, bundleValue;
    }
    if tx.value != 0 && tx.address.trits[HASH_LENGTH - 1] != 0 {
      return InvalidInputAddress, bundleValue;
    }
    if tx.currentIndex == lastIndex {
      status := ValidateWhole(bundle, bundleHash, f, bundleValue);
      return status, bundleValue;
    }
    return Valid, bundleValue;
  }
}
