/**
 What addresses and signatures commit to when no two inputs of the sponge collide: an address determines its key index
 and level, and a signed hash determines the signature.
 */
module SignatureBinding {
  import opened Ternary
  import opened Sponges
  import opened Normalize
  import opened Signing
  import opened Transactions
  import opened Bundle
  import opened BundleValidate
  import opened BundleSign

  /** Different absorbed blocks or different squeezed blocks never give the same block. */
  ghost predicate CollisionFree(f: Transform)
  {
    forall a, i, b, j :: f(a, i) == f(b, j) ==> a == b && i == j
  }

  lemma {:induction false} ChainInjective(f: Transform, x: Hash, y: Hash, n: nat)
    requires CollisionFree(f) && Chain(f, x, n) == Chain(f, y, n)
    ensures x == y
    decreases n
  {
    if n != 0 {
      ChainInjective(f, Digest(f, [x]), Digest(f, [y]), n - 1);
      assert [x] == [y];
      assert [x][0] == [y][0];
    }
  }

  lemma ChainsInjective(f: Transform, a: seq<Hash>, b: seq<Hash>, rounds: seq<nat>)
    requires CollisionFree(f) && |a| == |b| <= |rounds| && ChainAll(f, a, rounds) == ChainAll(f, b, rounds)
    ensures a == b
  {
    hide Chain;
    var u, v := ChainAll(f, a, rounds), ChainAll(f, b, rounds);
    forall i | 0 <= i < |a| ensures a[i] == b[i] {
      assert u[i] == v[i];
      ChainInjective(f, a[i], b[i], rounds[i]);
    }
  }

  lemma OneBlock(x: Hash, y: Hash)
    ensures [x] == [y] <==> x == y
  {
    assert [x][0] == x && [y][0] == y;
  }

  // ----- keys and addresses

  /** Key indexes closer than 3^n share no subseed. */
  lemma SubseedInjective(f: Transform, seed: Hash, i: nat, j: nat)
    requires CollisionFree(f) && -Pow3(|seed.trits|) < i - j < Pow3(|seed.trits|)
    requires Subseed(f, seed, i) == Subseed(f, seed, j)
    ensures i == j
  {
    hide Subseed, Pow3;
    if i != j {
      var x, y := SubseedsDiffer(f, seed, if i < j then i else j, if i < j then j else i);
      OneBlock(x, y);
    }
  }

  /** No two blocks of the keys of a seed are the same, within one key or across key indexes. */
  lemma KeyBlocksDiffer(f: Transform, seed: Hash, i: nat, a: nat, j: nat, b: nat, s: nat, t: nat)
    requires CollisionFree(f) && -Pow3(|seed.trits|) < i - j < Pow3(|seed.trits|)
    requires a < 27 * s && b < 27 * t && Key(f, seed, i, s)[a] == Key(f, seed, j, t)[b]
    ensures i == j && a == b
  {
    hide Subseed, Pow3;
    var x, y := [Subseed(f, seed, i)], [Subseed(f, seed, j)];
    assert f(x, a) == f(y, b);
    assert x[0] == y[0];
    SubseedInjective(f, seed, i, j);
  }

  lemma KeyDigestBinds(f: Transform, a: seq<Hash>, b: seq<Hash>)
    requires CollisionFree(f) && |a| == |b| && KeyDigest(f, a) == KeyDigest(f, b)
    ensures a == b
  {
    hide Chain;
    ChainsInjective(f, a, b, seq(|a|, _ => 26));
  }

  /** An address of a seed determines the key index and the security level it was made for. */
  lemma AddressBinds(f: Transform, seed: Hash, i: nat, s: nat, j: nat, t: nat)
    requires CollisionFree(f) && -Pow3(|seed.trits|) < i - j < Pow3(|seed.trits|)
    requires s > 0 && t > 0 && Address(f, seed, i, s) == Address(f, seed, j, t)
    ensures i == j && s == t
  {
    hide KeyDigest, Key, Pow3;
    var k, l := Key(f, seed, i, s), Key(f, seed, j, t);
    var d, e := KeyDigests(f, k, s), KeyDigests(f, l, t);
    assert d == e;
    assert KeyDigest(f, Fragment(k, 0)) == d[0] == e[0] == KeyDigest(f, Fragment(l, 0));
    KeyDigestBinds(f, Fragment(k, 0), Fragment(l, 0));
    assert k[0] == Fragment(k, 0)[0] == Fragment(l, 0)[0] == l[0];
    KeyBlocksDiffer(f, seed, i, 0, j, 0, s, t);
  }

  // ----- signatures

  /** A hash is secure exactly when signing it hashes every key block at least once, at every level. */
  lemma SecureIff(hash: Hash)
    requires |hash.trits| == HASH_LENGTH
    ensures IsSecure(hash) <==> forall i :: 0 <= i < 81 ==> SignRounds(NormalizedTrits(hash), 81)[i] >= 1
  {
    hide NormalizeHash, NormalizedTrits;
    NormalizeHashBalances(hash);
    forall i | 0 <= i < 81 ensures SignRounds(NormalizedTrits(hash), 81)[i] == 13 - NormalizeHash(hash)[i] {
      NormalizedTryte(hash, i);
    }
  }

  /** So the signature of a secure hash holds no key block as it is, only digests of key blocks, hashed on. */
  lemma SecureSignature(f: Transform, seed: Hash, index: nat, security: nat, hash: Hash, i: nat)
    requires 1 <= security <= 3 && |hash.trits| == HASH_LENGTH && i < 27 * security && IsSecure(hash)
    ensures -13 <= NormalizeHash(hash)[i] <= 12
    ensures SignatureGen(f, seed, index, security, hash)[i]
         == Chain(f, Digest(f, [Key(f, seed, index, security)[i]]), 12 - NormalizeHash(hash)[i])
  {
    hide NormalizeHash, Key, SignatureGen;
    SignatureBlock(f, seed, index, security, hash, i);
  }

  lemma SigDigestBinds(f: Transform, a: seq<Hash>, b: seq<Hash>, norm: seq<Trit>)
    requires CollisionFree(f) && |a| == |b| && 3 * |a| <= |norm| && SigDigest(f, a, norm) == SigDigest(f, b, norm)
    ensures a == b
  {
    hide Chain, CheckRounds;
    ChainsInjective(f, a, b, CheckRounds(norm, |a|));
  }

  lemma {:induction false} GroupDigestsBind(f: Transform, a: seq<Transaction>, b: seq<Transaction>, norm: seq<Trit>,
                                            i: nat, e: nat, p: nat)
    requires CollisionFree(f) && |a| == |b| && FullSignatures(a) && FullSignatures(b) && |norm| == HASH_LENGTH
    requires i <= p < e <= |a| && GroupDigests(f, a, norm, i, e) == GroupDigests(f, b, norm, i, e)
    ensures a[p].signature == b[p].signature
    decreases e
  {
    hide SigDigest, CollisionFree;
    var u, v := GroupDigests(f, a, norm, i, e), GroupDigests(f, b, norm, i, e);
    assert u[..e - 1 - i] == GroupDigests(f, a, norm, i, e - 1) && v[..e - 1 - i] == GroupDigests(f, b, norm, i, e - 1);
    if p == e - 1 {
      assert u[e - 1 - i] == v[e - 1 - i];
      SigDigestBinds(f, a[p].signature, b[p].signature, norm[81 * ((p - i) % 3)..]);
    } else {
      GroupDigestsBind(f, a, b, norm, i, e - 1, p);
    }
  }

  /**
   Two bundles with the same addresses and values whose input i is correctly signed for the same normalized hash carry
   the same signature in every slot of its group: there is no second valid signature of what was signed.
   */
  lemma SignaturesAreUnique(f: Transform, a: seq<Transaction>, b: seq<Transaction>, norm: seq<Trit>, i: nat, p: nat)
    requires CollisionFree(f) && SameGroups(a, b) && FullSignatures(a) && FullSignatures(b) && |norm| == HASH_LENGTH
    requires i < |a| && GroupSigned(f, a, norm, i) && GroupSigned(f, b, norm, i)
    requires i <= p < GroupEnd(a, i, i + 1)
    ensures a[p].signature == b[p].signature
  {
    hide GroupDigests, GroupEnd;
    GroupEndSame(a, b, i, i + 1);
    var e := GroupEnd(a, i, i + 1);
    assert GroupDigests(f, a, norm, i, e) == GroupDigests(f, b, norm, i, e);
    GroupDigestsBind(f, a, b, norm, i, e, p);
  }
}
