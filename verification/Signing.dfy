/**
 The signing scheme behind bundle signatures (common/crypto/iss/v1/iss.c.inc,
 common/helpers/sign.c), over an arbitrary sponge transform. A key, a signature
 and a fragment are sequences of HASH_LENGTH blocks; a fragment has 27 of them.
 */
module Signing {
  import opened Arith
  import opened Ternary
  import opened Sponges
  import opened Normalize

  /** n rounds of absorb, squeeze, reset on one block. */
  function Chain(f: Transform, x: Hash, n: nat): Hash
    decreases n
  {
    if n == 0 then x else Chain(f, Digest(f, [x]), n - 1)
  }

  /** One round is one digest, and rounds add up: this fixes the chain. */
  lemma {:induction false} ChainTwice(f: Transform, x: Hash, a: nat, b: nat)
    ensures Chain(f, Chain(f, x, a), b) == Chain(f, x, a + b)
    ensures Chain(f, x, 0) == x && Chain(f, x, 1) == Digest(f, [x])
    decreases a
  {
    if a != 0 {
      ChainTwice(f, Digest(f, [x]), a - 1, b);
    }
  }

  /** Run the chain of every block of a fragment, each for its own number of rounds. */
  function ChainAll(f: Transform, blocks: seq<Hash>, rounds: seq<nat>): (r: seq<Hash>)
    requires |blocks| <= |rounds|
    ensures |r| == |blocks|
    ensures forall i :: 0 <= i < |r| ==> r[i] == Chain(f, blocks[i], rounds[i])
  {
    seq(|blocks|, i requires 0 <= i < |blocks| => Chain(f, blocks[i], rounds[i]))
  }

  // ----- keys and addresses

  /** iss_kerl_subseed: the seed plus the key index, hashed. */
  function Subseed(f: Transform, seed: Hash, index: nat): Hash
  {
    Digest(f, [Hash(Add(seed.trits, index, 0).trits)])
  }

  /** Key indexes closer than 3^n never share the trits that are hashed into a subseed. */
  lemma SubseedInputsDiffer(seed: Hash, i: nat, j: nat)
    requires i < j && j - i < Pow3(|seed.trits|)
    ensures Add(seed.trits, i, 0).trits != Add(seed.trits, j, 0).trits
  {
    hide Add, Val, Pow3;
    var p := Pow3(|seed.trits|);
    AddExact(seed.trits, i, 0);
    AddExact(seed.trits, j, 0);
    var a, b := Add(seed.trits, i, 0), Add(seed.trits, j, 0);
    var qa, qb := a.addend + a.carry, b.addend + b.carry;
    if a.trits == b.trits {
      assert j - i == p * qb - p * qa == p * (qb - qa);
      SmallMultiple(p, qb - qa);
    }
  }

  /** A subseed is the digest of one block that spells the seed plus the key index, modulo 3^n. */
  lemma SubseedBlock(f: Transform, seed: Hash, index: nat) returns (block: seq<Trit>)
    ensures |block| == |seed.trits| && SameModulo(Val(block), Val(seed.trits) + index, |block|)
    ensures Subseed(f, seed, index) == Digest(f, [Hash(block)])
  {
    hide SameModulo;
    block := Add(seed.trits, index, 0).trits;
    AddMeaning(seed.trits, index);
  }

  /** Key indexes closer than 3^n have different subseeds, unless two different blocks with one digest are exhibited. */
  lemma SubseedsDiffer(f: Transform, seed: Hash, i: nat, j: nat) returns (x: Hash, y: Hash)
    requires i < j && j - i < Pow3(|seed.trits|)
    ensures Subseed(f, seed, i) != Subseed(f, seed, j) || (x != y && Digest(f, [x]) == Digest(f, [y]))
  {
    hide Add, Pow3;
    SubseedInputsDiffer(seed, i, j);
    x, y := Hash(Add(seed.trits, i, 0).trits), Hash(Add(seed.trits, j, 0).trits);
  }

  /** iss_kerl_key: absorb the subseed once, then squeeze every block of the key. */
  function Key(f: Transform, seed: Hash, index: nat, security: nat): (r: seq<Hash>)
    ensures |r| == 27 * security
  {
    seq(27 * security, i requires 0 <= i < 27 * security => f([Subseed(f, seed, index)], i))
  }

  /** Fragment j of a key or of a signature. */
  function Fragment(blocks: seq<Hash>, j: nat): (r: seq<Hash>)
    requires 27 * (j + 1) <= |blocks|
    ensures |r| == 27
  {
    blocks[27 * j..27 * (j + 1)]
  }

  /** iss_kerl_key_digest on one fragment: 26 rounds per block, then one digest. */
  function KeyDigest(f: Transform, fragment: seq<Hash>): Hash
  {
    Digest(f, ChainAll(f, fragment, seq(|fragment|, _ => 26)))
  }

  function KeyDigests(f: Transform, key: seq<Hash>, security: nat): (r: seq<Hash>)
    requires |key| == 27 * security
    ensures |r| == security
  {
    seq(security, j requires 0 <= j < security => KeyDigest(f, Fragment(key, j)))
  }

  /** iota_sign_address_gen_trits. */
  function Address(f: Transform, seed: Hash, index: nat, security: nat): Hash
  {
    Digest(f, KeyDigests(f, Key(f, seed, index, security), security))
  }

  // ----- signing and checking

  function SignRounds(norm: seq<Trit>, n: nat): (r: seq<nat>)
    requires 3 * n <= |norm|
    ensures |r| == n
  {
    seq(n, i requires 0 <= i < n => TRYTE_MAX - TryteVal(norm, i))
  }

  function CheckRounds(norm: seq<Trit>, n: nat): (r: seq<nat>)
    requires 3 * n <= |norm|
    ensures |r| == n
  {
    seq(n, i requires 0 <= i < n => TryteVal(norm, i) - TRYTE_MIN)
  }

  /** iss_kerl_signature: block i of the key is chained 13 - (tryte i) times. */
  function Signature(f: Transform, key: seq<Hash>, norm: seq<Trit>): (r: seq<Hash>)
    requires 3 * |key| <= |norm|
    ensures |r| == |key|
  {
    ChainAll(f, key, SignRounds(norm, |key|))
  }

  /** iss_kerl_sig_digest: block i of a fragment is chained (tryte i) + 13 times, then all are digested. */
  function SigDigest(f: Transform, fragment: seq<Hash>, norm: seq<Trit>): Hash
    requires 3 * |fragment| <= |norm|
  {
    Digest(f, ChainAll(f, fragment, CheckRounds(norm, |fragment|)))
  }

  /** iota_sign_signature_gen_flex_trits: no signature for a security level outside 1 to 3. */
  function SignatureGen(f: Transform, seed: Hash, index: nat, security: nat, hash: Hash): (r: seq<Hash>)
    requires 1 <= security <= 3 && |hash.trits| == HASH_LENGTH
    ensures |r| == 27 * security
  {
    Signature(f, Key(f, seed, index, security), NormalizedTrits(hash))
  }

  /** Block i of a signature is block i of the key, hashed 13 - (normalized tryte i) times: at least once for a tryte
      that is not 13, so no key block of a secure hash is given away. */
  lemma SignatureBlock(f: Transform, seed: Hash, index: nat, security: nat, hash: Hash, i: nat)
    requires 1 <= security <= 3 && |hash.trits| == HASH_LENGTH && i < 27 * security
    ensures -13 <= NormalizeHash(hash)[i] <= 13
    ensures var key, v := Key(f, seed, index, security)[i], NormalizeHash(hash)[i];
            && SignatureGen(f, seed, index, security, hash)[i] == Chain(f, key, 13 - v)
            && (v != TRYTE_MAX ==> SignatureGen(f, seed, index, security, hash)[i]
                                   == Chain(f, Digest(f, [key]), 12 - v))
  {
    hide NormalizeHash, NormalizedTrits, Subseed;
    NormalizeHashBalances(hash);
    NormalizedTryte(hash, i);
  }

  /**
   The signing law: for every transform, key and normalized hash, digesting
   fragment j of the signature against trytes 27j.. of the hash gives the digest
   of fragment j of the key.
   */
  lemma SigningLaw(f: Transform, key: seq<Hash>, norm: seq<Trit>, j: nat)
    requires 27 * (j + 1) <= |key| && 3 * |key| <= |norm|
    ensures SigDigest(f, Fragment(Signature(f, key, norm), j), norm[81 * j..]) == KeyDigest(f, Fragment(key, j))
  {
    var sig := Signature(f, key, norm);
    var part := norm[81 * j..];
    var checked := ChainAll(f, Fragment(sig, j), CheckRounds(part, 27));
    var digested := ChainAll(f, Fragment(key, j), seq(27, _ => 26));
    forall i | 0 <= i < 27 ensures checked[i] == digested[i] {
      SigningBlock(f, key, norm, j, i);
    }
    assert checked == digested;
  }

  lemma SigningBlock(f: Transform, key: seq<Hash>, norm: seq<Trit>, j: nat, i: nat)
    requires 27 * (j + 1) <= |key| && 3 * |key| <= |norm| && i < 27
    ensures Chain(f, Fragment(Signature(f, key, norm), j)[i], CheckRounds(norm[81 * j..], 27)[i])
         == Chain(f, Fragment(key, j)[i], 26)
  {
    hide Chain;
    var n := 27 * j + i;
    var v := TryteVal(norm, n);
    assert 81 * j + 3 * i == 3 * n;
    assert TryteVal(norm[81 * j..], i) == v;
    assert Signature(f, key, norm)[n] == Chain(f, key[n], 13 - v);
    ChainTwice(f, key[n], 13 - v, v + 13);
  }

  // ----- on a sponge (iss.c.inc)

  /** iss_kerl_subseed: add the index to a copy of the seed, absorb, squeeze, reset. */
  method DeriveSubseed(seed: Hash, index: nat, state: Sponge) returns (out: Hash)
    requires state.IsReset()
    modifies state
    ensures state.IsReset() && out == Subseed(state.f, seed, index)
  {
    hide Add, Val, Half, Pow3, SameModulo;
    var trits := seed.trits;
    var n := |trits|;
    var buffer := new int[n](i requires 0 <= i < n => trits[i]);
    assert buffer[..n] == trits;
    var code := AddAssign(buffer, n, index);
    var sum: seq<Trit> := buffer[..n];
    state.Absorb(Hash(sum));
    assert state.absorbed == [Hash(sum)];
    out := state.Squeeze();
    state.Reset();
  }

  /** iss_kerl_key: absorb the subseed, squeeze block after block, reset. */
  method DeriveKey(subseed: Hash, security: nat, state: Sponge) returns (key: seq<Hash>)
    requires state.IsReset()
    modifies state
    ensures state.IsReset() && |key| == 27 * security
    ensures forall i :: 0 <= i < |key| ==> key[i] == state.f([subseed], i)
  {
    state.Absorb(subseed);
    key := [];
    for i := 0 to 27 * security
      invariant |key| == i == state.squeezed && state.absorbed == [subseed]
      invariant forall j :: 0 <= j < i ==> key[j] == state.f([subseed], j)
    {
      var block := state.Squeeze();
      key := key + [block];
    }
    state.Reset();
  }

  /** Hash one block in place, again and again, as signing, checking and key digests do. */
  method HashRounds(block: Hash, rounds: nat, state: Sponge) returns (out: Hash)
    requires state.IsReset()
    modifies state
    ensures state.IsReset() && out == Chain(state.f, block, rounds)
  {
    out := block;
    for j := 0 to rounds
      invariant state.IsReset() && out == Chain(state.f, block, j)
    {
      ChainTwice(state.f, block, j, 1);
      ChainTwice(state.f, out, 0, 0);
      state.Absorb(out);
      assert state.absorbed == [out];
      out := state.Squeeze();
      state.Reset();
    }
  }
}
