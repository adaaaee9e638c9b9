/**
 The hash sponges (Curl, Kerl), modelled as a deterministic function of the
 blocks absorbed since the last reset and of the number of blocks squeezed.
 */
module Sponges {
  import opened Ternary

  const HASH_LENGTH: nat := 243

  /** One sponge block: HASH_LENGTH trits. */
  datatype Hash = Hash(trits: seq<Trit>)

  function NullHash(): Hash { Hash(seq(HASH_LENGTH, _ => 0)) }

  /** absorbed blocks, number of blocks already squeezed -> next squeezed block */
  type Transform = (seq<Hash>, nat) -> Hash

  /** Absorb the blocks into a fresh sponge and squeeze one block. */
  function Digest(f: Transform, blocks: seq<Hash>): Hash { f(blocks, 0) }

  class Sponge {
    const f: Transform
    var absorbed: seq<Hash>
    var squeezed: nat

    ghost predicate IsReset()
      reads this
    {
      absorbed == [] && squeezed == 0
    }

    constructor (f: Transform)
      ensures this.f == f && IsReset()
    {
      this.f := f;
      absorbed, squeezed := [], 0;
    }

    method Absorb(block: Hash)
      requires squeezed == 0
      modifies this
      ensures absorbed == old(absorbed) + [block] && squeezed == 0
    {
      absorbed := absorbed + [block];
    }

    method Squeeze() returns (block: Hash)
      modifies this
      ensures block == f(absorbed, old(squeezed))
      ensures absorbed == old(absorbed) && squeezed == old(squeezed) + 1
    {
      block := f(absorbed, squeezed);
      squeezed := squeezed + 1;
    }

    method Reset()
      modifies this
      ensures IsReset()
    {
      absorbed, squeezed := [], 0;
    }

    /** Absorb two blocks, squeeze one, reset. */
    method HashPair(first: Hash, second: Hash) returns (block: Hash)
      requires IsReset()
      modifies this
      ensures IsReset() && block == Digest(f, [first, second])
    {
      Absorb(first);
      Absorb(second);
      assert absorbed == [first, second];
      block := Squeeze();
      Reset();
    }
  }
}
