# Verified core of Entangled

Entangled is the C implementation of the IOTA protocol libraries. This project
models its core data structures and algorithms in Dafny and proves what they
promise: trinary arithmetic, the transaction codec, bundles (hashing, finalizing,
signing, validating, attaching), Merkle trees, the bundle miner and the node's
bounded caches.

`dafny verify dfyconfig.toml` checks the whole project.

## Overview

| file | component |
|---|---|
| `Ternary.dfy`, `TritLong.dfy` | balanced ternary: ripple adder, increment, integers to trits and back |
| `Ptrit.dfy` | bit-sliced parallel counter, both bit encodings, any lane count |
| `PackedTrits.dfy` | four trits per byte: access, writes, byte-shifting slices |
| `Sponge.dfy` | Curl and Kerl as an arbitrary deterministic transform of the absorbed blocks |
| `MerkleIndex.dfy`, `Merkle.dfy` | flat depth-first Merkle tree: build, authentication path, root |
| `Normalize.dfy`, `Signing.dfy`, `SignatureBinding.dfy` | hash normalization, the hash-chain signature scheme, what addresses and signatures commit to |
| `Transactions.dfy`, `Codec.dfy` | the transaction record and its 8019-trit serialization |
| `BundleEssence.dfy`, `Bundle.dfy`, `BundleValidate.dfy`, `BundleSign.dfy`, `SignValidate.dfy` | bundles up to the sign-then-validate theorem |
| `Attach.dfy`, `AttachVerdict.dfy` | proof-of-work attachment chain |
| `Losing.dfy`, `TagScan.dfy`, `Miner.dfy` | parallel bundle miner as interleaved threads |
| `TipsCache.dfy`, `RecentSeenCache.dfy`, `Fifo.dfy` | the node's FIFO caches |
| `Arith.dfy`, `Bits.dfy` | arithmetic facts used by the others |

Main results:

- **Sign, then validate** (`SignValidate.SignThenValidate`): a bundle with one group
  per input is reported valid if and only if its values and addresses are in order.
  The signing law is not assumed: it is proved from the hash-chain construction
  (`Signing.SigningLaw`) for every sponge transform. What the signing loop leaves
  is stated for every bundle (`BundleSign.SignLoop`); the theorem asks for a
  matching input per input transaction, because without one the write cursor is
  not advanced, the next signature lands earlier (`BundleSign.UnmatchedShifts`) and is
  repeated until the input transaction is covered (`BundleSign.UnmatchedRepeats`).
- **Validation is exact** (`BundleValidate.Validate`): the verdict is "valid" if
  and only if the bundle is valid in a sense that does not mention the checks'
  order, and any other verdict is the first failing check of the first failing
  transaction. Attaching never changes the verdict
  (`AttachVerdict.AttachThenValidate`).
- **The bundle hash reads what the in-place writes leave**
  (`BundleEssence.AbsorbEssence`): that is the serialized essence if and only if no
  integer spills into the next field (`BundleEssence.EssenceIsSerialized`), and two
  transactions share it if and only if it spells the same fields
  (`BundleEssence.EssenceEqualIff`).
- **Normalization, addresses and signatures are determined.** A normalized fragment is
  characterised without its loops (`Normalize.NormalizeFragmentIff`). On a sponge
  without collisions an address determines its key index and level
  (`SignatureBinding.AddressBinds`) and there is no second valid signature
  (`SignatureBinding.SignaturesAreUnique`); the bundle hash commits to every
  transaction (`Bundle.EssencesEqualIff`, `Bundle.HashCommits`).
- **Merkle round trip and binding** (`Merkle.RoundTrip`, `Merkle.Binding`).
- **Miner under every interleaving** (`Miner.MineResult`, `Miner.RunIsBounded`), for
  every start tag, over the tags the in-place writes leave. When these spell the
  indexes is exact (`TagScan.ScanSpelledIff`); mined indexes are then tied to the tag
  increments of finalizing (`Miner.MinedIsTagged`).
- **The codec is a bijection** (`Codec.SerializeThenDeserialize`,
  `Codec.DeserializeThenSerialize`), with the exact condition on 27-trit integers.
- **The parallel counter** refines scalar counting exactly when a stated
  condition on its first byte holds (`Ptrits.HincrExactly`): only the first byte
  of the carry is tested, so a counter whose live lanes are all elsewhere stops
  after one digit.

Where code and documentation differ, the model follows the code:

- `ptrit_hincr` is documented for counters with arbitrary NaT lanes; it needs a
  live lane among the first eight (`Ptrits.HincrExactly`,
  `Ptrits.FirstByteWitness`).
- `add_assign` returns 1 for some sums that fit (`Ternary.CodeOneDespiteFit`). With a
  negative addend, return code 0 never means that the addend was subtracted
  (`Ternary.NegativeAddend`); adding -1 adds 1 (`Ternary.MinusOneAddsOne`).
- `absorb_essence` writes integers without cutting them to 27 trits, so a wide
  timestamp or index reaches into the next field: the absorbed blocks are then not
  the serialized ones (`BundleEssence.SpillWitness`). A transaction shares its essence
  with one whose integers fit 27 trits, and that is another one exactly when its own
  integers do not fit (`BundleEssence.CanonicalMeaning`,
  `BundleEssence.EssenceCollision`).
- The caches are documented as having a fixed capacity; with capacity 0 they hold
  one entry (`TipsCaches.ZeroCapacityKeepsOne`). Re-adding a cached tip to a full
  cache evicts the oldest tip and adds nothing, unless the tip is the oldest
  (`TipsCaches.ReAddKeepsIff`). A `tips_cache_remove` that overlaps a
  `tips_cache_set_solid` of the same tip can leave the tip in the cache
  (`TipsCaches.RemoveCanBeOvertaken`); `TipsCaches.RemoveEffectiveIff` states when
  exactly a remove is effective.
- `merkle_create` has a branch for an odd number of nodes on a level; the
  power-of-two test before it makes that branch unreachable.
- `iota_pow_bundle` tests and copies only the first 27 trits of the 81-trit tag, so
  a null tag ends equal to the obsolete tag only if that has nothing after its
  first 27 trits (`Attach.FillTagMeaning`).
- `bundle_miner_mine` hashes, for an index, a tag with digits of an earlier index when
  a thread comes to a shorter index below -13, or starts at an index shorter than the
  start tag (`TagScan.StaleScan`); `TagScan.ScanSpelledIff` gives the exact ranges
  without such tags, among them every range from -13 on (`TagScan.CleanFromMinus13`).

External inputs are parameters: the sponge transform, the leaf address of a key
index in the Merkle tree, the proof-of-work function, the transaction digest and
the clock. Integers are unbounded except where a width is written out.

## Model

| member | source | states |
|---|---|---|
| `Ternary.TritFullAdd` | common/trinary/add.c:30-35 | on trits, sum and carry of the full adder are trits that add up to the three operands |
| `Ternary.AddExact` | common/trinary/add.c:37-51 | for all trits, addend v >= 0 and carry: old value + v + carry = new value + 3^n * (addend left over + carry out) |
| `Ternary.AddendConsumed` | common/trinary/add.c:40-50 | the addend is used up exactly when it fits n trits |
| `Ternary.AddFits` | common/trinary/add.c:40-41 | nothing is left over exactly when the addend and the sum both fit |
| `Ternary.AddMeaning` | common/trinary/add.c:37-55 | the value is old + v modulo 3^n, and exactly old + v precisely when addend and sum fit |
| `Ternary.AddDigitsIsAdd` | common/trinary/add.c:37-51 | the recursion with C's truncating operators is, for a non-negative addend, the adder on trits |
| `Ternary.AddInternal` | common/trinary/add.c:37-51 | for addends of either sign the in-place recursion writes what AddDigits computes, touches nothing outside its slice and returns 0 only with nothing left over |
| `Ternary.AddAssign` | common/trinary/add.c:53-55 | v >= 0: return code 0 if and only if addend and sum fit, then exact, always addition modulo 3^s; v < 0: code 0 never comes with old + v, and modulo 3 the result is old + v only if 3 divides v; digits past s untouched |
| `Ternary.CodeOneDespiteFit` | common/trinary/add.c:40-41 | [-1] + 2 fits one trit, yet a carry and an addend remain and the code is 1 |
| `Ternary.NegativeBounds` | common/trinary/add.c:37-51 | for v < 0 the new value, counting what is left over, lies strictly above old + v and at most at old - v |
| `Ternary.NegativeAddend` | common/trinary/add.c:37-55 | for v < 0 and nothing left over the new value is above old + v; modulo 3 it is old + v exactly when 3 divides v; the first digit written is a trit exactly in three listed cases |
| `Ternary.MinusOneAddsOne` | common/trinary/add.c:43-46 | adding -1 leaves the trits that adding 1 leaves |
| `Ternary.AddSeqsExact` | common/trinary/add.c:57-64 | digit-wise addition of two arrays loses only the final carry |
| `Ternary.AddSeqsMeaning` | common/trinary/add.c:57-64 | it is addition modulo 3^n, exact when the sum fits |
| `Ternary.AddTrits` | common/trinary/add.c:57-64 | the loop leaves exactly those sum trits in rh and nothing else changes, also when both buffers are the same |
| `Ternary.IncValue` | common/trinary/ptrit_incr.c:10-16 | the increment adds one, and wraps all ones to the minimum |
| `Ternary.AddOneIsInc` | common/trinary/add.c:53-55 | add_assign of 1 and the scalar increment are the same function |
| `Ternary.IncByValue` | common/trinary/ptrit_incr.c:10-16 | k increments add k modulo 3^n |
| `Ternary.TritsInc` | common/trinary/ptrit_incr.c:10-16 | the pointer loop computes the increment of the first n trits only |
| `TritLong.ToTritsValue` | common/trinary/trit_long.c:62-92 | n low digits stand for v if and only if v fits n trits |
| `TritLong.ToTritsOfVal` | common/trinary/trit_long.c:31-92 | reading trits and writing them back is the identity |
| `TritLong.TritsToLong` | common/trinary/trit_long.c:31-41 | Horner's loop gives the value of the trits |
| `TritLong.Width` | common/trinary/trit_long.c:43-60 | the least positive number of trits that holds the value |
| `TritLong.MinTrits` | common/trinary/trit_long.c:43-60 | the loop computes that least number |
| `TritLong.NoEarlyBreak` | common/trinary/trit_long.c:79-82 | the digits run out before the computed size only for the value 0 |
| `TritLong.LongToTrits` | common/trinary/trit_long.c:62-92 | at any position of a buffer: the digits of the value in the least number of trits, after clearing three; every other trit is kept |
| `TritLong.OverwriteIff` | common/trinary/trit_long.c:77-90 | writing y over the trits of x leaves the trits of y if and only if x fits the trits written |
| `Ptrits.Set` | common/trinary/ptrit.c:72-84 | after setting a lane it reads back as the trit and every other lane is unchanged, in both encodings |
| `Ptrits.IncPtritLane` | common/trinary/ptrit_incr.c:36-60 | the word operations increment every lane on its own, keep NaT, and the carry marks the +1 lanes, in both encodings |
| `Ptrits.PtritHincr` | common/trinary/ptrit_incr.c:33-65 | the loop leaves the ptrits and the return code of Hincr and touches nothing past n |
| `Ptrits.HincrRefines` | common/trinary/ptrit_incr.c:33-65 | with a live lane in the first byte: every live lane is incremented modulo 3^n, NaT lanes and homogeneity are kept, 1 is returned exactly on wrap-around |
| `Ptrits.HincrExactly` | common/trinary/ptrit_incr.c:61 | for counters with a live lane, that refinement holds if and only if the first byte has a live lane, or n is 0, or the first digit does not carry |
| `Ptrits.FirstByteWitness` | common/trinary/ptrit_incr.c:61 | a counter of nine lanes with only the last one live wraps without reporting the overflow, in both encodings |
| `Ptrits.OverflowPeriod` | common/trinary/ptrit_incr.c:33-65 | from the all-minimum state, a call overflows exactly when its number is a multiple of 3^n |
| `Ptrits.SetSlice` | common/trinary/ptrit.c:106-110 | one lane spells the given scalar, every other lane is kept |
| `Ptrits.SetIota` | common/trinary/ptrit_incr.c:25-31 | lane i holds the value incremented i times and the value ends incremented by the number of lanes |
| `Ptrits.Log3` | common/trinary/ptrit_incr.c:18-23 | the least k with 3^k at least n |
| `Ptrits.LanesDistinct` | common/trinary/ptrit_incr.c:18-31 | with at least log3(lanes) trits, no two lanes hold the same value |
| `PackedTrits.SlotSetGet` | common/trinary/flex_trit.h:94-139 | writing a slot of a byte sets that slot and no other |
| `PackedTrits.BytesForIsLeast` | common/trinary/flex_trit.h:73-74 | NUM_FLEX_TRITS_FOR_TRITS is the least number of bytes with room for the trits |
| `PackedTrits.FlexTritsAt` | common/trinary/flex_trit.h:84-102 | reads the trit at the index, 0 out of range |
| `PackedTrits.FlexTritsSetAt` | common/trinary/flex_trit.h:119-151 | in range exactly the trit at the index changes, in one byte; out of range nothing changes; the return code tells which |
| `PackedTrits.WriteIsUpdate` | common/trinary/flex_trit.h:129-139 | a packed write is an update of the plain trit array, for every initial content |
| `PackedTrits.RunsAgree` | common/trinary/flex_trit.h:84-151 | every run of reads and writes observes the same trits on the packed buffer as on a plain array |
| `PackedTrits.StraddleGet` | common/trinary/flex_trit.c:84-91 | the two byte shifts select the right trits of two neighbouring bytes |
| `PackedTrits.ResidualGet` | common/trinary/flex_trit.c:17-23 | the residual shifts keep the low trits and null the others |
| `PackedTrits.SliceMeaning` | common/trinary/flex_trit.c:67-97 | the byte-wise result holds exactly the requested trits, null after them |
| `PackedTrits.FlexTritsSlice` | common/trinary/flex_trit.c:26-129 | the shifting loop equals the trit-wise slice for every alignment; bad bounds change nothing |
| `MerkleIndex.NodeIndexTraverse` | utils/merkle.c:47-71 | the cursor loop computes the depth-first position |
| `MerkleIndex.NodeIndexLocates` | utils/merkle.c:47-71 | every node has a position below 2^(td+1)-1 and walking down to that position finds the node |
| `MerkleIndex.LocateIsIndexed` | utils/merkle.c:47-71 | every position below 2^(td+1)-1 is the position of the node found there |
| `MerkleIndex.NodeIndexInjective` | utils/merkle.c:47-71 | distinct nodes have distinct positions |
| `MerkleIndex.ChildPositions` | utils/merkle.c:40-67 | the left child follows its parent, the right child follows the left subtree |
| `MerkleIndex.LevelSumOfPow2` | utils/merkle.c:17-29 | 2^k leaves give 2^(k+1)-1 nodes |
| `MerkleIndex.LevelSumOfOdd` | utils/merkle.c:17-29 | a level with an odd number of nodes has as many parents as one with one node more |
| `MerkleIndex.MerkleSize` | utils/merkle.c:17-29 | the loop sums the level sizes |
| `MerkleIndex.MerkleDepth` | utils/merkle.c:31-38 | the number of levels of the least perfect tree with that many nodes |
| `Bits.ClearLowestBit` | utils/merkle.c:82 | n & (n-1) is zero exactly for powers of two |
| `Bits.BitAndMask` | utils/merkle.c:158-160 | testing a mask 2^i reads bit i |
| `Merkle.WriteKeeps` | utils/merkle.c:94-111 | writing one node changes no other node of the flat array |
| `Merkle.WriteNext` | utils/merkle.c:90-115 | writing the next node of a level extends it and keeps every completed level |
| `Merkle.CreateLeaves` | utils/merkle.c:90-95 | leaf site w holds the address of key offset + n - 1 - w |
| `Merkle.HashChildren` | utils/merkle.c:99-112 | absorbs right then left, or a lone child then null, on a reset sponge, and resets it |
| `Merkle.HashLevel` | utils/merkle.c:98-115 | completes the parent level and keeps all levels below |
| `Merkle.Create` | utils/merkle.c:75-117 | accepted exactly for 0 and powers of two; then every node is the hash of its right then left child down to the leaves; rejected sizes change nothing; nothing past the tree is written |
| `Merkle.FlatTree` | utils/merkle.c:87-115 | in a complete tree the element at an inner position i of depth d is the hash of the elements at i + 2^(td-d) and i + 1, and each leaf site holds its leaf |
| `Merkle.CopySiblings` | utils/merkle.c:132-152 | the loop copies the sibling of every ancestor of the leaf site |
| `Merkle.Branch` | utils/merkle.c:119-154 | each error code exactly in its case, and on success the path of the mirrored leaf |
| `Merkle.Root` | utils/merkle.c:156-172 | folds the siblings by the bits of the index |
| `Merkle.MirrorComplements` | utils/merkle.c:73 | mirroring a leaf index complements every bit |
| `Merkle.RoundTrip` | utils/merkle.c:73-172 | for every k < 2^td, the leaf at the mirrored site is the address of key offset + k, and folding it with its path under index k gives node 0 |
| `Merkle.BranchThenRoot` | utils/merkle.c:119-172 | branch followed by root reproduces node 0 for every leaf of a created tree |
| `Merkle.Binding` | utils/merkle.c:156-172 | two leaves that fold to one root under the same index are equal with their paths, or a colliding pair of inputs is exhibited |
| `Normalize.NormalizeFragmentIff` | common/crypto/iss/normalize.c:23-48 | r is the normalized fragment if and only if its entries are trytes, it sums to zero, and it arises by moving entries in one direction from the front, each to its limit before the next, the others untouched |
| `Normalize.SumAppend` | common/crypto/iss/normalize.c:24-28 | the sum counts every tryte once |
| `Normalize.BalancedIsKept` | common/crypto/iss/normalize.c:29-47 | a fragment that sums to zero is left alone |
| `Normalize.NormalizeFragmentBalances` | common/crypto/iss/normalize.c:23-48 | a normalized fragment sums to zero and its entries stay in -13..13 |
| `Normalize.NormalizeHashBalances` | common/crypto/iss/normalize.c:22-49 | each third of a normalized hash sums to zero, entries in -13..13 |
| `Normalize.NormalizeHashFragments` | common/crypto/iss/normalize.c:22-49 | fragment k of the result normalizes trytes 27k..27k+27, each the value of its three trits |
| `Normalize.NormalizedTryte` | common/crypto/iss/normalize.c:51-58 | the tryte read back from the normalized trits is the normalized byte |
| `Normalize.NudgeSlice` | common/crypto/iss/normalize.c:31-36 | the inner loop moves the first entry that is not at its limit |
| `Normalize.NormalizeSlice` | common/crypto/iss/normalize.c:29-47 | the nested loops normalize one fragment in place |
| `Normalize.NormalizeInto` | common/crypto/iss/normalize.c:22-49 | the whole normalization, three fragments |
| `Signing.ChainTwice` | common/crypto/iss/v1/iss.c.inc:92-113 | one round is one digest, and a rounds then b rounds of a hash chain are a + b rounds |
| `Signing.HashRounds` | common/crypto/iss/v1/iss.c.inc:92-113 | the absorb, squeeze, reset loop on one block computes the chain |
| `Signing.SubseedInputsDiffer` | common/crypto/iss/v1/iss.c.inc:19-27 | different key indexes hash different trits into their subseeds |
| `Signing.SubseedBlock` | common/crypto/iss/v1/iss.c.inc:19-27 | a subseed is the digest of one block that spells the seed plus the key index modulo 3^n |
| `Signing.SubseedsDiffer` | common/crypto/iss/v1/iss.c.inc:19-27 | key indexes closer than 3^n have different subseeds, or two different blocks with one digest are exhibited |
| `Signing.DeriveSubseed` | common/crypto/iss/v1/iss.c.inc:19-27 | add_assign, absorb, squeeze, reset compute the subseed |
| `Signing.DeriveKey` | common/crypto/iss/v1/iss.c.inc:29-42 | key block i is the i-th block squeezed after absorbing the subseed |
| `Signing.SignatureBlock` | common/crypto/iss/v1/iss.c.inc:84-101 | signature block i is key block i hashed 13 - (normalized tryte i) times |
| `Signing.SigningLaw` | common/crypto/iss/v1/iss.c.inc:84-119 | digesting fragment j of a signature against chunk j of the normalized hash gives the digest of fragment j of the key |
| `SignatureBinding.KeyBlocksDiffer` | common/crypto/iss/v1/iss.c.inc:19-42 | without collisions no two blocks of the keys of a seed are the same, within a key or across key indexes |
| `SignatureBinding.AddressBinds` | common/crypto/iss/v1/iss.c.inc:44-82 | without collisions an address determines key index and security level |
| `SignatureBinding.SigDigestBinds` | common/crypto/iss/v1/iss.c.inc:103-119 | without collisions the digest of a fragment determines the fragment |
| `SignatureBinding.SignaturesAreUnique` | common/model/bundle.c:49-94 | without collisions two correctly signed bundles with the same addresses, values and normalized hash carry the same signatures |
| `SignatureBinding.SecureIff` | common/model/bundle.c:150-159 | a hash is accepted by finalizing if and only if signing it hashes every key block at least once |
| `SignatureBinding.SecureSignature` | common/crypto/iss/v1/iss.c.inc:84-101 | a signature of a secure hash holds digests of key blocks only, hashed on |
| `Codec.SlicesOfConcat` | common/model/transaction.c:35-102 | cutting a concatenation at the field boundaries gives the fields back |
| `Codec.ConcatOfSlices` | common/model/transaction.c:129-186 | concatenating the cut fields gives the trits back |
| `Codec.Tiling` | common/model/transaction.h:20-36 | the fields tile 0..8019 without gap or overlap |
| `Codec.SerializedField` | common/model/transaction.c:129-186 | field k of the layout is found at its offset |
| `Codec.NamedFields` | common/model/transaction.c:129-186 | message, address, bundle, trunk, branch, tag, attachment timestamps and nonce, each by name at its place in the 8019 trits |
| `Codec.FlattenAt` | common/model/transaction.c:129-133 | block i of the message is at trits 243i..243i+243 |
| `Codec.LongRoundTrip` | common/model/transaction.c:119-125 | a 27-trit integer field survives exactly when it fits |
| `Codec.LongReadWrite` | common/model/transaction.c:51-63 | every 27-trit field read is written back unchanged |
| `Codec.ExtremeTimestampFits` | common/helpers/pow.c:136 | 3812798742493 fits 27 trits and is the greatest such value |
| `Codec.LongToFlexTrit` | common/model/transaction.c:119-125 | the zeroed buffer ends with the value in 81 trits, and its prefix is the 27-trit field |
| `Codec.SerializeThenDeserialize` | common/model/transaction.c:30-186 | the transaction is restored if and only if its six 27-trit integers fit |
| `Codec.DeserializeThenSerialize` | common/model/transaction.c:30-186 | serializing what was deserialized gives the same 8019 trits, and the integers fit |
| `Codec.FlexInsert` | common/trinary/flex_trit.c:131-154 | copies the field into place and nothing else, or does nothing out of bounds |
| `Codec.SerializeTo` | common/model/transaction.c:129-186 | the running offset ends at 8019 and the buffer is the serialization |
| `Codec.DeserializeFrom` | common/model/transaction.c:30-116 | the running offset ends at 8019 and the record is the deserialization |
| `BundleEssence.WriteLong` | common/model/bundle.c:24-32 | an integer written at a position covers its digits, at least three trits, whatever field they fall into |
| `BundleEssence.AbsorbEssence` | common/model/bundle.c:16-35 | for every transaction the two absorbed blocks are the fields as the in-place writes leave them |
| `BundleEssence.IndexFields` | common/model/bundle.c:28-32 | field by field: each index field is the write over the digits the previous integer left in it |
| `BundleEssence.EssenceIsSerialized` | common/model/bundle.c:16-35 | the absorbed essence is trits 6561..7047 of the serialized transaction if and only if timestamp and current index each fit their field plus what the next write covers |
| `BundleEssence.SpillWitness` | common/model/bundle.c:28-30 | timestamp 102945566047325 with index 0 is absorbed differently from its serialization |
| `BundleEssence.CanonicalMeaning` | common/model/bundle.c:16-35 | every transaction has the essence of one whose integers fit 27 trits; that one has the same six fields if and only if its own integers fit |
| `BundleEssence.EssenceEqualIff` | common/model/bundle.c:16-35 | two transactions have one essence if and only if the absorbed blocks spell the same six fields |
| `BundleEssence.EssenceDetermines` | common/model/bundle.c:16-35 | in particular, among transactions whose integers fit 27 trits, if and only if they have the same six fields |
| `BundleEssence.EssenceCollision` | common/model/bundle.c:28-30 | a pair with different timestamp and index and one essence |
| `Bundle.CalculateHash` | common/model/bundle.c:109-124 | absorbs the essence of every transaction in order from a fresh sponge, for all field values |
| `Bundle.HashReadsEssence` | common/model/bundle.c:109-124 | bundles that agree on the six essence fields have the same hash |
| `Bundle.EssencesAt` | common/model/bundle.c:114-118 | transaction i contributes blocks 2i and 2i+1 of what is absorbed, and there are no others |
| `Bundle.EssencesEqualIff` | common/model/bundle.c:109-124 | two bundles absorb the same blocks if and only if they have the same length and every transaction spells the same six fields |
| `Bundle.HashCommits` | common/model/bundle.c:109-124 | one hash for two bundles means the same spelled fields everywhere, or a collision is exhibited |
| `Bundle.ResetBundleIndexes` | common/model/bundle.c:241-257 | transaction i gets index i and last index n-1; nothing else changes; NULL is ignored |
| `Bundle.HasInsecureTryte` | common/model/bundle.c:150-159 | finds a normalized tryte 13 exactly when there is one |
| `Bundle.IncrementTag` | common/model/bundle.c:153-157 | the head's obsolete tag is one increment further, everything else is kept |
| `Bundle.Finalize` | common/model/bundle.c:133-164 | stops at the least number of tag increments whose hash is secure, whenever there is one, and leaves the finalized bundle |
| `Bundle.FinalizedMeaning` | common/model/bundle.c:133-164 | only the head's tag and the bundle fields change; the tag is the original plus k modulo 3^81; every bundle field is the hash of the result |
| `Bundle.SearchIsBounded` | common/model/bundle.c:144-158 | the least k is below 3^81, since the tag cycles |
| `BundleValidate.GroupEnd` | common/model/bundle.c:79-81 | the end of the maximal run of transactions that continue an input |
| `BundleValidate.GroupsDisjoint` | common/model/bundle.c:60-91 | the groups of two inputs never overlap |
| `BundleValidate.ChunkOffsetCycles` | common/model/bundle.c:71-78 | the j-th fragment of a group is checked against chunk j mod 3 |
| `BundleValidate.DigestGroup` | common/model/bundle.c:65-84 | digests exactly the fragments of the maximal group |
| `BundleValidate.ValidateSignatures` | common/model/bundle.c:49-94 | true if and only if every input is signed by its group, although the cursor jumps over groups |
| `BundleValidate.CheckTransaction` | common/model/bundle.c:193-236 | the first failing check of one transaction; the running sum stays within int64_t |
| `BundleValidate.CheckOrder` | common/model/bundle.c:193-236 | which failing check is reported when several fail |
| `BundleValidate.SupplyIs` | common/model/bundle.h:33 | the supply is (3^33 - 1) / 2 |
| `BundleValidate.ValueSumSplits` | common/model/bundle.c:199 | the running sum counts each value once: sums of two parts add up |
| `BundleValidate.ValidIffNoFault` | common/model/bundle.c:192-237 | a complete bundle is valid if and only if no transaction fails a check |
| `BundleValidate.Validate` | common/model/bundle.c:166-239 | valid if and only if the bundle is valid, incomplete if and only if the count is wrong, otherwise the first fault of the first faulty transaction |
| `BundleSign.SignInput` | common/model/bundle.c:290-313 | no match: nothing changes and the cursor stays; illegal level: error; fewer slots from the cursor on than the level: a slot is missing; else the first matching input's fragments are written from the cursor on |
| `BundleSign.SignLoop` | common/model/bundle.c:289-317 | code and bundle are those of SignFrom, for every bundle, whether or not its inputs match |
| `BundleSign.SignKeepsRest` | common/model/bundle.c:289-317 | for every bundle only messages change |
| `BundleSign.SignErrorMeans` | common/model/bundle.c:298-311 | the loop fails only if some input transaction's first matching input has an illegal level |
| `BundleSign.FirstMatchDecides` | common/model/bundle.c:289-311 | the first input transaction with a matching input ends the call with nothing written if its level is illegal, or if fewer slots than its level are left from the cursor on |
| `BundleSign.EnoughSlots` | common/model/bundle.c:301 | no slot is missing if every input transaction has as many slots from it on as its level |
| `BundleSign.UnmatchedShifts` | common/model/bundle.c:290-316 | input transactions without a matching input leave the write cursor behind: the next signature starts at the cursor, earlier by their number, and stays there |
| `BundleSign.UnmatchedRepeats` | common/model/bundle.c:289-317 | the loop resumes behind the slots just written, so the signature is repeated until its input transaction is covered: slot t + i holds fragment i modulo the level |
| `BundleSign.SignableSigned` | common/model/bundle.c:289-317 | a signable bundle is signed completely, group after group, with code OK |
| `BundleSign.SignedGroup` | common/model/bundle.c:289-317 | every input ends up holding its own signature, fragment by fragment |
| `BundleSign.SignedElsewhere` | common/model/bundle.c:289-317 | a transaction outside every input group keeps its message |
| `BundleSign.GroupDigestsAreKeyDigests` | common/model/bundle.c:69-82 | the fragment digests of a signed group are the key digests |
| `SignValidate.PreparedMeaning` | common/model/bundle.c:285-286 | indexing and finalizing keep addresses and values, set the indexes and store the hash everywhere |
| `SignValidate.Sign` | common/model/bundle.c:278-320 | first secure tag; then the signing loop on the finalized bundle, only messages differ; a signable bundle is signed completely with code OK |
| `SignValidate.SignedIsValid` | common/model/bundle.c:166-320 | a signed bundle with one group per input satisfies every validity condition if and only if its values and addresses are in order |
| `SignValidate.SignThenValidate` | common/model/bundle.c:166-320 | signing then validating reports such a bundle valid if and only if its values are within supply and balance and its value addresses are well formed |
| `Attach.FillTagMeaning` | common/helpers/pow.c:137-139 | the last 54 trits are kept; the first 27 are replaced when all null; the tag is unchanged exactly when they are not null or the obsolete ones are; a null tag ends equal to the obsolete tag exactly when that is null after 27 trits |
| `Attach.MaxTimestampIs` | common/helpers/pow.c:136 | the upper attachment timestamp is (3^27 - 1) / 2 |
| `Attach.AttachOne` | common/helpers/pow.c:118-154 | the first transaction with the index gets parents, timestamps, tag and nonce; its core fields are kept; missing index is reported |
| `Attach.LinkKept` | common/helpers/pow.c:115-156 | attaching one transaction keeps the links of all later indexes |
| `Attach.AttachNext` | common/helpers/pow.c:115-154 | one round keeps: later indexes linked, earlier ones untouched, sizes kept, the carried trunk is the digest of the transaction just attached |
| `Attach.PowBundle` | common/helpers/pow.c:96-159 | a NULL bundle, trunk or branch is reported and changes nothing; on success every index is chained to the digest of the final next transaction, the last one to the given parents, in any array order; only attachment fields change and sizes are kept, whatever the outcome; a missing index is reported only if one is missing, out of memory only if proof of work fails |
| `AttachVerdict.VerdictUnchanged` | common/helpers/pow.c:126-146 | bundles that differ only in attachment fields agree on every check of every transaction |
| `AttachVerdict.ValidityUnchanged` | common/helpers/pow.c:126-146 | hence one is valid if and only if the other is |
| `AttachVerdict.VerdictSame` | common/helpers/pow.c:126-146 | and their verdicts are the same status |
| `AttachVerdict.AttachThenValidate` | common/helpers/pow.c:96-159 | validating, attaching and validating again gives the same status twice, whatever the outcome of the attachment |
| `Losing.FactorIs` | utils/bundle_miner.c:80 | the factor of entry h is (14 + h) / 27, in (0, 1] |
| `Losing.ProductOfOne` | utils/bundle_miner.c:75-90 | one tryte h has losing probability (14 + h) / 27 |
| `Losing.ProductSplits` | utils/bundle_miner.c:75-90 | the probabilities of two parts multiply |
| `Losing.ProductMonotone` | utils/bundle_miner.c:75-90 | raising entries never lowers the losing probability |
| `Losing.ProbabilityOfLosing` | utils/bundle_miner.c:75-90 | the loop computes the product of the factors, 0 for level 0 |
| `Losing.NormalizedBundleMax` | utils/bundle_miner.c:92-97 | writes the entrywise maximum and nothing past the length |
| `Losing.MaxHashIsLeast` | utils/bundle_miner.c:92-97 | each merged entry is the least one above both |
| `Losing.MaxNeverLowers` | utils/bundle_miner.c:75-97 | the merged hash loses at least as often as either operand, with probability in (0, 1] |
| `Miner.ScoreCandidate` | utils/bundle_miner.c:47-52 | normalizing, scanning, merging and multiplying compute the score of a candidate |
| `Miner.HashScoreMeaning` | utils/bundle_miner.c:49-52 | no score if and only if a 13 is among the signed trytes; else odds at least those of either hash, equal to the one that dominates |
| `Miner.HashScoreIs` | utils/bundle_miner.c:49-52 | the odds are the product over the entrywise greater trytes |
| `Miner.MeetsIff` | utils/bundle_miner.c:56 | the threshold is reached if and only if the exponent is positive and 3^exponent times the odds is at most 1 |
| `Miner.ScanOne` | utils/bundle_miner.c:49-65 | scoring one more candidate keeps the strict running minimum |
| `Miner.JoinRanges` | utils/bundle_miner.c:144-151 | two adjacent minima join to the minimum of the union, ties to the lower index |
| `Miner.BestIsUnique` | utils/bundle_miner.c:49-65 | the strict minimum of a range is unique |
| `TagScan.ThreadFollows` | utils/bundle_miner.c:37-65 | each thread's tags arise by writing the indexes of its range one after the other over the start tag |
| `TagScan.ThreadSpelledIff` | utils/bundle_miner.c:37-65 | a thread's tags spell its indexes if and only if its first write covers the start tag and no index leaves digits uncovered by the next, a condition on the two ends of the range |
| `TagScan.ScanSpelledIff` | utils/bundle_miner.c:124-142 | the tags of all threads spell all indexes if and only if this holds of every range |
| `TagScan.CleanFromMinus13` | utils/bundle_miner.c:41 | it holds of every scan from -13 on |
| `TagScan.CleanForOneThread` | utils/bundle_miner.c:41 | for one thread it is the condition on the two ends alone |
| `TagScan.StaleScan` | utils/bundle_miner.c:41 | a scan of two indexes from -14 hashes a digit of -14 with the index -13 |
| `Miner.StepKeepsInv` | utils/bundle_miner.c:37-66 | every step of every thread, tag writes included, keeps: each context holds the strict minimum of exactly its scanned prefix, a set flag has a finder, an early halt has seen the flag |
| `Miner.RunKeepsInv` | utils/bundle_miner.c:26-69 | hence every state of every interleaving satisfies it |
| `Miner.RunIsBounded` | utils/bundle_miner.c:37-66 | no interleaving is longer than the work it starts with |
| `Miner.NeverStuck` | utils/bundle_miner.c:37-66 | a state with an unfinished thread has a next step |
| `Miner.FlagStopsAll` | utils/bundle_miner.c:38-40 | once the flag is set no interleaving has more than two further steps per thread |
| `Miner.RangesCover` | utils/bundle_miner.c:104 | the rounded count is divisible by the number of threads and exceeds the requested count |
| `Miner.LaunchInv` | utils/bundle_miner.c:124-142 | the contexts as set up satisfy the invariant |
| `Miner.Join` | utils/bundle_miner.c:144-151 | the join loop folds the contexts in order |
| `Miner.StopIsJustified` | utils/bundle_miner.c:54-62 | once some thread hit the threshold, the joined index reaches it |
| `Miner.JoinedIsBest` | utils/bundle_miner.c:144-151 | complete scans join to the strict minimum of the whole range |
| `Miner.NoThresholdNoStop` | utils/bundle_miner.c:56 | with threshold exponent 0 no thread stops early |
| `Miner.MineResult` | utils/bundle_miner.c:99-158 | from launch to join, under every interleaving and for every start tag: the result reaches the threshold if and only if somebody hit it; if nobody did it is the lowest index of least probability of the rounded range, or 0 |
| `Miner.TagInEssence` | utils/bundle_miner.c:19 | the head's tag is trits 324..405 of the essence and nothing else in the essence depends on it |
| `Miner.SpelledIsTagged` | utils/bundle_miner.c:41-47 | the tag that spells start + k is the one k increments lead to |
| `Miner.MinedIsTagged` | utils/bundle_miner.c:41-54 | in a clean scan the score of index start + k is that of the bundle hash after k tag increments |
| `TipsCaches.FifoAddExact` | ciri/node/tips_cache.c:14-28 | with room left a new tip is appended and a cached one changes nothing; a full set first loses its oldest tip |
| `TipsCaches.FifoAddMeaning` | ciri/node/tips_cache.c:14-28 | the tip is in, the size is within the limit, nothing else enters and only the oldest can leave |
| `TipsCaches.SetRemoveMeaning` | utils/containers/hash/hash_set.c.tpl:26-42 | exactly the given hash leaves; an absent one is ignored |
| `TipsCaches.SetRemoveExact` | utils/containers/hash/hash_set.c.tpl:26-42 | the hash is cut out and the order of the others is kept |
| `TipsCaches.TipsCache.Add` | ciri/node/tips_cache.c:106-118 | the non-solid set is the FIFO addition, the solid set is kept |
| `TipsCaches.TipsCache.Remove` | ciri/node/tips_cache.c:120-140 | the tip is in neither set, every other membership is kept |
| `TipsCaches.TipsCache.SetSolid` | ciri/node/tips_cache.c:142-167 | a cached tip moves to the solid set, any other is ignored |
| `TipsCaches.UninterruptedCalls` | ciri/node/tips_cache.c:106-167 | lock sections that are not interrupted do what the calls do, and nothing stays pending |
| `TipsCaches.StepBounded` | ciri/node/tips_cache.c:106-167 | every lock section keeps both sets duplicate-free and within the limit |
| `TipsCaches.StepOrdered` | ciri/node/tips_cache.c:14-28 | every lock section keeps the non-solid set ordered by insertion time |
| `TipsCaches.RunKeepsInv` | ciri/node/tips_cache.c:106-167 | in every interleaving at lock sections: sizes within the limit, members once added, solid members first taken by set_solid, insertion order |
| `TipsCaches.EveryRun` | ciri/node/tips_cache.c:106-167 | hence in every state a fresh cache reaches |
| `TipsCaches.ZeroCapacityKeepsOne` | ciri/node/tips_cache.c:21-27 | with capacity 0 one tip is kept |
| `TipsCaches.ReAddKeepsIff` | ciri/node/tips_cache.c:21-27 | re-adding a cached tip keeps every cached tip if and only if there is room or the tip is the oldest; otherwise the oldest leaves and nothing enters |
| `TipsCaches.ComesBackIff` | ciri/node/tips_cache.c:120-167 | without being added again, a tip can show up if and only if it is cached or a set_solid call still holds it |
| `TipsCaches.RemoveEffectiveIff` | ciri/node/tips_cache.c:120-167 | with any sections in between that do not add the tip, a remove keeps it out for good if and only if no set_solid call holds the tip at its second section |
| `TipsCaches.RemoveCanBeOvertaken` | ciri/node/tips_cache.c:120-167 | a concrete interleaving in which remove finishes and the tip is cached |
| `RecentSeenCaches.RecentSeenCache.Get` | ciri/node/recent_seen_bytes_cache.c:33-54 | found exactly when the digest is held, with the held hash; one counter moves and hits + misses equals gets |
| `RecentSeenCaches.RecentSeenCache.Put` | ciri/node/recent_seen_bytes_cache.c:56-80 | a known digest changes nothing; else the entry is inserted and the map stays the window of last insertions |
| `RecentSeenCaches.PutExact` | ciri/node/recent_seen_bytes_cache.c:66-74 | a known digest changes nothing; a new one is appended, and only a full map loses its oldest entry |
| `RecentSeenCaches.LastIsSuffix` | ciri/node/recent_seen_bytes_cache.c:66-74 | the window of last insertions is the longest suffix within the limit |
| `RecentSeenCaches.RunHoldsLast` | ciri/node/recent_seen_bytes_cache.c:56-80 | after any run the map is exactly the last insertions that took effect, in order, as many as the limit |
| `RecentSeenCaches.HitsAreFaithful` | ciri/node/recent_seen_bytes_cache.c:33-80 | if every put stores f(digest), every entry holds f(digest) |
| `RecentSeenCaches.RunKeepsDistinct` | ciri/node/recent_seen_bytes_cache.c:67-74 | digests in the map are distinct after any run |

## Left out

- Ternary.AddAssign: the buffer holds trits before the call; the digits a negative addend leaves are bounded and characterised modulo 3, not listed.
- BundleEssence.AbsorbEssence: a last index wider than 27 trits is written past the 486-trit buffer; the model gives that write room and does not say what it destroys.
- BundleValidate.Validate: the least int64_t value is excluded from transaction values, because llabs is undefined on it; an empty bundle is excluded, because the code dereferences its first transaction.
- Miner.MineResult: probabilities are reals, not doubles; the flag is initially clear; start index, indexes and counts do not wrap; memory allocation failures are not modelled.
- Merkle.Create: node positions are unbounded integers; the 32-bit shifts of the code limit the depth of a real tree.
- Codec.DeserializeFrom: the value field must hold an int64_t, since the conversion overflows otherwise; the optional hash computation and the loaded-column masks are not modelled.
- Codec.SerializeTo and Codec.DeserializeFrom write out the fifteen inserts and slices as a loop over the field list.
- BundleSign.SignInput: the outcome for a missing slot stands for undefined behaviour: the code writes through the NULL that bundle_at returns.
- SignatureBinding.AddressBinds, SignatureBinding.SignaturesAreUnique and their lemmas: the sponge has no collisions at all, an idealisation; the results on bundle hashes, subseeds and Merkle paths exhibit a collision instead.
- Attach.PowBundle: the transaction digest always succeeds; a failing proof of work ends the call as out of memory, as in the code.
- Sponge internals (Curl, Kerl, Troika), proof-of-work search and xxHash: arbitrary functions here.
- The signing scheme v2 with signed windows (common/crypto/iss/v2) beyond the leaf addresses of the Merkle tree, which are a parameter.
- Three- and five-trits-per-byte encodings, and packed insertion: they would repeat the four-trit results over table lookups.
- Signing in packed encodings: fragment offsets do not align with bytes there.
- bundle_miner_get_progress_ratio, transaction_weight_magnitude, bundle_set_messages, random tip selection and the remaining accessors.
- Real locks and threads: lock sections and flag accesses are atomic steps.
- The API servers, clients, storage, network, configuration and metrics parts of the repository.
