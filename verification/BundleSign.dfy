/**
 The signing loop of bundle_sign (common/model/bundle.c:289-317): where the
 signature fragments of every input transaction go.
 */
module BundleSign {
  import opened Arith
  import opened Ternary
  import opened Sponges
  import opened Normalize
  import opened Signing
  import opened Transactions
  import opened BundleValidate

  /** input_t (common/model/inputs.h). */
  datatype Input = Input(balance: int, keyIndex: nat, security: nat, address: Hash)

  /** MissingSlot: bundle_at gave NULL for a slot of the signature, and the code goes on to write through it. */
  datatype Code = Ok | SignError | MissingSlot

  /** Position of the first input with the given address; the length of the list when there is none. */
  function FirstMatch(inputs: seq<Input>, address: Hash): (m: nat)
    ensures m <= |inputs|
    ensures m < |inputs| ==> inputs[m].address == address
    ensures forall i :: 0 <= i < m ==> inputs[i].address != address
  {
    if |inputs| == 0 || inputs[0].address == address then 0 else 1 + FirstMatch(inputs[1..], address)
  }

  /** The signature an input transaction receives, once a matching input with a legal level is found. */
  function SignatureFor(f: Transform, seed: Hash, input: Input, hash: Hash): (sig: seq<Hash>)
    requires 1 <= input.security <= 3 && |hash.trits| == HASH_LENGTH
    ensures |sig| == 27 * input.security
  {
    SignatureGen(f, seed, input.keyIndex, input.security, hash)
  }

  /** Slots at..at+count with their message replaced by consecutive signature fragments. */
  function WriteFragments(txs: seq<Transaction>, at: nat, count: nat, sig: seq<Hash>): (r: seq<Transaction>)
    requires |sig| == 27 * count
    ensures |r| == |txs|
  {
    seq(|txs|, i requires 0 <= i < |txs| =>
      if at <= i < at + count then txs[i].(signature := Fragment(sig, i - at)) else txs[i])
  }

  // ----- what can be signed

  /** Input transaction i has a matching input of a legal level and fills exactly that many slots, and
      its address derives from the seed and that input's key. */
  ghost predicate Covered(f: Transform, seed: Hash, inputs: seq<Input>, txs: seq<Transaction>, i: nat)
    requires i < |txs|
  {
    var m := FirstMatch(inputs, txs[i].address);
    && m < |inputs| && 1 <= inputs[m].security <= 3
    && GroupEnd(txs, i, i + 1) == i + inputs[m].security
    && txs[i].address == Address(f, seed, inputs[m].keyIndex, inputs[m].security)
  }

  ghost predicate Signable(f: Transform, seed: Hash, inputs: seq<Input>, txs: seq<Transaction>)
  {
    forall i :: 0 <= i < |txs| && txs[i].value < 0 ==> Covered(f, seed, inputs, txs, i)
  }

  /** Every input transaction that would be signed has as many slots from it on as its level asks for. */
  ghost predicate SlotsFit(inputs: seq<Input>, txs: seq<Transaction>)
  {
    forall i :: 0 <= i < |txs| && txs[i].value < 0 ==>
      var m := FirstMatch(inputs, txs[i].address);
      m < |inputs| && 1 <= inputs[m].security <= 3 ==> i + inputs[m].security <= |txs|
  }

  ghost predicate Indexes(txs: seq<Transaction>)
  {
    forall i :: 0 <= i < |txs| ==> txs[i].currentIndex == i && txs[i].lastIndex == |txs| - 1
  }

  ghost predicate FullHashes(txs: seq<Transaction>)
  {
    forall i :: 0 <= i < |txs| ==> |txs[i].bundle.trits| == HASH_LENGTH
  }

  /** Two bundles that differ at most in their messages. */
  ghost predicate SameButMessages(a: seq<Transaction>, b: seq<Transaction>)
  {
    |a| == |b| && forall i :: 0 <= i < |a| ==> a[i].(signature := b[i].signature) == b[i]
  }

  // ----- signing one input (bundle.c:290-313)

  /** The inner loop for the input transaction at t: the cursor moves to the last slot written. */
  method SignInput(bundle: array<Transaction>, seed: Hash, inputs: seq<Input>, f: Transform, t0: nat, cur0: nat)
    returns (code: Code, t: nat, cur: nat)
    requires t0 < bundle.Length && cur0 <= t0 && Indexes(bundle[..]) && FullHashes(bundle[..])
    modifies bundle
    ensures var m := FirstMatch(inputs, old(bundle[t0].address));
            if m == |inputs| then
              code == Ok && t == t0 && cur == cur0 && bundle[..] == old(bundle[..])
            else if !(1 <= inputs[m].security <= 3) then
              code == SignError && bundle[..] == old(bundle[..])
            else if cur0 + inputs[m].security > bundle.Length then
              code == MissingSlot && bundle[..] == old(bundle[..])
            else
              && code == Ok && t + 1 == cur == cur0 + inputs[m].security
              && bundle[..] == WriteFragments(old(bundle[..]), cur0, inputs[m].security,
                                              SignatureFor(f, seed, inputs[m], old(bundle[t0].bundle)))
  {
    hide SignatureFor, SameButMessages;
    code, t, cur := Ok, t0, cur0;
    ghost var txs := bundle[..];
    ghost var first := FirstMatch(inputs, txs[t0].address);
    for m := 0 to |inputs|
      invariant m <= first ==> t == t0 && cur == cur0 && bundle[..] == txs
      invariant m > first ==>
                  && 1 <= inputs[first].security <= 3 && t + 1 == cur == cur0 + inputs[first].security <= bundle.Length
                  && bundle[..] == WriteFragments(txs, cur0, inputs[first].security,
                                                  SignatureFor(f, seed, inputs[first], txs[t0].bundle))
    {
      if inputs[m].address == bundle[t].address {
        if cur > bundle[t].currentIndex {
          continue;
        }
        if !(1 <= inputs[m].security <= 3) {
          return SignError, t, cur;
        }
        if cur + inputs[m].security > bundle.Length {
          return MissingSlot, t, cur;
        }
        var sig := SignatureFor(f, seed, inputs[m], bundle[t].bundle);
        CopyFragments(bundle, cur, inputs[m].security, sig);
        t := cur + inputs[m].security - 1;
        cur := cur + inputs[m].security;
      }
    }
  }

  method CopyFragments(bundle: array<Transaction>, at: nat, count: nat, sig: seq<Hash>)
    requires |sig| == 27 * count && at + count <= bundle.Length
    modifies bundle
    ensures bundle[..] == WriteFragments(old(bundle[..]), at, count, sig)
  {
    for i := 0 to count
      invariant forall j :: 0 <= j < bundle.Length ==>
                  bundle[j] == if at <= j < at + i then old(bundle[j]).(signature := Fragment(sig, j - at))
                               else old(bundle[j])
    {
      bundle[at + i] := bundle[at + i].(signature := Fragment(sig, i));
    }
  }

  // ----- signing a whole bundle

  /** The messages a signable bundle receives from position t on: group after group. */
  ghost function SignedFrom(f: Transform, seed: Hash, inputs: seq<Input>, txs: seq<Transaction>, t: nat)
    : (r: seq<Transaction>)
    requires Signable(f, seed, inputs, txs) && FullHashes(txs)
    ensures |r| == |txs|
    decreases |txs| - t
  {
    if t >= |txs| then txs
    else if txs[t].value < 0 then
      assert Covered(f, seed, inputs, txs, t);
      var input := inputs[FirstMatch(inputs, txs[t].address)];
      var next := WriteFragments(txs, t, input.security, SignatureFor(f, seed, input, txs[t].bundle));
      WriteKeepsSignable(f, seed, inputs, txs, t, input.security, SignatureFor(f, seed, input, txs[t].bundle));
      SignedFrom(f, seed, inputs, next, t + input.security)
    else SignedFrom(f, seed, inputs, txs, t + 1)
  }

  /** Groups depend only on addresses and values. */
  lemma {:induction false} GroupEndSame(a: seq<Transaction>, b: seq<Transaction>, i: nat, j: nat)
    requires SameGroups(a, b) && i < j <= |a|
    ensures GroupEnd(a, i, j) == GroupEnd(b, i, j)
    decreases |a| - j
  {
    assert Continues(a, i, j) == Continues(b, i, j);
    if Continues(a, i, j) {
      GroupEndSame(a, b, i, j + 1);
    }
  }

  ghost predicate SameGroups(a: seq<Transaction>, b: seq<Transaction>)
  {
    |a| == |b| && forall i :: 0 <= i < |a| ==> a[i].address == b[i].address && a[i].value == b[i].value
  }

  lemma SignableSame(f: Transform, seed: Hash, inputs: seq<Input>, a: seq<Transaction>, b: seq<Transaction>)
    requires SameGroups(a, b)
    ensures Signable(f, seed, inputs, a) <==> Signable(f, seed, inputs, b)
  {
    forall i | 0 <= i < |a| && a[i].value < 0
      ensures Covered(f, seed, inputs, a, i) <==> Covered(f, seed, inputs, b, i)
    {
      GroupEndSame(a, b, i, i + 1);
    }
  }

  lemma WriteKeepsSignable(f: Transform, seed: Hash, inputs: seq<Input>, txs: seq<Transaction>, at: nat, count: nat,
                           sig: seq<Hash>)
    requires |sig| == 27 * count && FullHashes(txs)
    ensures var r := WriteFragments(txs, at, count, sig);
            && (Signable(f, seed, inputs, txs) <==> Signable(f, seed, inputs, r))
            && FullHashes(r) && SameButMessages(r, txs)
  {
    SignableSame(f, seed, inputs, txs, WriteFragments(txs, at, count, sig));
  }

  datatype Signed = Signed(code: Code, txs: seq<Transaction>)

  /** What the loop leaves of any bundle, from position t with the write cursor at cur <= t. An input transaction
      without a matching input leaves the cursor behind; a signature sets the position back to the cursor. */
  ghost function SignFrom(f: Transform, seed: Hash, inputs: seq<Input>, txs: seq<Transaction>, t: nat, cur: nat)
    : (r: Signed)
    requires cur <= t && FullHashes(txs)
    decreases |txs| - cur, |txs| - t
  {
    if t >= |txs| then Signed(Ok, txs)
    else if txs[t].value >= 0 then SignFrom(f, seed, inputs, txs, t + 1, cur + 1)
    else
      var m := FirstMatch(inputs, txs[t].address);
      if m == |inputs| then SignFrom(f, seed, inputs, txs, t + 1, cur)
      else if !(1 <= inputs[m].security <= 3) then Signed(SignError, txs)
      else if cur + inputs[m].security > |txs| then Signed(MissingSlot, txs)
      else
        var next := Written(f, seed, inputs[m], txs, t, cur);
        SignFrom(f, seed, inputs, next, cur + inputs[m].security, cur + inputs[m].security)
  }

  /** The signature of the input transaction at t, written from cur on. */
  ghost function Written(f: Transform, seed: Hash, input: Input, txs: seq<Transaction>, t: nat, cur: nat)
    : (r: seq<Transaction>)
    requires t < |txs| && 1 <= input.security <= 3 && FullHashes(txs)
    ensures FullHashes(r) && SameButMessages(r, txs)
  {
    WriteFragments(txs, cur, input.security, SignatureFor(f, seed, input, txs[t].bundle))
  }

  /** bundle_sign after indexing and finalizing: the loop over the transactions. */
  method SignLoop(bundle: array<Transaction>, seed: Hash, inputs: seq<Input>, f: Transform) returns (code: Code)
    requires Indexes(bundle[..]) && FullHashes(bundle[..])
    modifies bundle
    ensures Signed(code, bundle[..]) == SignFrom(f, seed, inputs, old(bundle[..]), 0, 0)
  {
    hide SameButMessages, Indexes, FullHashes, WriteFragments, SignatureFor, SignFrom;
    ghost var txs := bundle[..];
    MessagesReflexive(txs);
    var t, cur := 0, 0;
    code := Ok;
    while t < bundle.Length
      invariant 0 <= cur <= t <= bundle.Length && code == Ok
      invariant SameButMessages(bundle[..], txs) && FullHashes(bundle[..])
      invariant SignFrom(f, seed, inputs, bundle[..], t, cur) == SignFrom(f, seed, inputs, txs, 0, 0)
      decreases bundle.Length - cur, bundle.Length - t
    {
      ghost var now := bundle[..];
      MessagesOnly(now, txs);
      SignFromStep(f, seed, inputs, now, t, cur);
      if bundle[t].value < 0 {
        FullHashAt(now, t);
        ghost var t0, cur0 := t, cur;
        code, t, cur := SignInput(bundle, seed, inputs, f, t, cur);
        if code != Ok {
          return;
        }
        ghost var m := FirstMatch(inputs, now[t0].address);
        if m < |inputs| {
          assert bundle[..] == Written(f, seed, inputs[m], now, t0, cur0);
          MessagesTransitive(bundle[..], now, txs);
        }
      } else {
        cur := cur + 1;
      }
      t := t + 1;
    }
    SignFromDone(f, seed, inputs, bundle[..], t, cur);
  }

  lemma SignFromDone(f: Transform, seed: Hash, inputs: seq<Input>, txs: seq<Transaction>, t: nat, cur: nat)
    requires cur <= t && FullHashes(txs) && t >= |txs|
    ensures SignFrom(f, seed, inputs, txs, t, cur) == Signed(Ok, txs)
  {
  }

  lemma SignFromStep(f: Transform, seed: Hash, inputs: seq<Input>, txs: seq<Transaction>, t: nat, cur: nat)
    requires cur <= t < |txs| && FullHashes(txs)
    ensures var r := SignFrom(f, seed, inputs, txs, t, cur);
            var m := FirstMatch(inputs, txs[t].address);
            if txs[t].value >= 0 then r == SignFrom(f, seed, inputs, txs, t + 1, cur + 1)
            else if m == |inputs| then r == SignFrom(f, seed, inputs, txs, t + 1, cur)
            else if !(1 <= inputs[m].security <= 3) then r == Signed(SignError, txs)
            else if cur + inputs[m].security > |txs| then r == Signed(MissingSlot, txs)
            else var n := cur + inputs[m].security;
                 r == SignFrom(f, seed, inputs, Written(f, seed, inputs[m], txs, t, cur), n, n)
  {
    hide FirstMatch, FullHashes, Written;
  }

  /** Only messages change. */
  lemma {:induction false} SignKeepsRest(f: Transform, seed: Hash, inputs: seq<Input>, txs: seq<Transaction>, t: nat,
                                         cur: nat)
    requires cur <= t && FullHashes(txs)
    ensures SameButMessages(SignFrom(f, seed, inputs, txs, t, cur).txs, txs)
    decreases |txs| - cur, |txs| - t
  {
    hide FullHashes, SameButMessages, Written, FirstMatch, SignFrom;
    if t >= |txs| {
      SignFromDone(f, seed, inputs, txs, t, cur);
      MessagesReflexive(txs);
    } else {
      SignFromStep(f, seed, inputs, txs, t, cur);
      var m := FirstMatch(inputs, txs[t].address);
      if txs[t].value >= 0 {
        SignKeepsRest(f, seed, inputs, txs, t + 1, cur + 1);
      } else if m == |inputs| {
        SignKeepsRest(f, seed, inputs, txs, t + 1, cur);
      } else if 1 <= inputs[m].security <= 3 && cur + inputs[m].security <= |txs| {
        var n, next := cur + inputs[m].security, Written(f, seed, inputs[m], txs, t, cur);
        MessagesLength(next, txs);
        SignKeepsRest(f, seed, inputs, next, n, n);
        MessagesTransitive(SignFrom(f, seed, inputs, next, n, n).txs, next, txs);
      } else {
        MessagesReflexive(txs);
      }
    }
  }

  lemma MessagesLength(a: seq<Transaction>, b: seq<Transaction>)
    requires SameButMessages(a, b)
    ensures |a| == |b| && forall i :: 0 <= i < |a| ==>
              a[i].address == b[i].address && a[i].value == b[i].value && a[i].bundle == b[i].bundle
  {
    assert forall i :: 0 <= i < |a| ==> a[i].(signature := b[i].signature) == b[i];
  }

  /** The loop fails only on an input transaction whose matching input has an illegal level. */
  lemma {:induction false} SignErrorMeans(f: Transform, seed: Hash, inputs: seq<Input>, txs: seq<Transaction>,
                                          t: nat, cur: nat)
    requires cur <= t && FullHashes(txs) && SignFrom(f, seed, inputs, txs, t, cur).code == SignError
    ensures exists i :: 0 <= i < |txs| && txs[i].value < 0 && IllegalLevel(inputs, txs[i].address)
    decreases |txs| - cur, |txs| - t
  {
    hide FullHashes, SameButMessages, Written, FirstMatch, SignFrom;
    if t >= |txs| {
      SignFromDone(f, seed, inputs, txs, t, cur);
    } else {
      SignFromStep(f, seed, inputs, txs, t, cur);
      var m := FirstMatch(inputs, txs[t].address);
      if txs[t].value >= 0 {
        SignErrorMeans(f, seed, inputs, txs, t + 1, cur + 1);
      } else if m == |inputs| {
        SignErrorMeans(f, seed, inputs, txs, t + 1, cur);
      } else if 1 <= inputs[m].security <= 3 && cur + inputs[m].security <= |txs| {
        var n, next := cur + inputs[m].security, Written(f, seed, inputs[m], txs, t, cur);
        MessagesLength(next, txs);
        SignErrorMeans(f, seed, inputs, next, n, n);
        var i :| 0 <= i < |next| && next[i].value < 0 && IllegalLevel(inputs, next[i].address);
        assert txs[i].value < 0 && IllegalLevel(inputs, txs[i].address);
      } else if !(1 <= inputs[m].security <= 3) {
        assert IllegalLevel(inputs, txs[t].address);
      }
    }
  }

  /** A slot is missing only if some input transaction has fewer slots from it on than its level. */
  lemma {:induction false} EnoughSlots(f: Transform, seed: Hash, inputs: seq<Input>, txs: seq<Transaction>, t: nat,
                                       cur: nat)
    requires cur <= t && FullHashes(txs) && SlotsFit(inputs, txs)
    ensures SignFrom(f, seed, inputs, txs, t, cur).code != MissingSlot
    decreases |txs| - cur, |txs| - t
  {
    hide FullHashes, SameButMessages, Written, FirstMatch, SignFrom;
    if t >= |txs| {
      SignFromDone(f, seed, inputs, txs, t, cur);
    } else {
      SignFromStep(f, seed, inputs, txs, t, cur);
      var m := FirstMatch(inputs, txs[t].address);
      if txs[t].value >= 0 {
        EnoughSlots(f, seed, inputs, txs, t + 1, cur + 1);
      } else if m == |inputs| {
        EnoughSlots(f, seed, inputs, txs, t + 1, cur);
      } else if 1 <= inputs[m].security <= 3 {
        assert t + inputs[m].security <= |txs|;
        var n, next := cur + inputs[m].security, Written(f, seed, inputs[m], txs, t, cur);
        MessagesLength(next, txs);
        EnoughSlots(f, seed, inputs, next, n, n);
      }
    }
  }

  /** No transaction from t to u is signed: it is no input, or has no matching input. */
  ghost predicate NothingToSign(inputs: seq<Input>, txs: seq<Transaction>, t: nat, u: nat)
  {
    t <= u < |txs| && forall i :: t <= i < u ==> txs[i].value < 0 ==> FirstMatch(inputs, txs[i].address) == |inputs|
  }

  /** How many transactions from t to u advance the cursor. */
  function Plain(txs: seq<Transaction>, t: nat, u: nat): nat
    requires t <= u <= |txs|
    decreases u - t
  {
    if t == u then 0 else Plain(txs, t + 1, u) + (if txs[t].value >= 0 then 1 else 0)
  }

  /** The first input transaction with a matching input decides: an illegal level or a missing slot ends the call with
      nothing written. */
  lemma {:induction false} FirstMatchDecides(f: Transform, seed: Hash, inputs: seq<Input>, txs: seq<Transaction>,
                                             t: nat, cur: nat, u: nat)
    requires cur <= t && FullHashes(txs) && NothingToSign(inputs, txs, t, u) && txs[u].value < 0
    requires FirstMatch(inputs, txs[u].address) < |inputs|
    ensures var input, r := inputs[FirstMatch(inputs, txs[u].address)], SignFrom(f, seed, inputs, txs, t, cur);
            && (!(1 <= input.security <= 3) ==> r == Signed(SignError, txs))
            && (1 <= input.security <= 3 && cur + Plain(txs, t, u) + input.security > |txs| ==>
                  r == Signed(MissingSlot, txs))
    decreases u - t
  {
    hide FirstMatch, SignFrom, FullHashes, Written;
    SignFromStep(f, seed, inputs, txs, t, cur);
    if t < u {
      FirstMatchDecides(f, seed, inputs, txs, t + 1, if txs[t].value >= 0 then cur + 1 else cur, u);
    }
  }

  /** A slot behind the cursor is never written again. */
  lemma {:induction false} SignKeepsBehind(f: Transform, seed: Hash, inputs: seq<Input>, txs: seq<Transaction>,
                                           t: nat, cur: nat, p: nat)
    requires cur <= t && FullHashes(txs) && p < cur && p < |txs|
    ensures |SignFrom(f, seed, inputs, txs, t, cur).txs| == |txs|
              && SignFrom(f, seed, inputs, txs, t, cur).txs[p] == txs[p]
    decreases |txs| - cur, |txs| - t
  {
    hide FullHashes, SameButMessages, FirstMatch, SignFrom, SignatureFor;
    if t >= |txs| {
      SignFromDone(f, seed, inputs, txs, t, cur);
    } else {
      SignFromStep(f, seed, inputs, txs, t, cur);
      var m := FirstMatch(inputs, txs[t].address);
      if txs[t].value >= 0 {
        SignKeepsBehind(f, seed, inputs, txs, t + 1, cur + 1, p);
      } else if m == |inputs| {
        SignKeepsBehind(f, seed, inputs, txs, t + 1, cur, p);
      } else if 1 <= inputs[m].security <= 3 && cur + inputs[m].security <= |txs| {
        var n, next := cur + inputs[m].security, Written(f, seed, inputs[m], txs, t, cur);
        assert next[p] == txs[p];
        SignKeepsBehind(f, seed, inputs, next, n, n, p);
      }
    }
  }

  /** Transactions t..u are input transactions without a matching input, and u is another input transaction. */
  ghost predicate Unmatched(inputs: seq<Input>, txs: seq<Transaction>, t: nat, u: nat)
  {
    t <= u < |txs| && txs[u].value < 0 &&
    forall i :: t <= i < u ==> txs[i].value < 0 && FirstMatch(inputs, txs[i].address) == |inputs|
  }

  /** The first write of an input transaction behind unmatched ones, and where the loop resumes. */
  lemma {:induction false} UnmatchedStep(f: Transform, seed: Hash, inputs: seq<Input>, txs: seq<Transaction>, t: nat,
                                         cur: nat, u: nat)
    requires cur <= t <= u < |txs| && FullHashes(txs) && Unmatched(inputs, txs, t, u)
    requires var m := FirstMatch(inputs, txs[u].address);
             m < |inputs| && 1 <= inputs[m].security <= 3 && cur + inputs[m].security <= |txs|
    ensures var input := inputs[FirstMatch(inputs, txs[u].address)];
            var n, next := cur + input.security, Written(f, seed, input, txs, u, cur);
            SignFrom(f, seed, inputs, txs, t, cur) == SignFrom(f, seed, inputs, next, n, n)
    decreases u - t
  {
    hide FirstMatch, SignFrom, Written;
    SignFromStep(f, seed, inputs, txs, t, cur);
    if t < u {
      UnmatchedStep(f, seed, inputs, txs, t + 1, cur, u);
    }
  }

  lemma BehindHolds(f: Transform, seed: Hash, inputs: seq<Input>, txs: seq<Transaction>, at: nat, count: nat,
                    sig: seq<Hash>)
    requires FullHashes(txs) && HoldsSignature(txs, at, count, sig)
    ensures HoldsSignature(SignFrom(f, seed, inputs, txs, at + count, at + count).txs, at, count, sig)
  {
    hide FullHashes, SignFrom;
    var r := SignFrom(f, seed, inputs, txs, at + count, at + count).txs;
    SignKeepsRest(f, seed, inputs, txs, at + count, at + count);
    forall j | 0 <= j < count ensures r[at + j].signature == Fragment(sig, j) {
      SignKeepsBehind(f, seed, inputs, txs, at + count, at + count, at + j);
    }
  }

  /**
   The signature of an input transaction lands earlier by the number of unmatched input transactions just before it:
   it starts at the cursor, and stays there.
   */
  lemma UnmatchedShifts(f: Transform, seed: Hash, inputs: seq<Input>, txs: seq<Transaction>, t: nat, cur: nat, u: nat)
    requires cur <= t <= u < |txs| && FullHashes(txs) && Unmatched(inputs, txs, t, u)
    requires var m := FirstMatch(inputs, txs[u].address);
             m < |inputs| && 1 <= inputs[m].security <= 3 && cur + inputs[m].security <= |txs|
    ensures |txs[u].bundle.trits| == HASH_LENGTH
    ensures var input := inputs[FirstMatch(inputs, txs[u].address)];
            HoldsSignature(SignFrom(f, seed, inputs, txs, t, cur).txs, cur, input.security,
                           SignatureFor(f, seed, input, txs[u].bundle))
  {
    hide FirstMatch, SignFrom, SignatureFor, HoldsSignature, WriteFragments;
    var input := inputs[FirstMatch(inputs, txs[u].address)];
    var sig, next := SignatureFor(f, seed, input, txs[u].bundle), Written(f, seed, input, txs, u, cur);
    UnmatchedStep(f, seed, inputs, txs, t, cur, u);
    WrittenHolds(txs, cur, input.security, sig);
    BehindHolds(f, seed, inputs, next, cur, input.security, sig);
  }

  /** The slots that copies of a signature of `security` fragments cover, from t until slot u is covered. */
  function CopiesEnd(t: nat, u: nat, security: nat): (e: nat)
    requires t <= u && security > 0
    ensures u < e <= u + security
    decreases u - t
  {
    if t + security <= u then CopiesEnd(t + security, u, security) else t + security
  }

  /**
   Because the loop resumes behind the slots it has just written, the input transaction at u is met again as long as
   it lies there: copies of its signature fill the slots from t on until slot u is covered, and slot t + i holds
   fragment i modulo the level. So u ends with its own first fragment if the level divides u - t, hence always for
   level 1.
   */
  lemma {:induction false} UnmatchedRepeats(f: Transform, seed: Hash, inputs: seq<Input>, txs: seq<Transaction>,
                                            t: nat, u: nat, i: nat)
    requires t <= u < |txs| && FullHashes(txs) && Unmatched(inputs, txs, t, u)
    requires var m := FirstMatch(inputs, txs[u].address);
             m < |inputs| && 1 <= inputs[m].security <= 3 && CopiesEnd(t, u, inputs[m].security) <= |txs|
    requires t <= i < CopiesEnd(t, u, inputs[FirstMatch(inputs, txs[u].address)].security)
    ensures |txs[u].bundle.trits| == HASH_LENGTH
    ensures var input, r := inputs[FirstMatch(inputs, txs[u].address)], SignFrom(f, seed, inputs, txs, t, t).txs;
            && |r| == |txs|
            && r[i].signature == Fragment(SignatureFor(f, seed, input, txs[u].bundle), (i - t) % input.security)
    decreases u - t
  {
    hide FirstMatch, SignFrom, SignatureFor, Written, HoldsSignature, SameButMessages, Unmatched, CopiesEnd;
    var input := inputs[FirstMatch(inputs, txs[u].address)];
    var n := input.security;
    CopyFits(t, u, n);
    SignKeepsRest(f, seed, inputs, txs, t, t);
    MessagesLength(SignFrom(f, seed, inputs, txs, t, t).txs, txs);
    if i < t + n {
      UnmatchedShifts(f, seed, inputs, txs, t, t, u);
      HeldAt(SignFrom(f, seed, inputs, txs, t, t).txs, t, n, SignatureFor(f, seed, input, txs[u].bundle), i - t);
      assert (i - t) % n == i - t;
    } else {
      UnmatchedStep(f, seed, inputs, txs, t, t, u);
      var next := Written(f, seed, input, txs, u, t);
      MessagesLength(next, txs);
      UnmatchedKept(inputs, txs, next, t, t + n, u);
      UnmatchedRepeats(f, seed, inputs, next, t + n, u, i);
      ModuloStep(i - t, n);
    }
  }

  lemma UnmatchedKept(inputs: seq<Input>, txs: seq<Transaction>, next: seq<Transaction>, t: nat, s: nat, u: nat)
    requires Unmatched(inputs, txs, t, u) && SameButMessages(next, txs) && t <= s <= u
    ensures Unmatched(inputs, next, s, u)
  {
    hide FirstMatch, SameButMessages;
    MessagesLength(next, txs);
  }

  lemma CopyFits(t: nat, u: nat, n: nat)
    requires t <= u && n > 0
    ensures t + n <= CopiesEnd(t, u, n)
    ensures t + n <= u ==> CopiesEnd(t, u, n) == CopiesEnd(t + n, u, n)
    ensures t + n > u ==> CopiesEnd(t, u, n) == t + n
    decreases u - t
  {
  }

  lemma HeldAt(txs: seq<Transaction>, at: nat, count: nat, sig: seq<Hash>, j: nat)
    requires HoldsSignature(txs, at, count, sig) && j < count
    ensures txs[at + j].signature == Fragment(sig, j)
  {
  }

  lemma ModuloStep(x: nat, n: nat)
    requires 0 < n <= x
    ensures (x - n) % n == x % n
  {
    ModShift(x, n, -1);
    UnitMultiples(n);
  }

  /** A signable bundle is signed group after group. */
  lemma {:induction false} SignableSigned(f: Transform, seed: Hash, inputs: seq<Input>, txs: seq<Transaction>, t: nat)
    requires Signable(f, seed, inputs, txs) && FullHashes(txs)
    ensures SignFrom(f, seed, inputs, txs, t, t) == Signed(Ok, SignedFrom(f, seed, inputs, txs, t))
    decreases |txs| - t
  {
    hide Signable, FullHashes, SignedFrom, SignFrom, SignatureFor, WriteFragments, FirstMatch, SameButMessages;
    if t >= |txs| {
      SignedDone(f, seed, inputs, txs, t);
      SignFromDone(f, seed, inputs, txs, t, t);
    } else {
      SignStep(f, seed, inputs, txs, t);
      SignFromStep(f, seed, inputs, txs, t, t);
      if txs[t].value < 0 {
        var input := inputs[FirstMatch(inputs, txs[t].address)];
        SignableSigned(f, seed, inputs, Written(f, seed, input, txs, t, t), t + input.security);
      } else {
        SignableSigned(f, seed, inputs, txs, t + 1);
      }
    }
  }

  lemma MessagesReflexive(a: seq<Transaction>)
    ensures SameButMessages(a, a)
  {
  }

  lemma MessagesTransitive(a: seq<Transaction>, b: seq<Transaction>, c: seq<Transaction>)
    requires SameButMessages(a, b) && SameButMessages(b, c)
    ensures SameButMessages(a, c)
  {
    forall i | 0 <= i < |a| ensures a[i].(signature := c[i].signature) == c[i] {
      assert a[i].(signature := b[i].signature) == b[i] && b[i].(signature := c[i].signature) == c[i];
    }
  }

  lemma SignedDone(f: Transform, seed: Hash, inputs: seq<Input>, txs: seq<Transaction>, t: nat)
    requires Signable(f, seed, inputs, txs) && FullHashes(txs) && t >= |txs|
    ensures SignedFrom(f, seed, inputs, txs, t) == txs
  {
  }

  lemma FullHashAt(txs: seq<Transaction>, t: nat)
    requires t < |txs| && FullHashes(txs)
    ensures |txs[t].bundle.trits| == HASH_LENGTH
  {
  }

  /** One step of the specification: a signable input is covered, and its group is written. */
  lemma SignStep(f: Transform, seed: Hash, inputs: seq<Input>, txs: seq<Transaction>, t: nat)
    requires t < |txs| && Signable(f, seed, inputs, txs) && FullHashes(txs)
    ensures txs[t].value >= 0 ==> SignedFrom(f, seed, inputs, txs, t) == SignedFrom(f, seed, inputs, txs, t + 1)
    ensures txs[t].value < 0 ==>
              var m := FirstMatch(inputs, txs[t].address);
              && m < |inputs| && 1 <= inputs[m].security <= 3 && |txs[t].bundle.trits| == HASH_LENGTH
              && t + inputs[m].security <= |txs|
              && (var r := WriteFragments(txs, t, inputs[m].security, SignatureFor(f, seed, inputs[m], txs[t].bundle));
                  && Signable(f, seed, inputs, r) && FullHashes(r)
                  && SignedFrom(f, seed, inputs, txs, t) == SignedFrom(f, seed, inputs, r, t + inputs[m].security))
  {
    hide FirstMatch, GroupEnd, Address, WriteFragments, SignatureFor, FullHashes;
    FullHashAt(txs, t);
    if txs[t].value < 0 {
      assert Covered(f, seed, inputs, txs, t);
      hide Signable;
      var m := FirstMatch(inputs, txs[t].address);
      WriteKeepsSignable(f, seed, inputs, txs, t, inputs[m].security, SignatureFor(f, seed, inputs[m], txs[t].bundle));
    }
  }

  /** A matching input whose security level is not 1, 2 or 3. */
  ghost predicate IllegalLevel(inputs: seq<Input>, address: Hash)
  {
    var m := FirstMatch(inputs, address);
    m < |inputs| && !(1 <= inputs[m].security <= 3)
  }

  lemma MessagesOnly(a: seq<Transaction>, b: seq<Transaction>)
    requires SameButMessages(a, b) && Indexes(b) && FullHashes(b)
    ensures Indexes(a) && FullHashes(a)
  {
    assert forall i :: 0 <= i < |a| ==> a[i].(signature := b[i].signature) == b[i];
  }

  // ----- what signing leaves

  lemma {:induction false} SignedSame(f: Transform, seed: Hash, inputs: seq<Input>, txs: seq<Transaction>, t: nat)
    requires Signable(f, seed, inputs, txs) && FullHashes(txs)
    ensures SameButMessages(SignedFrom(f, seed, inputs, txs, t), txs)
    decreases |txs| - t
  {
    hide Signable, SameButMessages, FullHashes, WriteFragments, SignatureFor, Covered, FirstMatch, SignedFrom;
    if t >= |txs| {
      SignedDone(f, seed, inputs, txs, t);
      MessagesReflexive(txs);
    } else {
      SignStep(f, seed, inputs, txs, t);
      if txs[t].value < 0 {
        var input := inputs[FirstMatch(inputs, txs[t].address)];
        var sig := SignatureFor(f, seed, input, txs[t].bundle);
        var next := WriteFragments(txs, t, input.security, sig);
        WriteKeepsSignable(f, seed, inputs, txs, t, input.security, sig);
        SignedSame(f, seed, inputs, next, t + input.security);
        MessagesTransitive(SignedFrom(f, seed, inputs, txs, t), next, txs);
      } else {
        SignedSame(f, seed, inputs, txs, t + 1);
      }
    }
  }

  /** Signing from t on does not touch earlier transactions. */
  lemma {:induction false} SignedKeepsEarlier(f: Transform, seed: Hash, inputs: seq<Input>, txs: seq<Transaction>,
                                              t: nat, p: nat)
    requires Signable(f, seed, inputs, txs) && FullHashes(txs) && p < t && p < |txs|
    ensures SignedFrom(f, seed, inputs, txs, t)[p] == txs[p]
    decreases |txs| - t
  {
    hide Signable, FullHashes, SignatureFor, Covered, FirstMatch, SignedFrom;
    if t >= |txs| {
      SignedDone(f, seed, inputs, txs, t);
    } else {
      SignStep(f, seed, inputs, txs, t);
      if txs[t].value < 0 {
        var input := inputs[FirstMatch(inputs, txs[t].address)];
        var next := WriteFragments(txs, t, input.security, SignatureFor(f, seed, input, txs[t].bundle));
        SignedKeepsEarlier(f, seed, inputs, next, t + input.security, p);
      } else {
        SignedKeepsEarlier(f, seed, inputs, txs, t + 1, p);
      }
    }
  }

  /** The slots of input i hold the consecutive fragments of its signature. */
  ghost predicate HoldsSignature(txs: seq<Transaction>, i: nat, count: nat, sig: seq<Hash>)
  {
    |sig| == 27 * count && i + count <= |txs| &&
    forall j :: 0 <= j < count ==> txs[i + j].signature == Fragment(sig, j)
  }

  lemma WrittenHolds(txs: seq<Transaction>, at: nat, count: nat, sig: seq<Hash>)
    requires |sig| == 27 * count && at + count <= |txs|
    ensures HoldsSignature(WriteFragments(txs, at, count, sig), at, count, sig)
  {
  }

  /** Every input at or after t ends up with its own signature. */
  lemma {:induction false} SignedGroup(f: Transform, seed: Hash, inputs: seq<Input>, txs: seq<Transaction>, t: nat,
                                       i: nat)
    requires Signable(f, seed, inputs, txs) && FullHashes(txs) && t <= i < |txs| && txs[i].value < 0
    ensures Covered(f, seed, inputs, txs, i)
    ensures var input := inputs[FirstMatch(inputs, txs[i].address)];
            HoldsSignature(SignedFrom(f, seed, inputs, txs, t), i, input.security,
                           SignatureFor(f, seed, input, txs[i].bundle))
    decreases |txs| - t
  {
    hide SignatureFor, FirstMatch, WriteFragments, HoldsSignature, GroupEnd, Address, SignedFrom, Signable, FullHashes,
         SameButMessages, Covered;
    CoveredAt(f, seed, inputs, txs, i);
    SignStep(f, seed, inputs, txs, t);
    if txs[t].value < 0 {
      CoveredAt(f, seed, inputs, txs, t);
      var input := inputs[FirstMatch(inputs, txs[t].address)];
      var sig := SignatureFor(f, seed, input, txs[t].bundle);
      var next := WriteFragments(txs, t, input.security, sig);
      WriteKeepsSignable(f, seed, inputs, txs, t, input.security, sig);
      MessagesLength(next, txs);
      if t == i {
        WrittenHolds(txs, t, input.security, sig);
        HoldsAfter(f, seed, inputs, next, t, input.security, sig);
      } else {
        GroupsDisjoint(txs, t, i);
        SignedGroup(f, seed, inputs, next, t + input.security, i);
      }
    } else {
      SignedGroup(f, seed, inputs, txs, t + 1, i);
    }
  }

  lemma CoveredAt(f: Transform, seed: Hash, inputs: seq<Input>, txs: seq<Transaction>, i: nat)
    requires Signable(f, seed, inputs, txs) && FullHashes(txs) && i < |txs| && txs[i].value < 0
    ensures Covered(f, seed, inputs, txs, i) && |txs[i].bundle.trits| == HASH_LENGTH
    ensures var m := FirstMatch(inputs, txs[i].address);
            && m < |inputs| && 1 <= inputs[m].security <= 3
            && GroupEnd(txs, i, i + 1) == i + inputs[m].security <= |txs|
  {
    hide FirstMatch, GroupEnd, Address;
    assert Covered(f, seed, inputs, txs, i);
  }

  lemma HoldsAfter(f: Transform, seed: Hash, inputs: seq<Input>, txs: seq<Transaction>, t: nat, count: nat,
                   sig: seq<Hash>)
    requires Signable(f, seed, inputs, txs) && FullHashes(txs) && HoldsSignature(txs, t, count, sig)
    ensures HoldsSignature(SignedFrom(f, seed, inputs, txs, t + count), t, count, sig)
  {
    hide Signable, SignedFrom;
    forall j | 0 <= j < count ensures SignedFrom(f, seed, inputs, txs, t + count)[t + j].signature == Fragment(sig, j) {
      SignedKeepsEarlier(f, seed, inputs, txs, t + count, t + j);
    }
  }

  /** Transaction p belongs to no input's group. */
  ghost predicate Outside(txs: seq<Transaction>, p: nat)
    requires p < |txs|
  {
    forall i :: 0 <= i <= p && txs[i].value < 0 ==> GroupEnd(txs, i, i + 1) <= p
  }

  lemma OutsideSame(a: seq<Transaction>, b: seq<Transaction>, p: nat)
    requires SameGroups(a, b) && p < |a| && Outside(a, p)
    ensures Outside(b, p)
  {
    hide GroupEnd;
    forall i | 0 <= i <= p && b[i].value < 0 ensures GroupEnd(b, i, i + 1) <= p {
      GroupEndSame(a, b, i, i + 1);
    }
  }

  /** Writing the group of input t changes no message outside the groups. */
  lemma WriteElsewhere(txs: seq<Transaction>, t: nat, p: nat, sig: seq<Hash>, count: nat)
    requires t < |txs| && txs[t].value < 0 && p < |txs| && Outside(txs, p) && |sig| == 27 * count
    requires GroupEnd(txs, t, t + 1) == t + count
    ensures var r := WriteFragments(txs, t, count, sig);
            r[p] == txs[p] && Outside(r, p)
  {
    hide GroupEnd;
    OutsideSame(txs, WriteFragments(txs, t, count, sig), p);
  }

  /** A transaction outside every input group keeps its message. */
  lemma {:induction false} SignedElsewhere(f: Transform, seed: Hash, inputs: seq<Input>, txs: seq<Transaction>,
                                           t: nat, p: nat)
    requires Signable(f, seed, inputs, txs) && FullHashes(txs) && p < |txs| && Outside(txs, p)
    ensures SignedFrom(f, seed, inputs, txs, t)[p] == txs[p]
    decreases |txs| - t
  {
    hide SignatureFor, FirstMatch, FullHashes, Address, Outside, WriteFragments, GroupEnd, Signable, Covered,
         SignedFrom;
    if t >= |txs| {
      SignedDone(f, seed, inputs, txs, t);
    } else {
      SignStep(f, seed, inputs, txs, t);
      if txs[t].value < 0 {
        CoveredAt(f, seed, inputs, txs, t);
        var input := inputs[FirstMatch(inputs, txs[t].address)];
        var sig := SignatureFor(f, seed, input, txs[t].bundle);
        WriteElsewhere(txs, t, p, sig, input.security);
        SignedElsewhere(f, seed, inputs, WriteFragments(txs, t, input.security, sig), t + input.security, p);
      } else {
        SignedElsewhere(f, seed, inputs, txs, t + 1, p);
      }
    }
  }

  // ----- the fragments check out

  /** The first n fragment digests of a signed group are the first n key digests. */
  lemma {:induction false} GroupDigestsAreKeyDigests(f: Transform, txs: seq<Transaction>, norm: seq<Trit>, i: nat,
                                                     n: nat, key: seq<Hash>, security: nat)
    requires FullSignatures(txs) && |norm| == HASH_LENGTH && n <= security <= 3 && |key| == 27 * security
    requires HoldsSignature(txs, i, security, Signature(f, key, norm))
    ensures GroupDigests(f, txs, norm, i, i + n) == KeyDigests(f, key, security)[..n]
  {
    hide Signature, SigDigest, KeyDigest;
    if n != 0 {
      GroupDigestsAreKeyDigests(f, txs, norm, i, n - 1, key, security);
      var j := n - 1;
      SigningLaw(f, key, norm, j);
      assert txs[i + j].signature == Fragment(Signature(f, key, norm), j);
      assert j % 3 == j;
      assert FragmentDigest(f, txs[i + j], norm, j) == KeyDigest(f, Fragment(key, j));
      var d := KeyDigests(f, key, security);
      assert d[..n] == d[..j] + [d[j]];
    }
  }

  lemma SignedGroupChecks(f: Transform, seed: Hash, input: Input, txs: seq<Transaction>, i: nat, hash: Hash)
    requires i < |txs| && FullSignatures(txs) && |hash.trits| == HASH_LENGTH && 1 <= input.security <= 3
    requires GroupEnd(txs, i, i + 1) == i + input.security
    requires txs[i].address == Address(f, seed, input.keyIndex, input.security)
    requires HoldsSignature(txs, i, input.security, SignatureFor(f, seed, input, hash))
    ensures GroupSigned(f, txs, NormalizedTrits(hash), i)
  {
    hide GroupDigests, KeyDigests, NormalizedTrits, Key, Signature;
    var key := Key(f, seed, input.keyIndex, input.security);
    var norm := NormalizedTrits(hash);
    GroupDigestsAreKeyDigests(f, txs, norm, i, input.security, key, input.security);
    var d := KeyDigests(f, key, input.security);
    assert d[..input.security] == d;
  }
}
