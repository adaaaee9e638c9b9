/**
 iota_pow_bundle (common/helpers/pow.c:112-156): attaching a bundle to the
 tangle, last transaction first, chaining each one to the digest of the next.
 */
module Attach {
  import opened Ternary
  import opened Sponges
  import opened Transactions
  import opened Codec

  datatype Nonce = NoNonce | Nonce(trits: seq<Trit>)

  /** What attaching depends on: the two parents, proof of work, the transaction digest and the clock. */
  datatype Tangle = Tangle(
    trunk: Hash,
    branch: Hash,
    pow: seq<Trit> -> Nonce,
    digest: seq<Trit> -> Hash,
    clock: nat -> UInt64)

  /** Parents and digests are hashes, nonces have 81 trits. */
  ghost predicate SizedTangle(g: Tangle)
  {
    && |g.trunk.trits| == HASH_LENGTH && |g.branch.trits| == HASH_LENGTH
    && (forall s :: |g.digest(s).trits| == HASH_LENGTH)
    && (forall s :: g.pow(s).Nonce? ==> |g.pow(s).trits| == 81)
  }

  /** The arguments of a call: the trunk or the branch pointer may be NULL. */
  datatype Call = NullParent | Call(g: Tangle)

  datatype Outcome = Attached | NullParam | InvalidTransaction | OutOfMemory

  const MAX_TIMESTAMP: UInt64 := 3812798742493

  /** The upper attachment timestamp is the greatest that fits its field. */
  lemma MaxTimestampIs()
    ensures MAX_TIMESTAMP == Half(27)
  {
    HalfValues();
  }

  /** Position of the first transaction with the given index; the length when there is none. */
  function Find(txs: seq<Transaction>, index: int): (p: nat)
    ensures p <= |txs|
    ensures p < |txs| ==> txs[p].currentIndex == index
    ensures forall i :: 0 <= i < p ==> txs[i].currentIndex != index
  {
    if |txs| == 0 || txs[0].currentIndex == index then 0 else 1 + Find(txs[1..], index)
  }

  /** An all-null short tag is replaced by the first 27 trits of the obsolete tag. */
  function FillTag(tag: seq<Trit>, obsoleteTag: seq<Trit>): (r: seq<Trit>)
    requires |tag| == |obsoleteTag| == 81
    ensures |r| == 81
  {
    if forall i :: 0 <= i < 27 ==> tag[i] == 0 then obsoleteTag[..27] + tag[27..] else tag
  }

  ghost predicate Null(t: seq<Trit>) { forall i :: 0 <= i < |t| ==> t[i] == 0 }

  /**
   Exactly an all-null short tag is replaced by the short obsolete tag; the last 54 trits of a tag are never touched.
   So an all-null tag of 81 trits ends equal to the obsolete tag only if the obsolete tag has nothing after its
   first 27 trits.
   */
  lemma FillTagMeaning(tag: seq<Trit>, obsoleteTag: seq<Trit>)
    requires |tag| == |obsoleteTag| == 81
    ensures var r := FillTag(tag, obsoleteTag);
            && r[27..] == tag[27..]
            && (Null(tag[..27]) ==> r[..27] == obsoleteTag[..27])
            && (r == tag <==> !Null(tag[..27]) || Null(obsoleteTag[..27]))
            && (Null(tag) ==> (r == obsoleteTag <==> Null(obsoleteTag[27..])))
  {
    hide FillTag;
    FillTagCases(tag, obsoleteTag);
    var r := FillTag(tag, obsoleteTag);
    assert r == r[..27] + r[27..] && tag == tag[..27] + tag[27..];
    assert obsoleteTag == obsoleteTag[..27] + obsoleteTag[27..];
    if Null(tag[..27]) && Null(obsoleteTag[..27]) {
      assert tag[..27] == obsoleteTag[..27];
    }
    if Null(tag) {
      assert Null(tag[..27]);
      if Null(obsoleteTag[27..]) {
        assert tag[27..] == obsoleteTag[27..];
      } else {
        assert Null(tag[27..]);
      }
    }
  }

  lemma FillTagCases(tag: seq<Trit>, obsoleteTag: seq<Trit>)
    requires |tag| == |obsoleteTag| == 81
    ensures FillTag(tag, obsoleteTag) == if Null(tag[..27]) then obsoleteTag[..27] + tag[27..] else tag
  {
    assert Null(tag[..27]) <==> forall i :: 0 <= i < 27 ==> tag[i] == 0 by {
      assert forall i :: 0 <= i < 27 ==> tag[..27][i] == tag[i];
    }
  }

  predicate TagsSized(tx: Transaction) { |tx.tag| == 81 && |tx.obsoleteTag| == 81 }

  ghost predicate AllTagsSized(txs: seq<Transaction>)
  {
    forall i :: 0 <= i < |txs| ==> TagsSized(txs[i])
  }

  /** The transaction handed to proof of work: parents, timestamps and tag set. */
  function Prepare(tx: Transaction, trunk: Hash, branch: Hash, now: UInt64): Transaction
    requires TagsSized(tx)
  {
    tx.(trunk := trunk, branch := branch, attachmentTimestamp := now, attachmentTimestampLower := 0,
        attachmentTimestampUpper := MAX_TIMESTAMP, tag := FillTag(tx.tag, tx.obsoleteTag))
  }

  /** Only attachment fields differ. */
  predicate SameCore(a: Transaction, b: Transaction)
  {
    a == b.(trunk := a.trunk, branch := a.branch, attachmentTimestamp := a.attachmentTimestamp,
            attachmentTimestampLower := a.attachmentTimestampLower,
            attachmentTimestampUpper := a.attachmentTimestampUpper,
            tag := a.tag, nonce := a.nonce)
  }

  ghost predicate SameCores(a: seq<Transaction>, b: seq<Transaction>)
  {
    |a| == |b| && forall i :: 0 <= i < |a| ==> SameCore(a[i], b[i])
  }

  lemma {:induction false} FindSame(a: seq<Transaction>, b: seq<Transaction>, index: int)
    requires SameCores(a, b)
    ensures Find(a, index) == Find(b, index)
  {
    if |a| != 0 {
      assert SameCore(a[0], b[0]);
      assert SameCores(a[1..], b[1..]);
      FindSame(a[1..], b[1..], index);
    }
  }

  // ----- what attaching leaves

  /** Transaction p, of index i, is chained: the last one to the given parents, any other to the digest of
      the next transaction and the given trunk. */
  ghost predicate Chained(g: Tangle, txs: seq<Transaction>, i: nat, p: nat)
    requires p < |txs|
  {
    if txs[p].lastIndex == i then
      txs[p].trunk == g.trunk && txs[p].branch == g.branch
    else
      var q := Find(txs, i + 1);
      q < |txs| && txs[p].trunk == g.digest(Serialize(txs[q])) && txs[p].branch == g.trunk
  }

  /** The nonce is the proof of work of the transaction as it stood before. */
  ghost predicate Worked(g: Tangle, tx: Transaction, was: Transaction, now: UInt64)
    requires TagsSized(was)
  {
    && g.pow(Serialize(tx.(nonce := was.nonce))) == Nonce(tx.nonce)
    && tx.attachmentTimestamp == now && tx.attachmentTimestampLower == 0 && tx.attachmentTimestampUpper == MAX_TIMESTAMP
    && tx.tag == FillTag(was.tag, was.obsoleteTag)
  }

  ghost predicate LinkOk(g: Tangle, txs: seq<Transaction>, was: seq<Transaction>, i: nat)
    requires AllTagsSized(was) && |txs| == |was|
  {
    var p := Find(txs, i);
    p < |txs| && Chained(g, txs, i, p) && Worked(g, txs[p], was[p], g.clock(i))
  }

  /** Every index from `low` up to the last one has been attached. */
  ghost predicate LinkedFrom(g: Tangle, txs: seq<Transaction>, was: seq<Transaction>, low: nat, last: int)
    requires AllTagsSized(was) && |txs| == |was|
  {
    forall i: nat :: low <= i <= last ==> LinkOk(g, txs, was, i)
  }

  /** Attaching transaction p keeps the link of every later index. */
  lemma LinkKept(g: Tangle, txs: seq<Transaction>, was: seq<Transaction>, p: nat, x: Transaction, i: nat)
    requires AllTagsSized(was) && SameCores(txs, was) && p < |txs| && SameCores(txs[p := x], was)
    requires txs[p].currentIndex < i && LinkOk(g, txs, was, i)
    ensures LinkOk(g, txs[p := x], was, i)
  {
    hide Serialize, FillTag, Worked, Find, SameCores;
    var r := txs[p := x];
    FindSame(r, was, i);
    FindSame(txs, was, i);
    FindSame(r, was, i + 1);
    FindSame(txs, was, i + 1);
    assert Find(txs, i) != p && Find(txs, i + 1) != p;
  }

  lemma UpdateKeepsLinks(g: Tangle, txs: seq<Transaction>, was: seq<Transaction>, p: nat, x: Transaction, last: int)
    requires AllTagsSized(was) && SameCores(txs, was) && p < |txs| == |was| && SameCores(txs[p := x], was)
    requires LinkedFrom(g, txs, was, txs[p].currentIndex + 1, last)
    ensures LinkedFrom(g, txs[p := x], was, txs[p].currentIndex + 1, last)
  {
    hide LinkOk, SameCores, AllTagsSized;
    var r := txs[p := x];
    forall i: nat | txs[p].currentIndex + 1 <= i <= last ensures LinkOk(g, r, was, i) {
      assert LinkOk(g, txs, was, i);
      LinkKept(g, txs, was, p, x, i);
    }
  }

  lemma CoreUpdated(txs: seq<Transaction>, was: seq<Transaction>, p: nat, x: Transaction)
    requires SameCores(txs, was) && p < |txs| && SameCore(x, txs[p])
    ensures SameCores(txs[p := x], was)
  {
    assert SameCore(txs[p], was[p]);
  }

  /** Attach the transaction with index cur (pow.c:131-153). */
  method AttachOne(bundle: array<Transaction>, g: Tangle, cur: nat, ctrunk: Hash, hasTrunk: bool, now: UInt64)
    returns (outcome: Outcome, next: Hash, p: nat)
    requires AllTagsSized(bundle[..])
    requires Find(bundle[..], cur) < bundle.Length ==> hasTrunk || bundle[Find(bundle[..], cur)].lastIndex == cur
    modifies bundle
    ensures p == Find(old(bundle[..]), cur)
    ensures outcome == InvalidTransaction <==> p == bundle.Length
    ensures outcome == Attached || outcome == InvalidTransaction || outcome == OutOfMemory
    ensures p < bundle.Length ==>
              && bundle[..] == old(bundle[..])[p := bundle[p]]
              && SameCore(bundle[p], old(bundle[p])) && TagsSized(bundle[p])
    ensures outcome == Attached ==>
              && (if bundle[p].lastIndex == cur then bundle[p].trunk == g.trunk && bundle[p].branch == g.branch
                  else bundle[p].trunk == ctrunk && bundle[p].branch == g.trunk)
              && TagsSized(old(bundle[p])) && Worked(g, bundle[p], old(bundle[p]), now)
              && next == g.digest(Serialize(bundle[p]))
    ensures outcome == InvalidTransaction ==> bundle[..] == old(bundle[..])
    ensures outcome == OutOfMemory ==> p < bundle.Length && g.pow(Serialize(bundle[p])).NoNonce?
    ensures p < bundle.Length && SizedTangle(g) && |ctrunk.trits| == HASH_LENGTH && old(bundle[p].Sized()) ==>
              bundle[p].Sized() && |next.trits| == HASH_LENGTH
  {
    hide Serialize, FillTag, AllTagsSized;
    next := ctrunk;
    p := 0;
    while p < bundle.Length && bundle[p].currentIndex != cur
      invariant 0 <= p <= bundle.Length
      invariant forall i :: 0 <= i < p ==> bundle[i].currentIndex != cur
    {
      p := p + 1;
    }
    if p == bundle.Length {
      return InvalidTransaction, next, p;
    }
    TagsSizedAt(bundle[..], p);
    var tx := bundle[p];
    var isLast := tx.currentIndex == tx.lastIndex;
    tx := Prepare(tx, if isLast then g.trunk else ctrunk, if isLast then g.branch else g.trunk, now);
    bundle[p] := tx;
    var nonce := g.pow(Serialize(tx));
    if nonce.NoNonce? {
      return OutOfMemory, next, p;
    }
    bundle[p] := tx.(nonce := nonce.trits);
    assert bundle[p].(nonce := old(bundle[p]).nonce) == tx;
    next := g.digest(Serialize(bundle[p]));
    outcome := Attached;
  }

  lemma TagsSizedAt(txs: seq<Transaction>, p: nat)
    requires AllTagsSized(txs) && p < |txs|
    ensures TagsSized(txs[p])
  {
  }

  lemma SizedUpdated(txs: seq<Transaction>, p: nat, x: Transaction)
    requires AllSized(txs) && p < |txs|
    ensures txs[p].Sized() && (x.Sized() ==> AllSized(txs[p := x]))
  {
  }

  lemma TagsSizedUpdated(txs: seq<Transaction>, p: nat, x: Transaction)
    requires AllTagsSized(txs) && p < |txs| && TagsSized(x)
    ensures AllTagsSized(txs[p := x])
  {
  }

  /** The new link: transaction p is chained to the already attached next one. */
  lemma NewLink(g: Tangle, txs: seq<Transaction>, was: seq<Transaction>, i: nat, ctrunk: Hash)
    requires AllTagsSized(was) && |txs| == |was|
    requires var p := Find(txs, i);
             && p < |txs| && Worked(g, txs[p], was[p], g.clock(i))
             && (if txs[p].lastIndex == i then txs[p].trunk == g.trunk && txs[p].branch == g.branch
                 else txs[p].trunk == ctrunk && txs[p].branch == g.trunk)
    requires txs[Find(txs, i)].lastIndex != i ==>
               var q := Find(txs, i + 1); q < |txs| && ctrunk == g.digest(Serialize(txs[q]))
    ensures LinkOk(g, txs, was, i)
  {
    hide Serialize, FillTag, Worked, Find;
  }

  /** What holds before index cur - 1 is attached: later indexes are linked, earlier ones are as they were, and ctrunk
      is the digest of the transaction attached last. */
  ghost predicate Progress(g: Tangle, txs: seq<Transaction>, was: seq<Transaction>, cur: nat, last: int, ctrunk: Hash)
  {
    && AllTagsSized(was) && AllTagsSized(txs) && SameCores(txs, was) && Untouched(txs, was, cur)
    && LinkedFrom(g, txs, was, cur, last) && KeepsSizes(g, txs, was)
    && (SizedTangle(g) && AllSized(was) ==> |ctrunk.trits| == HASH_LENGTH)
    && (cur <= last ==> var q := Find(txs, cur); q < |txs| && ctrunk == g.digest(Serialize(txs[q])))
  }

  ghost predicate KeepsSizes(g: Tangle, txs: seq<Transaction>, was: seq<Transaction>)
  {
    SizedTangle(g) && AllSized(was) ==> AllSized(txs)
  }

  ghost predicate WorkFails(g: Tangle) { exists s :: g.pow(s).NoNonce? }

  /** The transaction with index `last`, if any, agrees that it is the last one. */
  ghost predicate LastAgrees(txs: seq<Transaction>, last: int)
  {
    var p := Find(txs, last);
    p < |txs| ==> txs[p].lastIndex == last
  }

  /** One round of the loop. */
  method AttachNext(bundle: array<Transaction>, g: Tangle, cur: nat, last: int, ctrunk: Hash,
                    ghost was: seq<Transaction>)
    returns (outcome: Outcome, next: Hash)
    requires cur <= last && LastAgrees(was, last) && Progress(g, bundle[..], was, cur + 1, last, ctrunk)
    modifies bundle
    ensures outcome == Attached || outcome == InvalidTransaction || outcome == OutOfMemory
    ensures outcome == Attached ==> Progress(g, bundle[..], was, cur, last, next)
    ensures SameCores(bundle[..], was) && KeepsSizes(g, bundle[..], was)
    ensures outcome == InvalidTransaction ==> Find(was, cur) == bundle.Length
    ensures outcome == OutOfMemory ==> WorkFails(g)
  {
    hide Serialize, FillTag, Find, SameCores, SameCore, AllTagsSized, TagsSized, LinkOk, LinkedFrom, Untouched, Worked,
         AllSized, Transaction.Sized, SizedTangle;
    ghost var now := bundle[..];
    FindSame(now, was, cur);
    CoresAt(now, was);
    var p;
    outcome, next, p := AttachOne(bundle, g, cur, ctrunk, cur < last, g.clock(cur));
    if outcome == InvalidTransaction {
      return;
    }
    CoreUpdated(now, was, p, bundle[p]);
    if SizedTangle(g) && AllSized(was) {
      SizedUpdated(now, p, bundle[p]);
    }
    if outcome == OutOfMemory {
      return;
    }
    TagsSizedUpdated(now, p, bundle[p]);
    UpdateKeepsLinks(g, now, was, p, bundle[p], last);
    UntouchedUpdated(now, was, p, bundle[p], cur);
    FindSame(bundle[..], was, cur);
    CoresAt(bundle[..], was);
    if cur < last {
      NextKept(now, bundle[..], was, p, cur);
    }
    NewLink(g, bundle[..], was, cur, ctrunk);
    ExtendLinks(g, bundle[..], was, cur, last);
  }

  /** iota_pow_bundle. */
  method PowBundle(bundle: array?<Transaction>, call: Call) returns (outcome: Outcome)
    requires bundle != null ==> AllTagsSized(bundle[..])
    requires bundle != null && bundle.Length > 0 ==> LastAgrees(bundle[..], bundle[0].lastIndex)
    modifies bundle
    ensures outcome == NullParam <==> bundle == null || call.NullParent?
    ensures outcome == NullParam && bundle != null ==> bundle[..] == old(bundle[..])
    ensures outcome != NullParam ==>
              SameCores(bundle[..], old(bundle[..])) && KeepsSizes(call.g, bundle[..], old(bundle[..]))
    ensures outcome == Attached && bundle.Length > 0 ==>
              LinkedFrom(call.g, bundle[..], old(bundle[..]), 0, bundle[0].lastIndex)
    ensures outcome == InvalidTransaction ==>
              && bundle.Length > 0
              && exists i: nat :: i <= old(bundle[0].lastIndex) && Find(old(bundle[..]), i) == bundle.Length
    ensures outcome == OutOfMemory ==> WorkFails(call.g)
  {
    hide Find, SameCores, AllTagsSized, LinkedFrom, LastAgrees, Progress;
    if bundle == null || call.NullParent? {
      return NullParam;
    }
    var g := call.g;
    CoresReflexive(bundle[..]);
    if bundle.Length == 0 {
      return Attached;
    }
    ghost var was := bundle[..];
    var last: int := bundle[0].lastIndex;
    var cur: nat := last + 1;
    NothingAttached(g, was, last);
    var ctrunk := g.trunk;
    outcome := Attached;
    while cur > 0
      invariant 0 <= cur <= last + 1 && outcome == Attached
      invariant Progress(g, bundle[..], was, cur, last, ctrunk)
    {
      cur := cur - 1;
      outcome, ctrunk := AttachNext(bundle, g, cur, last, ctrunk, was);
      if outcome != Attached {
        return;
      }
    }
    AllAttached(g, bundle[..], was, last, ctrunk);
    CoresAt(bundle[..], was);
  }

  /** Transactions with an index below cur are still as they were. */
  ghost predicate Untouched(txs: seq<Transaction>, was: seq<Transaction>, cur: nat)
  {
    |txs| == |was| && forall i :: 0 <= i < |txs| && txs[i].currentIndex < cur ==> txs[i] == was[i]
  }

  lemma UntouchedUpdated(txs: seq<Transaction>, was: seq<Transaction>, p: nat, x: Transaction, cur: nat)
    requires Untouched(txs, was, cur + 1) && p < |txs| && txs[p].currentIndex == cur && SameCore(x, txs[p])
    ensures Untouched(txs[p := x], was, cur) && txs[p] == was[p]
  {
  }

  /** The next transaction is not the one just attached. */
  lemma NextKept(now: seq<Transaction>, after: seq<Transaction>, was: seq<Transaction>, p: nat, cur: nat)
    requires SameCores(now, was) && SameCores(after, was) && p < |now| && |after| == |now|
              && after == now[p := after[p]]
    requires now[p].currentIndex == cur && Find(now, cur + 1) < |now|
    ensures var q := Find(after, cur + 1); q < |after| && after[q] == now[Find(now, cur + 1)]
  {
    hide Find, SameCores;
    FindSame(now, was, cur + 1);
    FindSame(after, was, cur + 1);
  }

  lemma NothingAttached(g: Tangle, txs: seq<Transaction>, last: int)
    requires AllTagsSized(txs) && -1 <= last
    ensures Progress(g, txs, txs, last + 1, last, g.trunk)
  {
    hide Serialize, Find, LinkOk, AllTagsSized, AllSized;
    CoresReflexive(txs);
  }

  lemma AllAttached(g: Tangle, txs: seq<Transaction>, was: seq<Transaction>, last: int, ctrunk: Hash)
    requires Progress(g, txs, was, 0, last, ctrunk)
    ensures AllTagsSized(was) && SameCores(txs, was) && KeepsSizes(g, txs, was) && LinkedFrom(g, txs, was, 0, last)
  {
  }

  lemma ExtendLinks(g: Tangle, txs: seq<Transaction>, was: seq<Transaction>, cur: nat, last: int)
    requires AllTagsSized(was) && |txs| == |was|
    requires LinkedFrom(g, txs, was, cur + 1, last) && LinkOk(g, txs, was, cur)
    ensures LinkedFrom(g, txs, was, cur, last)
  {
    hide LinkOk, AllTagsSized;
  }

  lemma CoresReflexive(txs: seq<Transaction>)
    ensures SameCores(txs, txs)
  {
  }

  lemma CoresAt(a: seq<Transaction>, b: seq<Transaction>)
    requires SameCores(a, b)
    ensures |a| == |b| && forall i :: 0 <= i < |a| ==>
              a[i].currentIndex == b[i].currentIndex && a[i].lastIndex == b[i].lastIndex
              && a[i].obsoleteTag == b[i].obsoleteTag
  {
    assert forall i :: 0 <= i < |a| ==> SameCore(a[i], b[i]);
  }
}
