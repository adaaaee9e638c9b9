/**
 The bundle miner (utils/bundle_miner.c): threads that scan disjoint ranges of
 tags for the least losing probability and share one stop flag. Threads are
 interleaved at the reads and writes of that flag.
 */
module Miner {
  import opened Arith
  import opened Ternary
  import opened TritLong
  import opened Sponges
  import opened Normalize
  import opened Transactions
  import opened Codec
  import opened TagScan
  import opened BundleEssence
  import opened Bundle
  import opened Losing

  // ----- the search problem

  datatype Score = Insecure | Odds(p: real)

  /** What is being mined: the hash of the essence with a given obsolete tag, the tag that is hashed for an index, the
      published maximum, the level and the threshold exponent. */
  datatype Task =
    Task(hash: seq<Trit> -> Hash, tags: int -> seq<Trit>, published: seq<int>, security: nat, threshold: nat)

  ghost predicate Scorable(published: seq<int>, security: nat)
  {
    1 <= security <= 3 && |published| == 81 && InTryteRange(published)
  }

  ghost predicate WellFormed(task: Task)
  {
    Scorable(task.published, task.security) && forall tag :: |task.hash(tag).trits| == HASH_LENGTH
  }

  /** The score of a bundle hash: none if one of the signed trytes is 13. */
  ghost function HashScore(published: seq<int>, security: nat, hash: Hash): (s: Score)
    requires Scorable(published, security) && |hash.trits| == HASH_LENGTH
    ensures s.Odds? ==> 0.0 < s.p <= 1.0
  {
    var n := security * 27;
    var norm := NormalizeHash(hash);
    if exists i :: 0 <= i < n && norm[i] == TRYTE_MAX then Insecure
    else
      NormalizeHashBalances(hash);
      MaxNeverLowers(published, norm, n);
      Odds(Product(MaxHash(published, norm, n), n))
  }

  /**
   What the score means: a hash with a 13 among its signed trytes has none; otherwise the odds are those of the hash
   merged with the published one, never below either, and equal to the one that is above the other everywhere.
   */
  lemma HashScoreMeaning(published: seq<int>, security: nat, hash: Hash)
    requires Scorable(published, security) && |hash.trits| == HASH_LENGTH
    ensures var n, norm, s := 27 * security, NormalizeHash(hash), HashScore(published, security, hash);
            && (s.Insecure? <==> exists i :: 0 <= i < n && norm[i] == TRYTE_MAX)
            && (s.Odds? ==> Product(published, n) <= s.p && Product(norm, n) <= s.p)
            && (s.Odds? && (forall i :: 0 <= i < n ==> norm[i] <= published[i]) ==> s.p == Product(published, n))
            && (s.Odds? && (forall i :: 0 <= i < n ==> published[i] <= norm[i]) ==> s.p == Product(norm, n))
  {
    hide NormalizeHash, Product;
    var n, norm := 27 * security, NormalizeHash(hash);
    var m := MaxHash(published, norm, n);
    NormalizeHashBalances(hash);
    MaxNeverLowers(published, norm, n);
    if forall i :: 0 <= i < n ==> norm[i] <= published[i] {
      assert m == published[..n];
      ProductPrefix(published, m, n);
    }
    if forall i :: 0 <= i < n ==> published[i] <= norm[i] {
      assert m == norm[..n];
      ProductPrefix(norm, m, n);
    }
  }

  /** Without reference to the merge: the odds are the product for every m that is, entry by entry, the greater one. */
  lemma HashScoreIs(published: seq<int>, security: nat, hash: Hash, m: seq<int>)
    requires Scorable(published, security) && |hash.trits| == HASH_LENGTH && |m| == 27 * security
    requires var norm := NormalizeHash(hash);
             forall i :: 0 <= i < |m| ==>
               m[i] >= published[i] && m[i] >= norm[i] && (m[i] == published[i] || m[i] == norm[i])
    ensures var s := HashScore(published, security, hash);
            s.Odds? ==> s.p == Product(m, |m|)
  {
    hide NormalizeHash, Product;
    var norm := NormalizeHash(hash);
    assert m == MaxHash(published, norm, |m|);
  }

  /** Scoring one candidate hash (bundle_miner.c:47-52): normalize, scan, merge, compute the odds. */
  method ScoreCandidate(published: seq<int>, security: nat, hash: Hash) returns (score: Score)
    requires Scorable(published, security) && |hash.trits| == HASH_LENGTH
    ensures score == HashScore(published, security, hash)
  {
    hide NormalizeHash, Product;
    var n := security * 27;
    var normalized, merged := new int[81](_ => 0), new int[81](_ => 0);
    NormalizeInto(hash, normalized);
    ghost var norm := NormalizeHash(hash);
    NormalizeHashBalances(hash);
    assert forall j :: 0 <= j < 81 ==> normalized[j] == norm[j];
    for i := 0 to n
      invariant normalized[..] == norm && forall j :: 0 <= j < i ==> norm[j] != TRYTE_MAX
    {
      if normalized[i] == TRYTE_MAX {
        return Insecure;
      }
    }
    NormalizedBundleMax(published, normalized[..], merged, n);
    MaxNeverLowers(published, norm, n);
    var p := ProbabilityOfLosing(merged[..n], security);
    return Odds(p);
  }

  ghost function ScoreOfTag(task: Task, tag: seq<Trit>): (s: Score)
    requires WellFormed(task)
    ensures s.Odds? ==> 0.0 < s.p <= 1.0
  {
    HashScore(task.published, task.security, task.hash(tag))
  }

  /** The score of candidate x: that of the tag that is hashed for x. */
  ghost function ScoreOf(task: Task, x: int): (s: Score)
    requires WellFormed(task)
    ensures s.Odds? ==> 0.0 < s.p <= 1.0
  {
    ScoreOfTag(task, task.tags(x))
  }

  /** Expected number of trials reaches 3^threshold. */
  ghost predicate Meets(task: Task, p: real)
  {
    p > 0.0 && Pow3(task.threshold) > 1 && (1.0 / p).Floor >= Pow3(task.threshold)
  }

  /** For positive odds this says that 3^threshold times the odds is at most 1; exponent 0 stands for no threshold. */
  lemma MeetsIff(task: Task, p: real)
    requires p > 0.0
    ensures Meets(task, p) <==> task.threshold > 0 && Pow3(task.threshold) as real * p <= 1.0
  {
    var n := Pow3(task.threshold);
    assert n > 1 <==> task.threshold > 0;
    hide Pow3;
    var q := 1.0 / p;
    assert q * p == 1.0;
    if q.Floor >= n {
      assert q >= n as real;
      assert n as real * p <= q * p;
    } else {
      assert q < n as real;
      assert q * p < n as real * p;
    }
  }

  // ----- what a scanned range is worth

  /** Nothing in [lo, hi) has odds below p. */
  ghost predicate NoneBelow(task: Task, lo: int, hi: int, p: real)
    requires WellFormed(task)
  {
    forall x: int :: lo <= x < hi && ScoreOf(task, x).Odds? ==> ScoreOf(task, x).p >= p
  }

  /** (p, best) is the strict minimum of [lo, hi): the lowest index of least odds, or (1, 0) if none is below 1. */
  ghost predicate IsBest(task: Task, lo: int, hi: int, p: real, best: int)
    requires WellFormed(task)
  {
    && NoneBelow(task, lo, hi, p)
    && (if p == 1.0 then best == 0
        else && lo <= best < hi && p < 1.0 && ScoreOf(task, best) == Odds(p)
             && forall x: int :: lo <= x < best && ScoreOf(task, x).Odds? ==> ScoreOf(task, x).p > p)
  }

  /** Scanning one more candidate. */
  lemma ScanOne(task: Task, lo: int, hi: int, p: real, best: int)
    requires WellFormed(task) && lo <= hi && IsBest(task, lo, hi, p, best)
    ensures var s := ScoreOf(task, hi);
            if s.Odds? && s.p < p then IsBest(task, lo, hi + 1, s.p, hi) else IsBest(task, lo, hi + 1, p, best)
  {
    hide ScoreOf;
  }

  /** Joining two adjacent ranges: the right one wins only if it is strictly better. */
  lemma JoinRanges(task: Task, lo: int, mid: int, hi: int, p: real, best: int, q: real, other: int)
    requires WellFormed(task) && lo <= mid <= hi
    requires IsBest(task, lo, mid, p, best) && IsBest(task, mid, hi, q, other)
    ensures if q < p then IsBest(task, lo, hi, q, other) else IsBest(task, lo, hi, p, best)
  {
    hide ScoreOf;
  }

  lemma BestIsUnique(task: Task, lo: int, hi: int, p: real, best: int, q: real, other: int)
    requires WellFormed(task) && IsBest(task, lo, hi, p, best) && IsBest(task, lo, hi, q, other)
    ensures p == q && best == other
  {
    hide ScoreOf;
  }

  // ----- threads

  datatype Pc = Check | Work | Publish | Found | Halted

  /** bundle_miner_ctx_t with the loop counter i and the position of its thread; `tag` is the obsolete tag in the
      thread's copy of the essence, over which every candidate index is written in place. */
  datatype Ctx =
    Ctx(start: int, count: nat, i: nat, index: int, optimalIndex: int, probability: real, tag: seq<Trit>, pc: Pc)

  /** shared says whether the flag pointer was given (it may be NULL). */
  datatype State = State(ctxs: seq<Ctx>, flag: bool, shared: bool)

  predicate Finished(c: Ctx) { c.pc == Found || c.pc == Halted }

  /** Top of the loop (bundle_miner.c:37-40). */
  function CheckStep(c: Ctx, stop: bool): Ctx
  {
    if c.i >= c.count || stop then c.(pc := Halted) else c.(pc := Work)
  }

  /** Body of the loop (bundle_miner.c:41-65), up to the write of the flag. */
  ghost function WorkStep(task: Task, c: Ctx, shared: bool): Ctx
    requires WellFormed(task)
  {
    var tag := Overwrite(c.tag, c.index);
    var s := ScoreOfTag(task, tag);
    if s.Odds? && s.p < c.probability then
      var d := c.(probability := s.p, optimalIndex := c.index, tag := tag);
      if Meets(task, s.p) then d.(pc := if shared then Publish else Found)
      else d.(index := c.index + 1, i := c.i + 1, pc := Check)
    else c.(index := c.index + 1, i := c.i + 1, tag := tag, pc := Check)
  }

  /** Thread k takes one step. */
  ghost predicate Step(task: Task, s: State, t: State, k: nat)
    requires WellFormed(task)
  {
    k < |s.ctxs| && !Finished(s.ctxs[k]) &&
    var c := s.ctxs[k];
    match c.pc
    case Check => t == s.(ctxs := s.ctxs[k := CheckStep(c, s.shared && s.flag)])
    case Work => t == s.(ctxs := s.ctxs[k := WorkStep(task, c, s.shared)])
    case _ => t == s.(ctxs := s.ctxs[k := c.(pc := Found)], flag := true)
  }

  /** How many candidates of its range a thread has scored. */
  function Scanned(c: Ctx): nat
  {
    if c.pc == Publish || c.pc == Found then c.i + 1 else c.i
  }

  /** Writing the next index of the range into the buffer gives the tag of that index, and so on to the end. */
  ghost predicate TagOk(task: Task, c: Ctx)
  {
    var next := c.start + Scanned(c);
    && (Scanned(c) < c.count ==> Overwrite(c.tag, next) == task.tags(next))
    && forall x :: c.start < x < c.start + c.count ==> task.tags(x) == Overwrite(task.tags(x - 1), x)
  }

  /** A thread holds the strict running minimum over exactly the prefix it has scanned. */
  ghost predicate CtxOk(task: Task, c: Ctx)
    requires WellFormed(task)
  {
    && c.index == c.start + c.i && c.i <= c.count && TagOk(task, c)
    && (c.pc == Work || c.pc == Publish || c.pc == Found ==> c.i < c.count)
    && IsBest(task, c.start, c.start + Scanned(c), c.probability, c.optimalIndex)
    && (if c.pc == Publish || c.pc == Found then Meets(task, c.probability) && c.probability < 1.0
        else !Meets(task, c.probability))
  }

  ghost predicate SomeFound(s: State) { exists k :: 0 <= k < |s.ctxs| && s.ctxs[k].pc == Found }

  /** A thread that halts early has seen the flag. */
  ghost predicate Inv(task: Task, s: State)
    requires WellFormed(task)
  {
    && (forall k :: 0 <= k < |s.ctxs| ==> CtxOk(task, s.ctxs[k]))
    && (s.flag ==> s.shared && SomeFound(s))
    && (forall k :: 0 <= k < |s.ctxs| && s.ctxs[k].pc == Publish ==> s.shared)
    && (forall k :: 0 <= k < |s.ctxs| && s.ctxs[k].pc == Halted ==> s.ctxs[k].i == s.ctxs[k].count || s.flag)
  }

  lemma CtxStep(task: Task, c: Ctx, shared: bool, stop: bool)
    requires WellFormed(task) && CtxOk(task, c)
    ensures c.pc == Check ==> CtxOk(task, CheckStep(c, stop))
    ensures c.pc == Work ==> CtxOk(task, WorkStep(task, c, shared))
    ensures c.pc == Publish ==> CtxOk(task, c.(pc := Found))
  {
    hide ScoreOfTag, Meets, IsBest, Overwrite;
    if c.pc == Work {
      ScanOne(task, c.start, c.index, c.probability, c.optimalIndex);
      ScoreRange(task, c.index);
      BestBounded(task, c.start, c.index, c.probability, c.optimalIndex);
    }
  }

  lemma ScoreRange(task: Task, x: int)
    requires WellFormed(task)
    ensures ScoreOf(task, x).Odds? ==> 0.0 < ScoreOf(task, x).p <= 1.0
  {
  }

  lemma BestBounded(task: Task, lo: int, hi: int, p: real, best: int)
    requires WellFormed(task) && IsBest(task, lo, hi, p, best)
    ensures p <= 1.0
  {
    hide ScoreOf;
  }

  lemma WorkStepShape(task: Task, c: Ctx, shared: bool)
    requires WellFormed(task)
    ensures var d := WorkStep(task, c, shared);
            && d.start == c.start && d.count == c.count
            && (d.pc == Check || (d.pc == Publish && shared) || (d.pc == Found && !shared))
            && (d.pc == Check ==> d.i == c.i + 1)
  {
    hide ScoreOfTag, Overwrite, Meets;
  }

  /** Every thread keeps its range. */
  ghost predicate SameRanges(s: State, t: State)
  {
    |t.ctxs| == |s.ctxs| &&
    forall k :: 0 <= k < |s.ctxs| ==> t.ctxs[k].start == s.ctxs[k].start && t.ctxs[k].count == s.ctxs[k].count
  }

  /** The invariant survives every step of every thread, and the flag is never cleared. */
  lemma StepKeepsInv(task: Task, s: State, t: State, k: nat)
    requires WellFormed(task) && Inv(task, s) && Step(task, s, t, k)
    ensures Inv(task, t) && SameRanges(s, t) && t.shared == s.shared && (s.flag ==> t.flag)
  {
    hide ScoreOf, Meets, IsBest, WorkStep, WellFormed, Scanned;
    var c := s.ctxs[k];
    CtxStep(task, c, s.shared, s.shared && s.flag);
    WorkStepShape(task, c, s.shared);
    assert c.i <= c.count;
    hide CtxOk;
    FoundKept(s, t, k);
  }

  lemma FoundKept(s: State, t: State, k: nat)
    requires k < |s.ctxs| && |t.ctxs| == |s.ctxs| && t.ctxs == s.ctxs[k := t.ctxs[k]]
    requires s.ctxs[k].pc != Found
    ensures SomeFound(s) || t.ctxs[k].pc == Found ==> SomeFound(t)
  {
    if SomeFound(s) {
      var j :| 0 <= j < |s.ctxs| && s.ctxs[j].pc == Found;
      assert t.ctxs[j].pc == Found;
    }
  }

  // ----- runs

  ghost predicate Succ(task: Task, s: State, t: State)
    requires WellFormed(task)
  {
    exists k: nat :: Step(task, s, t, k)
  }

  ghost predicate Run(task: Task, states: seq<State>)
    requires WellFormed(task)
  {
    |states| > 0 && forall j :: 0 <= j < |states| - 1 ==> Succ(task, states[j], states[j + 1])
  }

  /** Every state of every interleaving satisfies the invariant. */
  lemma {:induction false} RunKeepsInv(task: Task, states: seq<State>, j: nat)
    requires WellFormed(task) && Run(task, states) && Inv(task, states[0]) && j < |states|
    ensures Inv(task, states[j]) && SameRanges(states[0], states[j]) && states[j].shared == states[0].shared
  {
    hide Step, Inv, WellFormed;
    if j != 0 {
      RunKeepsInv(task, states, j - 1);
      assert Succ(task, states[j - 1], states[(j - 1) + 1]);
      var k: nat :| Step(task, states[j - 1], states[j], k);
      StepKeepsInv(task, states[j - 1], states[j], k);
    }
  }

  // ----- every run ends

  function Rank(c: Ctx): nat
  {
    var left := if c.i < c.count then c.count - c.i else 0;
    match c.pc
    case Check => 3 * left + 3
    case Work => 3 * left + 2
    case Publish => 1
    case _ => 0
  }

  function Total(ctxs: seq<Ctx>): nat
  {
    if |ctxs| == 0 then 0 else Rank(ctxs[0]) + Total(ctxs[1..])
  }

  lemma {:induction false} TotalUpdate(ctxs: seq<Ctx>, k: nat, d: Ctx)
    requires k < |ctxs|
    ensures Total(ctxs[k := d]) == Total(ctxs) - Rank(ctxs[k]) + Rank(d)
  {
    hide Rank;
    if k == 0 {
      assert ctxs[0 := d][1..] == ctxs[1..];
    } else {
      assert ctxs[k := d][1..] == ctxs[1..][k - 1 := d];
      TotalUpdate(ctxs[1..], k - 1, d);
    }
  }

  lemma StepDecreases(task: Task, s: State, t: State, k: nat)
    requires WellFormed(task) && Inv(task, s) && Step(task, s, t, k)
    ensures Total(t.ctxs) < Total(s.ctxs)
  {
    hide ScoreOf, Meets, IsBest, WorkStep, WellFormed, Scanned, Total;
    var c := s.ctxs[k];
    assert CtxOk(task, c);
    WorkStepShape(task, c, s.shared);
    TotalUpdate(s.ctxs, k, t.ctxs[k]);
    assert Rank(t.ctxs[k]) < Rank(c);
  }

  /** No interleaving is longer than the work it starts with. */
  lemma {:induction false} RunIsBounded(task: Task, states: seq<State>, j: nat)
    requires WellFormed(task) && Run(task, states) && Inv(task, states[0]) && j < |states|
    ensures j + Total(states[j].ctxs) <= Total(states[0].ctxs)
  {
    hide Step, Inv, WellFormed, Total;
    if j != 0 {
      RunIsBounded(task, states, j - 1);
      RunKeepsInv(task, states, j - 1);
      assert Succ(task, states[j - 1], states[(j - 1) + 1]);
      var k: nat :| Step(task, states[j - 1], states[j], k);
      StepDecreases(task, states[j - 1], states[j], k);
    }
  }

  /** What a thread can still do once the flag is set: finish the candidate it works on, then see the flag. */
  function RankAfterFlag(c: Ctx): (n: nat)
    ensures n <= 2
  {
    match c.pc
    case Check => 1
    case Work => 2
    case Publish => 1
    case _ => 0
  }

  function TotalAfterFlag(ctxs: seq<Ctx>): (n: nat)
    ensures n <= 2 * |ctxs|
  {
    if |ctxs| == 0 then 0 else RankAfterFlag(ctxs[0]) + TotalAfterFlag(ctxs[1..])
  }

  lemma {:induction false} TotalAfterFlagUpdate(ctxs: seq<Ctx>, k: nat, d: Ctx)
    requires k < |ctxs|
    ensures TotalAfterFlag(ctxs[k := d]) == TotalAfterFlag(ctxs) - RankAfterFlag(ctxs[k]) + RankAfterFlag(d)
  {
    hide RankAfterFlag;
    if k == 0 {
      assert ctxs[0 := d][1..] == ctxs[1..];
    } else {
      assert ctxs[k := d][1..] == ctxs[1..][k - 1 := d];
      TotalAfterFlagUpdate(ctxs[1..], k - 1, d);
    }
  }

  lemma StepAfterFlag(task: Task, s: State, t: State, k: nat)
    requires WellFormed(task) && s.shared && s.flag && Step(task, s, t, k)
    ensures TotalAfterFlag(t.ctxs) < TotalAfterFlag(s.ctxs) && t.shared && t.flag && |t.ctxs| == |s.ctxs|
  {
    hide ScoreOf, Meets, WorkStep, WellFormed, TotalAfterFlag;
    var c := s.ctxs[k];
    WorkStepShape(task, c, s.shared);
    TotalAfterFlagUpdate(s.ctxs, k, t.ctxs[k]);
    assert RankAfterFlag(t.ctxs[k]) < RankAfterFlag(c);
  }

  /** The flag stops everybody: once it is set, no interleaving has more than two further steps per thread. */
  lemma {:induction false} FlagStopsAll(task: Task, states: seq<State>, j: nat)
    requires WellFormed(task) && Run(task, states) && states[0].shared && states[0].flag && j < |states|
    ensures j + TotalAfterFlag(states[j].ctxs) <= 2 * |states[0].ctxs|
    ensures states[j].shared && states[j].flag && |states[j].ctxs| == |states[0].ctxs|
  {
    hide Step, WellFormed, TotalAfterFlag;
    if j != 0 {
      FlagStopsAll(task, states, j - 1);
      assert Succ(task, states[j - 1], states[(j - 1) + 1]);
      var k: nat :| Step(task, states[j - 1], states[j], k);
      StepAfterFlag(task, states[j - 1], states[j], k);
    }
  }

  /** A state in which some thread has not finished is never stuck. */
  lemma NeverStuck(task: Task, s: State, k: nat)
    requires WellFormed(task) && k < |s.ctxs| && !Finished(s.ctxs[k])
    ensures exists t: State :: Succ(task, s, t)
  {
    hide ScoreOf, Meets, WorkStep, WellFormed, CheckStep;
    var c := s.ctxs[k];
    var t := if c.pc == Check then s.(ctxs := s.ctxs[k := CheckStep(c, s.shared && s.flag)])
             else if c.pc == Work then s.(ctxs := s.ctxs[k := WorkStep(task, c, s.shared)])
             else s.(ctxs := s.ctxs[k := c.(pc := Found)], flag := true);
    assert Step(task, s, t, k);
    assert Succ(task, s, t);
  }

  // ----- launching (bundle_miner.c:104, 124-142)

  /** The count is rounded up to the next multiple of the number of threads, strictly. */
  function RoundedCount(count: nat, threads: nat): nat
    requires threads > 0
  {
    count + (threads - count % threads)
  }

  function PerThread(count: nat, threads: nat): nat
    requires threads > 0
  {
    RoundedCount(count, threads) / threads
  }

  /** The ranges split the rounded count evenly and cover more than the requested count. */
  lemma RangesCover(count: nat, threads: nat)
    requires threads > 0
    ensures threads * PerThread(count, threads) == RoundedCount(count, threads)
    ensures count < RoundedCount(count, threads) <= count + threads
  {
    var q := count / threads + 1;
    assert RoundedCount(count, threads) == threads * q by {
      assert threads * q == threads * (count / threads) + threads;
    }
    DivisionIs(RoundedCount(count, threads), threads, q, 0);
  }

  function FreshCtx(start: int, count: nat, tag: seq<Trit>): Ctx
  {
    Ctx(start, count, 0, start, 0, 1.0, tag, Check)
  }

  /** All contexts as bundle_miner_mine sets them up: the scan starts at the index the tag spells, thread j scans `per`
      indexes from RangeStart on, and every thread has its own copy of the tag. */
  function Launch(tag: seq<Trit>, per: nat, threads: nat, shared: bool): (s: State)
    ensures |s.ctxs| == threads
  {
    State(seq(threads, j requires 0 <= j < threads => FreshCtx(RangeStart(Val(tag), per, j), per, tag)), false, shared)
  }

  lemma LaunchInv(task: Task, tag: seq<Trit>, per: nat, threads: nat, shared: bool)
    requires WellFormed(task) && TagsOf(task.tags, tag, Val(tag), per)
    ensures Inv(task, Launch(tag, per, threads, shared))
  {
    hide ScoreOf, Meets, RangeStart, CtxOk, Val, Follows, TagsOf;
    var start := Val(tag);
    var s := Launch(tag, per, threads, shared);
    forall k | 0 <= k < threads ensures CtxOk(task, s.ctxs[k]) && s.ctxs[k].pc == Check {
      assert s.ctxs[k] == FreshCtx(RangeStart(start, per, k), per, tag);
      ThreadFollows(task.tags, tag, start, per, k);
      FreshOk(task, RangeStart(start, per, k), per, tag);
    }
  }

  lemma FreshOk(task: Task, start: int, count: nat, tag: seq<Trit>)
    requires WellFormed(task) && Follows(task.tags, tag, start, count)
    ensures CtxOk(task, FreshCtx(start, count, tag))
  {
    hide ScoreOf, Meets, Overwrite;
    CertaintyMeetsNothing(task);
  }

  // ----- joining (bundle_miner.c:144-151)

  datatype Result = Result(p: real, index: int)

  function Better(r: Result, c: Ctx): Result
  {
    if c.probability < r.p then Result(c.probability, c.optimalIndex) else r
  }

  function Joined(ctxs: seq<Ctx>, n: nat): Result
    requires n <= |ctxs|
  {
    if n == 0 then Result(1.0, 0) else Better(Joined(ctxs, n - 1), ctxs[n - 1])
  }

  /** The join loop. */
  method Join(ctxs: seq<Ctx>) returns (index: int, probability: real)
    ensures Joined(ctxs, |ctxs|) == Result(probability, index)
  {
    index, probability := 0, 1.0;
    for i := 0 to |ctxs|
      invariant Joined(ctxs, i) == Result(probability, index)
    {
      if ctxs[i].probability < probability {
        probability := ctxs[i].probability;
        index := ctxs[i].optimalIndex;
      }
    }
  }

  /** The join returns the least probability and an index that has it. */
  lemma {:induction false} JoinedIsLeast(task: Task, ctxs: seq<Ctx>, n: nat)
    requires WellFormed(task) && n <= |ctxs|
    requires forall k :: 0 <= k < |ctxs| ==> CtxOk(task, ctxs[k])
    ensures var r := Joined(ctxs, n);
            && r.p <= 1.0 && (forall k :: 0 <= k < n ==> r.p <= ctxs[k].probability)
            && (r.p < 1.0 ==> ScoreOf(task, r.index) == Odds(r.p))
            && (r.p == 1.0 ==> r.index == 0)
  {
    hide ScoreOf, Meets, WellFormed, TagOk, NoneBelow;
    if n != 0 {
      JoinedIsLeast(task, ctxs, n - 1);
      assert CtxOk(task, ctxs[n - 1]);
    }
  }

  lemma ReciprocalMonotone(p: real, q: real)
    requires 0.0 < q <= p
    ensures 1.0 / q >= 1.0 / p
  {
    var a, b := 1.0 / p, 1.0 / q;
    assert a * p == 1.0 && b * q == 1.0 && a > 0.0;
    assert a * q <= a * p;
    assert (b - a) * q >= 0.0;
  }

  lemma MeetsMonotone(task: Task, p: real, q: real)
    requires Meets(task, p) && 0.0 < q <= p
    ensures Meets(task, q)
  {
    hide Pow3;
    ReciprocalMonotone(p, q);
  }

  /**
   Stopping early is justified: once some thread has hit the threshold, whatever
   the other threads did, the joined index scores and reaches the threshold.
   */
  lemma StopIsJustified(task: Task, s: State)
    requires WellFormed(task) && Inv(task, s) && SomeFound(s)
    ensures var r := Joined(s.ctxs, |s.ctxs|);
            ScoreOf(task, r.index) == Odds(r.p) && Meets(task, r.p)
  {
    hide ScoreOf, Meets, Joined, WellFormed;
    var k :| 0 <= k < |s.ctxs| && s.ctxs[k].pc == Found;
    assert CtxOk(task, s.ctxs[k]);
    JoinedIsLeast(task, s.ctxs, |s.ctxs|);
    var r := Joined(s.ctxs, |s.ctxs|);
    ScoreRange(task, r.index);
    MeetsMonotone(task, s.ctxs[k].probability, r.p);
  }

  /** Threads laid out one after the other. */
  ghost predicate LaidOut(ctxs: seq<Ctx>, start: int, per: nat)
  {
    forall k :: 0 <= k < |ctxs| ==> ctxs[k].start == RangeStart(start, per, k) && ctxs[k].count == per
  }

  lemma EmptyRange(task: Task, lo: int)
    requires WellFormed(task)
    ensures IsBest(task, lo, lo, 1.0, 0)
  {
  }

  lemma CtxHoldsBest(task: Task, c: Ctx)
    requires WellFormed(task) && CtxOk(task, c)
    ensures IsBest(task, c.start, c.start + Scanned(c), c.probability, c.optimalIndex)
  {
  }

  /** Complete scans of consecutive ranges join to the strict minimum of their union. */
  lemma {:induction false} JoinedIsBest(task: Task, ctxs: seq<Ctx>, start: int, per: nat, n: nat)
    requires WellFormed(task) && n <= |ctxs| && LaidOut(ctxs, start, per)
    requires forall k :: 0 <= k < |ctxs| ==> CtxOk(task, ctxs[k]) && Scanned(ctxs[k]) == per
    ensures var r := Joined(ctxs, n);
            IsBest(task, start, RangeStart(start, per, n), r.p, r.index)
  {
    hide ScoreOf, Meets, WellFormed, RangeStart, CtxOk, IsBest, Scanned;
    RangeStep(start, per, 0);
    if n == 0 {
      EmptyRange(task, start);
    } else {
      JoinedIsBest(task, ctxs, start, per, n - 1);
      var c := ctxs[n - 1];
      assert CtxOk(task, c) && Scanned(c) == per;
      CtxHoldsBest(task, c);
      var r := Joined(ctxs, n - 1);
      RangeStep(start, per, n - 1);
      JoinRanges(task, start, RangeStart(start, per, n - 1), RangeStart(start, per, n), r.p, r.index, c.probability,
        c.optimalIndex);
    }
  }

  /** With threshold exponent 0 no thread ever stops early. */
  lemma NoThresholdNoStop(task: Task, s: State)
    requires WellFormed(task) && Inv(task, s) && task.threshold == 0
    ensures !SomeFound(s) && !s.flag
  {
    hide ScoreOf, IsBest;
    assert Pow3(0) == 1;
    assert forall k :: 0 <= k < |s.ctxs| ==> CtxOk(task, s.ctxs[k]);
  }

  /** A run at whose end every thread has finished. */
  ghost predicate CompleteRun(task: Task, states: seq<State>)
    requires WellFormed(task)
  {
    Run(task, states) && var last := states[|states| - 1]; forall k :: 0 <= k < |last.ctxs| ==> Finished(last.ctxs[k])
  }

  /**
   bundle_miner_mine under every interleaving, from launch to join. If some thread
   hit the threshold, and only then, the returned index reaches it. Otherwise the returned index
   is the lowest one of least losing probability among all secure candidates of
   the whole rounded range, or 0 when none is below 1. This holds for every start
   tag; the tag hashed for an index is the one the in-place writes leave, which
   spells the index in clean scans (TagScan.ScanSpelledIff).
   */
  lemma MineResult(task: Task, tag: seq<Trit>, count: nat, threads: nat, shared: bool, states: seq<State>)
    requires WellFormed(task) && threads > 0 && TagsOf(task.tags, tag, Val(tag), PerThread(count, threads))
    requires CompleteRun(task, states) && states[0] == Launch(tag, PerThread(count, threads), threads, shared)
    ensures var last := states[|states| - 1];
            var r := Joined(last.ctxs, |last.ctxs|);
            && (last.flag ==> SomeFound(last))
            && (SomeFound(last) <==> Meets(task, r.p))
            && (if SomeFound(last) then ScoreOf(task, r.index) == Odds(r.p) && Meets(task, r.p)
                else IsBest(task, Val(tag), Val(tag) + RoundedCount(count, threads), r.p, r.index))
            && (task.threshold == 0 ==> !SomeFound(last))
  {
    hide ScoreOf, Meets, WellFormed, IsBest, CtxOk, Joined, RoundedCount, Val, TagsOf;
    var start, per := Val(tag), PerThread(count, threads);
    RangesCover(count, threads);
    assert RangeStart(start, per, threads) == start + RoundedCount(count, threads);
    LaunchInv(task, tag, per, threads, shared);
    RunKeepsInv(task, states, |states| - 1);
    var last := states[|states| - 1];
    if task.threshold == 0 {
      NoThresholdNoStop(task, last);
    }
    if SomeFound(last) {
      StopIsJustified(task, last);
    } else {
      FullScan(task, states[0], last, tag, per);
      NobodyStopped(task, last.ctxs, threads);
      JoinedIsBest(task, last.ctxs, start, per, threads);
    }
  }

  lemma CertaintyMeetsNothing(task: Task)
    ensures !Meets(task, 1.0)
  {
    assert (1.0 / 1.0).Floor == 1;
  }

  /** A join of threads that have not reached the threshold does not reach it. */
  lemma {:induction false} NobodyStopped(task: Task, ctxs: seq<Ctx>, n: nat)
    requires WellFormed(task) && n <= |ctxs|
    requires forall k :: 0 <= k < |ctxs| ==> CtxOk(task, ctxs[k]) && ctxs[k].pc == Halted
    ensures !Meets(task, Joined(ctxs, n).p)
  {
    hide ScoreOf, Meets, WellFormed, IsBest, TagOk;
    if n == 0 {
      CertaintyMeetsNothing(task);
    } else {
      NobodyStopped(task, ctxs, n - 1);
      assert CtxOk(task, ctxs[n - 1]);
    }
  }

  /** When nobody found anything, every thread has scanned its whole range. */
  lemma FullScan(task: Task, first: State, last: State, tag: seq<Trit>, per: nat)
    requires WellFormed(task) && Inv(task, last) && !SomeFound(last) && SameRanges(first, last)
    requires first.ctxs == Launch(tag, per, |first.ctxs|, first.shared).ctxs
    requires forall k :: 0 <= k < |last.ctxs| ==> Finished(last.ctxs[k])
    ensures LaidOut(last.ctxs, Val(tag), per)
    ensures forall k :: 0 <= k < |last.ctxs| ==>
              CtxOk(task, last.ctxs[k]) && Scanned(last.ctxs[k]) == per && last.ctxs[k].pc == Halted
  {
    hide ScoreOf, Meets, WellFormed, IsBest, CtxOk, RangeStart, Val;
    var start := Val(tag);
    forall k | 0 <= k < |last.ctxs|
      ensures last.ctxs[k].start == RangeStart(start, per, k) && last.ctxs[k].count == per
                && Scanned(last.ctxs[k]) == per
    {
      assert first.ctxs[k] == FreshCtx(RangeStart(start, per, k), per, tag);
      assert last.ctxs[k].pc != Found;
    }
  }

  // ----- mining a bundle

  /** The bundle with another obsolete tag in its head. */
  function WithTag(txs: seq<Transaction>, tag: seq<Trit>): seq<Transaction>
    requires |txs| > 0
  {
    txs[0 := txs[0].(obsoleteTag := tag)]
  }

  /** Mining the tag of a bundle's head with threads that scan `per` indexes each. */
  function BundleTask(f: Transform, txs: seq<Transaction>, per: nat, published: seq<int>, security: nat, threshold: nat)
    : Task
    requires |txs| > 0
  {
    var tag := txs[0].obsoleteTag;
    Task(t => BundleHash(f, WithTag(txs, t)), x => CandidateTag(tag, Val(tag), per, x), published, security, threshold)
  }

  lemma TagInBlock(tx: Transaction, tag: seq<Trit>)
    requires |tag| == |tx.obsoleteTag| == 81
    ensures var e, r := Essence(tx), Essence(tx.(obsoleteTag := tag));
            && r[0] == e[0] && |e[1].trits| == 243
            && r[1].trits == e[1].trits[..81] + tag + e[1].trits[162..]
  {
    hide IndexTrits, ToTrits, AsInt64;
  }

  /** In the essence the tag of the head is trits 81..162 of the second block; nothing else depends on it. */
  lemma {:induction false} TagInEssence(txs: seq<Transaction>, tag: seq<Trit>)
    requires |txs| > 0 && |tag| == |txs[0].obsoleteTag| == 81
    ensures var e, r := Essences(txs), Essences(WithTag(txs, tag));
            && |e| == |r| >= 2 && r[0] == e[0] && |e[1].trits| == 243
            && r[1].trits == e[1].trits[..81] + tag + e[1].trits[162..]
            && forall i :: 2 <= i < |e| ==> r[i] == e[i]
  {
    hide Essence;
    var n := |txs| - 1;
    TagInBlock(txs[0], tag);
    if n == 0 {
      assert txs[..0] == [] && WithTag(txs, tag)[..0] == [];
    } else {
      TagInEssence(txs[..n], tag);
      assert WithTag(txs, tag)[..n] == WithTag(txs[..n], tag);
    }
  }

  /** The tag that spells start + k is the one that k increments, as finalizing makes them, lead to. */
  lemma SpelledIsTagged(txs: seq<Transaction>, k: nat)
    requires |txs| > 0 && |txs[0].obsoleteTag| == TAG_TRITS && Fits(Val(txs[0].obsoleteTag) + k, TAG_TRITS)
    ensures WithTag(txs, ToTrits(Val(txs[0].obsoleteTag) + k, TAG_TRITS)) == Tagged(txs, k)
  {
    hide ToTrits, Val, Half, IncBy, Pow3;
    var t := txs[0].obsoleteTag;
    ToTritsValue(Val(t) + k, TAG_TRITS);
    var q := IncByQuotient(t, k);
    ValUniqueModulo(ToTrits(Val(t) + k, TAG_TRITS), IncBy(t, k), q);
  }

  /** So in a clean scan the score of index start + k is that of the bundle hash after k increments of the tag. */
  lemma MinedIsTagged(f: Transform, txs: seq<Transaction>, per: nat, threads: nat, task: Task, k: nat)
    requires |txs| > 0 && FullBlocks(f) && |txs[0].obsoleteTag| == TAG_TRITS && per > 0
    requires Scorable(task.published, task.security)
    requires task == BundleTask(f, txs, per, task.published, task.security, task.threshold)
    requires var start := Val(txs[0].obsoleteTag);
             && -0x8000_0000_0000_0000 <= start && RangeStart(start, per, threads) < 0x8000_0000_0000_0000
             && CleanRanges(start, per, threads) && k < per * threads
    ensures |BundleHash(f, Tagged(txs, k)).trits| == HASH_LENGTH && WellFormed(task)
    ensures ScoreOf(task, Val(txs[0].obsoleteTag) + k)
         == HashScore(task.published, task.security, BundleHash(f, Tagged(txs, k)))
  {
    hide ToTrits, Val, IncBy, BundleHash, HashScore, Scorable, CandidateTag, CleanRanges, Fits;
    var tag := txs[0].obsoleteTag;
    var start := Val(tag);
    ToTritsOfVal(tag);
    assert TagsOf(task.tags, tag, start, per);
    ScanSpelledIff(task.tags, start, per, threads);
    Int64Fits(start + k, TAG_TRITS);
    SpelledIsTagged(txs, k);
    BundleTaskHash(f, txs, task);
    HashIsFull(f, Tagged(txs, k));
  }

  lemma BundleTaskHash(f: Transform, txs: seq<Transaction>, task: Task)
    requires |txs| > 0 && FullBlocks(f) && forall t :: task.hash(t) == BundleHash(f, WithTag(txs, t))
    ensures forall tag :: |task.hash(tag).trits| == HASH_LENGTH
  {
    forall tag ensures |task.hash(tag).trits| == HASH_LENGTH {
      HashIsFull(f, WithTag(txs, tag));
    }
  }
}
