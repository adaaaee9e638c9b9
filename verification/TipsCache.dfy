/**
 The tips cache (ciri/node/tips_cache.c): two bounded FIFO sets, each behind its
 own lock. Hash sets are insertion-ordered sequences without duplicates.
 */
module TipsCaches {
  import opened Sponges
  import opened Fifo

  // ----- hash243_set operations

  predicate NoDuplicates(s: seq<Hash>) { forall i, j :: 0 <= i < j < |s| ==> s[i] != s[j] }

  function SetAdd(s: seq<Hash>, x: Hash): seq<Hash> { if x in s then s else s + [x] }

  function SetRemove(s: seq<Hash>, x: Hash): (r: seq<Hash>)
    ensures forall y :: y in r ==> y in s
  {
    if |s| == 0 then [] else if s[0] == x then s[1..] else [s[0]] + SetRemove(s[1..], x)
  }

  /** hash243_set_remove_entry on the head; a no-op on the empty set. */
  function RemoveOldest(s: seq<Hash>): seq<Hash> { if |s| == 0 then s else s[1..] }

  /** tips_cache_fifo_add. */
  function FifoAdd(s: seq<Hash>, capacity: nat, tip: Hash): seq<Hash>
  {
    SetAdd(if |s| >= capacity then RemoveOldest(s) else s, tip)
  }

  /** With room left a new tip is appended and a cached one changes nothing. A full set first loses its oldest tip, then
      appends the tip unless it is still there. */
  lemma FifoAddExact(s: seq<Hash>, capacity: nat, tip: Hash)
    ensures var r := FifoAdd(s, capacity, tip);
            && (|s| < capacity ==> r == if tip in s then s else s + [tip])
            && (|s| >= capacity && |s| > 0 ==> r == if tip in s[1..] then s[1..] else s[1..] + [tip])
            && (|s| == 0 ==> r == [tip])
  {
  }

  /** A tip is in the set after being added; the size stays within the capacity (one when it is zero);
      nothing else enters, and only the oldest tip can leave. */
  lemma FifoAddMeaning(s: seq<Hash>, capacity: nat, tip: Hash)
    requires NoDuplicates(s) && |s| <= Limit(capacity)
    ensures var r := FifoAdd(s, capacity, tip);
            && NoDuplicates(r) && |r| <= Limit(capacity) && tip in r
            && (forall x :: x in r ==> x in s || x == tip)
            && (forall i :: 0 <= i < |s| && s[i] !in r ==> i == 0)
  {
    hide FifoAdd;
    FifoAddExact(s, capacity, tip);
    var kept := if |s| >= capacity && |s| > 0 then s[1..] else s;
    var r := FifoAdd(s, capacity, tip);
    assert forall i :: 0 <= i < |kept| ==> kept[i] in r;
    forall i | 1 <= i < |s| ensures s[i] in r {
      if kept != s {
        assert s[i] == kept[i - 1];
      }
    }
  }

  /** The first occurrence is cut out; a set without it is left alone. */
  lemma {:induction false} SetRemoveExact(s: seq<Hash>, x: Hash, i: nat)
    requires i <= |s| && (forall j :: 0 <= j < i ==> s[j] != x) && (i < |s| ==> s[i] == x)
    ensures SetRemove(s, x) == if i < |s| then s[..i] + s[i + 1..] else s
  {
    if |s| != 0 && s[0] != x {
      SetRemoveExact(s[1..], x, i - 1);
      assert s == [s[0]] + s[1..];
      if i < |s| {
        assert s[..i] == [s[0]] + s[1..][..i - 1] && s[i + 1..] == s[1..][i..];
      }
    }
  }

  lemma {:induction false} SetRemoveMeaning(s: seq<Hash>, x: Hash)
    requires NoDuplicates(s)
    ensures NoDuplicates(SetRemove(s, x)) && |SetRemove(s, x)| <= |s|
    ensures forall y :: y in SetRemove(s, x) <==> y in s && y != x
  {
    if |s| != 0 {
      var tail := s[1..];
      assert s == [s[0]] + tail && s[0] !in tail;
      SetRemoveMeaning(tail, x);
    }
  }

  // ----- the cache as an object

  class TipsCache {
    const capacity: nat
    var tips: seq<Hash>
    var solidTips: seq<Hash>

    ghost predicate Valid()
      reads this
    {
      && NoDuplicates(tips) && |tips| <= Limit(capacity)
      && NoDuplicates(solidTips) && |solidTips| <= Limit(capacity)
    }

    constructor (capacity: nat)
      ensures Valid() && this.capacity == capacity && tips == [] && solidTips == []
    {
      this.capacity := capacity;
      tips, solidTips := [], [];
    }

    /** tips_cache_add. */
    method Add(tip: Hash)
      requires Valid()
      modifies this
      ensures Valid() && tip in tips && solidTips == old(solidTips)
      ensures tips == FifoAdd(old(tips), capacity, tip)
    {
      FifoAddMeaning(tips, capacity, tip);
      tips := FifoAdd(tips, capacity, tip);
    }

    /** tips_cache_remove. */
    method Remove(tip: Hash)
      requires Valid()
      modifies this
      ensures Valid() && tip !in tips && tip !in solidTips
      ensures tips == SetRemove(old(tips), tip) && solidTips == SetRemove(old(solidTips), tip)
      ensures forall y :: y != tip ==> (y in tips <==> y in old(tips)) && (y in solidTips <==> y in old(solidTips))
    {
      SetRemoveMeaning(tips, tip);
      SetRemoveMeaning(solidTips, tip);
      tips := SetRemove(tips, tip);
      solidTips := SetRemove(solidTips, tip);
    }

    /** tips_cache_set_solid: moves a cached tip, ignores any other. */
    method SetSolid(tip: Hash)
      requires Valid()
      modifies this
      ensures Valid() && tip !in tips
      ensures tip in old(tips) ==> tip in solidTips && solidTips == FifoAdd(old(solidTips), capacity, tip)
      ensures tip in old(tips) ==> tips == SetRemove(old(tips), tip)
      ensures tip !in old(tips) ==> tips == old(tips) && solidTips == old(solidTips)
      ensures forall y :: y != tip ==> (y in tips <==> y in old(tips))
    {
      var solidify := tip in tips;
      if solidify {
        SetRemoveMeaning(tips, tip);
        tips := SetRemove(tips, tip);
      }
      if solidify {
        FifoAddMeaning(solidTips, capacity, tip);
        solidTips := FifoAdd(solidTips, capacity, tip);
      }
    }
  }

  // ----- concurrent runs, one step per lock section

  /** remove and set_solid each lock twice; what a call still has to do is pending. added, taken and born
      record the history: tips ever added, tips taken out by set_solid, time of the last insertion. */
  datatype State = State(
    tips: seq<Hash>,
    solid: seq<Hash>,
    pendingRemove: multiset<Hash>,
    pendingSolid: multiset<Hash>,
    added: set<Hash>,
    taken: set<Hash>,
    born: map<Hash, nat>,
    clock: nat)

  datatype Action =
    | AddTip(tip: Hash)        // the section of tips_cache_add
    | RemoveTip(tip: Hash)     // first section of tips_cache_remove
    | RemoveSolid(tip: Hash)   // its second section
    | TakeTip(tip: Hash)       // first section of tips_cache_set_solid
    | PushSolid(tip: Hash)     // its second section, if the tip was taken

  predicate Enabled(s: State, a: Action)
  {
    match a
    case RemoveSolid(x) => x in s.pendingRemove
    case PushSolid(x) => x in s.pendingSolid
    case _ => true
  }

  function Next(capacity: nat, s: State, a: Action): State
  {
    match a
    case AddTip(x) =>
      var kept := if |s.tips| >= capacity then RemoveOldest(s.tips) else s.tips;
      s.(tips := FifoAdd(s.tips, capacity, x), added := s.added + {x},
         born := if x in kept then s.born else s.born[x := s.clock], clock := s.clock + 1)
    case RemoveTip(x) => s.(tips := SetRemove(s.tips, x), pendingRemove := s.pendingRemove + multiset{x})
    case RemoveSolid(x) => s.(solid := SetRemove(s.solid, x), pendingRemove := s.pendingRemove - multiset{x})
    case TakeTip(x) =>
      if x in s.tips then
        s.(tips := SetRemove(s.tips, x), pendingSolid := s.pendingSolid + multiset{x}, taken := s.taken + {x})
      else s
    case PushSolid(x) =>
      s.(solid := FifoAdd(s.solid, capacity, x), pendingSolid := s.pendingSolid - multiset{x})
  }

  function Initial(): State { State([], [], multiset{}, multiset{}, {}, {}, map[], 0) }

  ghost predicate Bounded(capacity: nat, s: State)
  {
    && NoDuplicates(s.tips) && |s.tips| <= Limit(capacity)
    && NoDuplicates(s.solid) && |s.solid| <= Limit(capacity)
  }

  ghost predicate Accounted(s: State)
  {
    && (forall x :: x in s.tips ==> x in s.added)
    && (forall x :: x in s.solid ==> x in s.taken)
    && (forall x :: x in s.pendingSolid ==> x in s.taken)
    && s.taken <= s.added
  }

  /**
   Sections that are not interrupted do what the calls do: an addition touches the non-solid set alone, a remove takes
   the tip out of both sets, a set_solid moves a cached tip and ignores any other; nothing stays pending.
   */
  lemma UninterruptedCalls(capacity: nat, s: State, tip: Hash)
    requires Bounded(capacity, s)
    ensures var a := Next(capacity, s, AddTip(tip));
            && a.tips == FifoAdd(s.tips, capacity, tip) && a.solid == s.solid
            && a.pendingRemove == s.pendingRemove && a.pendingSolid == s.pendingSolid
    ensures var u := Next(capacity, s, RemoveTip(tip));
            var r := Next(capacity, u, RemoveSolid(tip));
            && Enabled(u, RemoveSolid(tip)) && tip !in r.tips && tip !in r.solid
            && (forall y :: y != tip ==> (y in r.tips <==> y in s.tips) && (y in r.solid <==> y in s.solid))
            && r.pendingRemove == s.pendingRemove && r.pendingSolid == s.pendingSolid
    ensures var u := Next(capacity, s, TakeTip(tip));
            var r := Next(capacity, u, PushSolid(tip));
            if tip !in s.tips then u == s
            else && Enabled(u, PushSolid(tip)) && tip !in r.tips && r.solid == FifoAdd(s.solid, capacity, tip)
                 && (forall y :: y != tip ==> (y in r.tips <==> y in s.tips))
                 && r.pendingRemove == s.pendingRemove && r.pendingSolid == s.pendingSolid
  {
    hide FifoAdd, SetRemove, NoDuplicates;
    SetRemoveMeaning(s.tips, tip);
    SetRemoveMeaning(s.solid, tip);
    assert s.pendingRemove + multiset{tip} - multiset{tip} == s.pendingRemove;
    assert s.pendingSolid + multiset{tip} - multiset{tip} == s.pendingSolid;
  }

  /** The set is ordered by insertion time, so its head is the oldest tip. */
  ghost predicate Ordered(s: seq<Hash>, born: map<Hash, nat>, clock: nat)
  {
    (forall i :: 0 <= i < |s| ==> s[i] in born && born[s[i]] < clock) &&
    forall i, j :: 0 <= i < j < |s| ==> s[i] in born && s[j] in born && born[s[i]] < born[s[j]]
  }

  ghost predicate Inv(capacity: nat, s: State)
  {
    Bounded(capacity, s) && Accounted(s) && Ordered(s.tips, s.born, s.clock)
  }

  lemma StepBounded(capacity: nat, s: State, a: Action)
    requires Bounded(capacity, s)
    ensures Bounded(capacity, Next(capacity, s, a))
  {
    hide FifoAdd, SetRemove, NoDuplicates;
    FifoAddMeaning(s.tips, capacity, a.tip);
    FifoAddMeaning(s.solid, capacity, a.tip);
    SetRemoveMeaning(s.tips, a.tip);
    SetRemoveMeaning(s.solid, a.tip);
  }

  lemma StepAccounted(capacity: nat, s: State, a: Action)
    requires Bounded(capacity, s) && Accounted(s) && Enabled(s, a)
    ensures Accounted(Next(capacity, s, a))
  {
    hide FifoAdd, SetRemove, NoDuplicates;
    FifoAddMeaning(s.tips, capacity, a.tip);
    FifoAddMeaning(s.solid, capacity, a.tip);
    SetRemoveMeaning(s.tips, a.tip);
    SetRemoveMeaning(s.solid, a.tip);
  }

  /** Removing an element keeps the insertion order of the others. */
  lemma {:induction false} RemoveKeepsOrder(s: seq<Hash>, x: Hash, born: map<Hash, nat>, clock: nat)
    requires Ordered(s, born, clock)
    ensures Ordered(SetRemove(s, x), born, clock)
  {
    if |s| != 0 {
      var tail := s[1..];
      assert Ordered(tail, born, clock);
      if s[0] != x {
        RemoveKeepsOrder(tail, x, born, clock);
        var r := SetRemove(tail, x);
        forall i | 0 <= i < |r| ensures r[i] in born && born[s[0]] < born[r[i]] {
          assert r[i] in tail;
        }
      }
    }
  }

  lemma AddKeepsOrder(s: seq<Hash>, x: Hash, born: map<Hash, nat>, clock: nat)
    requires Ordered(s, born, clock)
    ensures Ordered(SetAdd(s, x), if x in s then born else born[x := clock], clock + 1)
  {
  }

  lemma OldestKeepsOrder(s: seq<Hash>, born: map<Hash, nat>, clock: nat)
    requires Ordered(s, born, clock)
    ensures Ordered(RemoveOldest(s), born, clock)
  {
  }

  lemma StepOrdered(capacity: nat, s: State, a: Action)
    requires Ordered(s.tips, s.born, s.clock)
    ensures var t := Next(capacity, s, a); Ordered(t.tips, t.born, t.clock)
  {
    hide SetRemove, SetAdd, RemoveOldest, Ordered;
    RemoveKeepsOrder(s.tips, a.tip, s.born, s.clock);
    AddKeepsOrder(s.tips, a.tip, s.born, s.clock);
    OldestKeepsOrder(s.tips, s.born, s.clock);
    AddKeepsOrder(RemoveOldest(s.tips), a.tip, s.born, s.clock);
  }

  /** The state after a run of sections, from any number of threads; disabled sections cannot occur. */
  ghost predicate Reaches(capacity: nat, s: State, run: seq<Action>, t: State)
    decreases |run|
  {
    if |run| == 0 then s == t
    else Enabled(s, run[0]) && Reaches(capacity, Next(capacity, s, run[0]), run[1..], t)
  }

  /**
   Every run of interleaved sections: each set stays within its limit, every
   non-solid tip was once added, every solid tip was first taken out of the
   non-solid set by set_solid (hence once added), and the non-solid set is ordered
   by insertion time.
   */
  lemma {:induction false} RunKeepsInv(capacity: nat, s: State, run: seq<Action>, t: State)
    requires Inv(capacity, s) && Reaches(capacity, s, run, t)
    ensures Inv(capacity, t)
    decreases |run|
  {
    hide Bounded, Accounted, Ordered, Next, Enabled;
    if |run| != 0 {
      StepBounded(capacity, s, run[0]);
      StepAccounted(capacity, s, run[0]);
      StepOrdered(capacity, s, run[0]);
      RunKeepsInv(capacity, Next(capacity, s, run[0]), run[1..], t);
    }
  }

  /** Hence every state a fresh cache reaches satisfies the invariant. */
  lemma EveryRun(capacity: nat, run: seq<Action>, t: State)
    requires Reaches(capacity, Initial(), run, t)
    ensures Inv(capacity, t)
  {
    RunKeepsInv(capacity, Initial(), run, t);
  }

  /** With capacity zero one tip is still kept, so the limit of one is exact. */
  lemma ZeroCapacityKeepsOne(tip: Hash)
    ensures Limit(0) == 1 && FifoAdd([], 0, tip) == [tip] && FifoAdd([tip], 0, tip) == [tip]
  {
  }

  /**
   Adding a tip that is already cached keeps every cached tip exactly when there is room left or the tip is the oldest
   one: a full set evicts its oldest tip before it notices that there is nothing to add.
   */
  lemma ReAddKeepsIff(s: seq<Hash>, capacity: nat, tip: Hash)
    requires NoDuplicates(s) && |s| <= Limit(capacity) && tip in s
    ensures (forall x :: x in s ==> x in FifoAdd(s, capacity, tip)) <==> |s| < capacity || tip == s[0]
    ensures |s| >= capacity && tip != s[0] ==> FifoAdd(s, capacity, tip) == s[1..]
  {
    FifoAddMeaning(s, capacity, tip);
    var r := FifoAdd(s, capacity, tip);
    if |s| < capacity {
      assert r == s;
    } else if tip == s[0] {
      assert s[0] in r;
    } else {
      assert tip in s[1..];
      assert s[0] !in s[1..];
      assert s[0] in s;
    }
  }

  // ----- removal under interleaving

  /** The tip is in neither set and no set_solid call is about to insert it. */
  ghost predicate Gone(s: State, tip: Hash)
  {
    tip !in s.tips && tip !in s.solid && tip !in s.pendingSolid
  }

  ghost predicate NoAdd(run: seq<Action>, tip: Hash) { forall i :: 0 <= i < |run| ==> run[i] != AddTip(tip) }

  lemma StepKeepsGone(capacity: nat, s: State, a: Action, tip: Hash)
    requires Bounded(capacity, s) && Gone(s, tip) && a != AddTip(tip) && Enabled(s, a)
    ensures Gone(Next(capacity, s, a), tip)
  {
    hide FifoAdd, SetRemove, NoDuplicates;
    FifoAddMeaning(s.tips, capacity, a.tip);
    FifoAddMeaning(s.solid, capacity, a.tip);
    SetRemoveMeaning(s.tips, a.tip);
    SetRemoveMeaning(s.solid, a.tip);
  }

  lemma {:induction false} RunKeepsGone(capacity: nat, s: State, run: seq<Action>, t: State, tip: Hash)
    requires Bounded(capacity, s) && Gone(s, tip) && NoAdd(run, tip) && Reaches(capacity, s, run, t)
    ensures Gone(t, tip)
    decreases |run|
  {
    hide Bounded, Gone, Next, Enabled;
    if |run| != 0 {
      StepKeepsGone(capacity, s, run[0], tip);
      StepBounded(capacity, s, run[0]);
      RunKeepsGone(capacity, Next(capacity, s, run[0]), run[1..], t, tip);
    }
  }

  /** However the calls go on, the tip is in neither set as long as it is not added. */
  ghost predicate NeverBack(capacity: nat, s: State, tip: Hash)
  {
    forall run: seq<Action>, t: State :: NoAdd(run, tip) && Reaches(capacity, s, run, t) ==>
      tip !in t.tips && tip !in t.solid
  }

  /** Without being added again, a tip can show up in the cache exactly if it is not gone. */
  lemma ComesBackIff(capacity: nat, s: State, tip: Hash)
    requires Bounded(capacity, s)
    ensures Gone(s, tip) <==> NeverBack(capacity, s, tip)
  {
    if Gone(s, tip) {
      forall run: seq<Action>, t: State | NoAdd(run, tip) && Reaches(capacity, s, run, t)
        ensures tip !in t.tips && tip !in t.solid
      {
        RunKeepsGone(capacity, s, run, t, tip);
      }
    } else if tip in s.pendingSolid {
      var t := Next(capacity, s, PushSolid(tip));
      assert Reaches(capacity, t, [], t);
      assert [PushSolid(tip)][1..] == [];
      assert NoAdd([PushSolid(tip)], tip) && Reaches(capacity, s, [PushSolid(tip)], t);
      FifoAddMeaning(s.solid, capacity, tip);
    } else {
      assert NoAdd([], tip) && Reaches(capacity, s, [], s);
    }
  }

  /** A remove that has finished its first section keeps the tip out of the non-solid set until it is added again. */
  lemma {:induction false} StaysOut(capacity: nat, s: State, run: seq<Action>, t: State, tip: Hash)
    requires Bounded(capacity, s) && tip !in s.tips && NoAdd(run, tip) && Reaches(capacity, s, run, t)
    ensures tip !in t.tips && Bounded(capacity, t)
    decreases |run|
  {
    hide Bounded, Next, Enabled;
    if |run| != 0 {
      StepStaysOut(capacity, s, run[0], tip);
      StepBounded(capacity, s, run[0]);
      StaysOut(capacity, Next(capacity, s, run[0]), run[1..], t, tip);
    }
  }

  lemma StepStaysOut(capacity: nat, s: State, a: Action, tip: Hash)
    requires Bounded(capacity, s) && tip !in s.tips && a != AddTip(tip)
    ensures tip !in Next(capacity, s, a).tips
  {
    hide FifoAdd, SetRemove, NoDuplicates;
    FifoAddMeaning(s.tips, capacity, a.tip);
    SetRemoveMeaning(s.tips, a.tip);
  }

  /**
   When tips_cache_remove is effective. Its two sections run at s and at u, with any sections of other calls in
   between that do not add the tip. After the second one the tip is out of the cache for good, until it is added
   again, exactly when no set_solid call holds the tip at that moment.
   */
  lemma RemoveEffectiveIff(capacity: nat, s: State, mid: seq<Action>, u: State, tip: Hash)
    requires Bounded(capacity, s) && NoAdd(mid, tip)
    requires Reaches(capacity, Next(capacity, s, RemoveTip(tip)), mid, u) && Enabled(u, RemoveSolid(tip))
    ensures NeverBack(capacity, Next(capacity, u, RemoveSolid(tip)), tip) <==> tip !in u.pendingSolid
  {
    hide SetRemove, NoDuplicates, FifoAdd, Reaches, NoAdd;
    StepBounded(capacity, s, RemoveTip(tip));
    SetRemoveMeaning(s.tips, tip);
    StaysOut(capacity, Next(capacity, s, RemoveTip(tip)), mid, u, tip);
    SetRemoveMeaning(u.solid, tip);
    StepBounded(capacity, u, RemoveSolid(tip));
    ComesBackIff(capacity, Next(capacity, u, RemoveSolid(tip)), tip);
  }

  /** A remove that overlaps a set_solid of the same tip can leave the tip in the cache. */
  lemma RemoveCanBeOvertaken(tip: Hash)
    ensures var run := [AddTip(tip), TakeTip(tip), RemoveTip(tip), RemoveSolid(tip), PushSolid(tip)];
            exists t: State :: Reaches(1, Initial(), run, t) && tip in t.solid && t.pendingRemove == multiset{}
  {
    var s1 := Next(1, Initial(), AddTip(tip));
    var s2 := Next(1, s1, TakeTip(tip));
    var s3 := Next(1, s2, RemoveTip(tip));
    var s4 := Next(1, s3, RemoveSolid(tip));
    var s5 := Next(1, s4, PushSolid(tip));
    assert s1.tips == [tip] && s2.tips == [] && s2.pendingSolid == multiset{tip};
    assert s3.tips == [] && s3.pendingRemove == multiset{tip} && s4.pendingRemove == multiset{};
    assert s5.solid == [tip];
    var r4, r3 := [PushSolid(tip)], [RemoveSolid(tip), PushSolid(tip)];
    var r2, r1 := [RemoveTip(tip)] + r3, [TakeTip(tip), RemoveTip(tip)] + r3;
    assert r4[1..] == [] && r3[1..] == r4 && r2[1..] == r3 && r1[1..] == r2;
    assert Reaches(1, s4, r4, s5) by { assert Reaches(1, s5, [], s5); }
    assert Reaches(1, s3, r3, s5);
    assert Reaches(1, s2, r2, s5);
    assert Reaches(1, s1, r1, s5);
    var run := [AddTip(tip), TakeTip(tip), RemoveTip(tip), RemoveSolid(tip), PushSolid(tip)];
    assert run[1..] == r1;
    assert Reaches(1, Initial(), run, s5);
  }
}
