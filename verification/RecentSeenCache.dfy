/**
 The recent-seen-bytes cache (ciri/node/recent_seen_bytes_cache.c): a bounded
 FIFO map from digests to hashes with hit and miss counters.
 */
module RecentSeenCaches {
  import opened Sponges
  import opened Fifo

  datatype Entry = Entry(digest: nat, hash: Hash)

  predicate Contains(entries: seq<Entry>, digest: nat) { exists i :: 0 <= i < |entries| && entries[i].digest == digest }

  /** Position of a digest in the insertion-ordered map; its length when absent. */
  function Find(entries: seq<Entry>, digest: nat): (p: nat)
    ensures p <= |entries|
    ensures p < |entries| ==> entries[p].digest == digest
    ensures p == |entries| <==> !Contains(entries, digest)
    ensures forall i :: 0 <= i < p ==> entries[i].digest != digest
  {
    if |entries| == 0 then 0
    else if entries[0].digest == digest then assert Contains(entries, digest); 0
    else
      var p := Find(entries[1..], digest);
      assert p < |entries| - 1 ==> entries[1..][p].digest == digest;
      assert forall i :: 1 <= i < |entries| ==> entries[1..][i - 1] == entries[i];
      1 + p
  }

  /** recent_seen_bytes_cache_put on the map: a known digest is left alone; else the oldest entry makes room. */
  function PutEntry(entries: seq<Entry>, capacity: nat, digest: nat, hash: Hash): seq<Entry>
  {
    if Contains(entries, digest) then entries
    else (if |entries| >= capacity && |entries| > 0 then entries[1..] else entries) + [Entry(digest, hash)]
  }

  /** The last n elements, or all of them. */
  function Last(log: seq<Entry>, n: nat): seq<Entry> { if |log| <= n then log else log[|log| - n..] }

  /** The window is a suffix of the log, as long as the log and n allow. */
  lemma LastIsSuffix(log: seq<Entry>, n: nat)
    ensures var r := Last(log, n);
            |r| <= n && |r| <= |log| && (|r| == n || |r| == |log|) && r == log[|log| - |r|..]
  {
  }

  /** A known digest changes nothing. A new one is appended, and only a full map loses an entry, its oldest. */
  lemma PutExact(entries: seq<Entry>, capacity: nat, digest: nat, hash: Hash)
    ensures var r := PutEntry(entries, capacity, digest, hash);
            && (Contains(entries, digest) ==> r == entries)
            && (!Contains(entries, digest) && |entries| < capacity ==> r == entries + [Entry(digest, hash)])
            && (!Contains(entries, digest) && |entries| >= capacity && |entries| > 0 ==>
                  r == entries[1..] + [Entry(digest, hash)])
            && (|entries| == 0 ==> r == [Entry(digest, hash)])
  {
  }

  class RecentSeenCache {
    const capacity: nat
    var entries: seq<Entry>
    var hit: nat
    var miss: nat
    ghost var inserted: seq<Entry>
    ghost var gets: nat

    /** The map holds exactly the last insertions, in order; every get is counted once. */
    ghost predicate Valid()
      reads this
    {
      entries == Last(inserted, Limit(capacity)) && hit + miss == gets
    }

    constructor (capacity: nat)
      ensures Valid() && this.capacity == capacity && inserted == [] && gets == 0 && hit == 0 && miss == 0
    {
      this.capacity := capacity;
      entries, hit, miss := [], 0, 0;
      inserted, gets := [], 0;
    }

    /** recent_seen_bytes_cache_get. */
    method Get(digest: nat) returns (found: bool, hash: Hash)
      requires Valid()
      modifies this
      ensures Valid() && entries == old(entries) && inserted == old(inserted) && gets == old(gets) + 1
      ensures found <==> Contains(entries, digest)
      ensures found ==> Entry(digest, hash) in entries && hit == old(hit) + 1 && miss == old(miss)
      ensures !found ==> hit == old(hit) && miss == old(miss) + 1
    {
      var p := Find(entries, digest);
      hash := NullHash();
      found := p < |entries|;
      if found {
        hash := entries[p].hash;
        hit := hit + 1;
      } else {
        miss := miss + 1;
      }
      gets := gets + 1;
    }

    /** recent_seen_bytes_cache_put. */
    method Put(digest: nat, hash: Hash)
      requires Valid()
      modifies this
      ensures Valid() && entries == PutEntry(old(entries), capacity, digest, hash)
      ensures inserted == if Contains(old(entries), digest) then old(inserted)
                else old(inserted) + [Entry(digest, hash)]
      ensures hit == old(hit) && miss == old(miss) && gets == old(gets)
    {
      LastStep(inserted, capacity, digest, hash);
      var p := Find(entries, digest);
      if p == |entries| {
        inserted := inserted + [Entry(digest, hash)];
        if |entries| >= capacity && |entries| > 0 {
          entries := entries[1..];
        }
        entries := entries + [Entry(digest, hash)];
      }
    }
  }

  /** One effective insertion shifts the window of last insertions by one. */
  lemma LastStep(log: seq<Entry>, capacity: nat, digest: nat, hash: Hash)
    ensures !Contains(Last(log, Limit(capacity)), digest) ==>
              PutEntry(Last(log, Limit(capacity)), capacity, digest, hash)
                == Last(log + [Entry(digest, hash)], Limit(capacity))
  {
    hide Contains;
    var e := Entry(digest, hash);
    var n := Limit(capacity);
    if |log| >= n {
      assert Last(log, n) == log[|log| - n..];
      assert Last(log + [e], n) == log[|log| - n + 1..] + [e];
    }
  }

  // ----- whole runs of puts

  /** The entries after a run of puts. */
  function Run(entries: seq<Entry>, capacity: nat, puts: seq<Entry>): seq<Entry>
    decreases |puts|
  {
    if |puts| == 0 then entries
    else Run(PutEntry(entries, capacity, puts[0].digest, puts[0].hash), capacity, puts[1..])
  }

  /** The puts of a run that actually insert something, in order. */
  function Effective(entries: seq<Entry>, capacity: nat, puts: seq<Entry>): seq<Entry>
    decreases |puts|
  {
    if |puts| == 0 then []
    else
      var next := PutEntry(entries, capacity, puts[0].digest, puts[0].hash);
      var rest := Effective(next, capacity, puts[1..]);
      if Contains(entries, puts[0].digest) then rest else [puts[0]] + rest
  }

  /** After any run the cache holds exactly the last insertions that took effect, in order. */
  lemma {:induction false} RunHoldsLast(log: seq<Entry>, capacity: nat, puts: seq<Entry>)
    ensures var start := Last(log, Limit(capacity));
            Run(start, capacity, puts) == Last(log + Effective(start, capacity, puts), Limit(capacity))
    decreases |puts|
  {
    hide PutEntry, Contains, Last;
    var start := Last(log, Limit(capacity));
    if |puts| == 0 {
      assert log + [] == log;
    } else {
      var e := puts[0];
      if Contains(start, e.digest) {
        KnownIsIgnored(start, capacity, e);
        RunHoldsLast(log, capacity, puts[1..]);
      } else {
        LastStep(log, capacity, e.digest, e.hash);
        RunHoldsLast(log + [e], capacity, puts[1..]);
        var next := PutEntry(start, capacity, e.digest, e.hash);
        assert log + ([e] + Effective(next, capacity, puts[1..])) == (log + [e]) + Effective(next, capacity, puts[1..]);
      }
    }
  }

  lemma KnownIsIgnored(entries: seq<Entry>, capacity: nat, e: Entry)
    requires Contains(entries, e.digest)
    ensures PutEntry(entries, capacity, e.digest, e.hash) == entries
  {
  }

  ghost predicate AllFrom(f: nat -> Hash, entries: seq<Entry>)
  {
    forall i :: 0 <= i < |entries| ==> entries[i].hash == f(entries[i].digest)
  }

  /** If every put stores f of its digest, so does every entry ever held: every hit returns f(digest). */
  lemma {:induction false} HitsAreFaithful(f: nat -> Hash, entries: seq<Entry>, capacity: nat, puts: seq<Entry>)
    requires AllFrom(f, entries) && AllFrom(f, puts)
    ensures AllFrom(f, Run(entries, capacity, puts))
    decreases |puts|
  {
    hide Contains;
    if |puts| != 0 {
      HitsAreFaithful(f, PutEntry(entries, capacity, puts[0].digest, puts[0].hash), capacity, puts[1..]);
    }
  }

  /** Digests in the cache are distinct, whatever is put. */
  ghost predicate Distinct(entries: seq<Entry>)
  {
    forall i, j :: 0 <= i < j < |entries| ==> entries[i].digest != entries[j].digest
  }

  lemma {:induction false} RunKeepsDistinct(entries: seq<Entry>, capacity: nat, puts: seq<Entry>)
    requires Distinct(entries)
    ensures Distinct(Run(entries, capacity, puts))
    decreases |puts|
  {
    if |puts| != 0 {
      PutKeepsDistinct(entries, capacity, puts[0]);
      RunKeepsDistinct(PutEntry(entries, capacity, puts[0].digest, puts[0].hash), capacity, puts[1..]);
    }
  }

  lemma PutKeepsDistinct(entries: seq<Entry>, capacity: nat, e: Entry)
    requires Distinct(entries)
    ensures Distinct(PutEntry(entries, capacity, e.digest, e.hash))
  {
  }
}
