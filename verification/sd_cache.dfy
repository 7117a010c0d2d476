/** The replacement rule of the bucket cache, against the least recently used one it is named after. */
module SdCache {
  import opened Bits
  import opened SdBucket
  import opened SdHash
  import opened SdTable

  // When a bucket was last read in a run of reads, or -1.
  function LastRead(bs: seq<nat>, b: nat): (k: int)
    ensures -1 <= k < |bs| && (k >= 0 ==> bs[k] == b)
    ensures forall j :: k < j < |bs| ==> bs[j] != b
  {
    if bs == [] then -1 else if bs[|bs| - 1] == b then |bs| - 1 else LastRead(bs[..|bs| - 1], b)
  }

  // No cached bucket was read longer ago than the one in slot v.
  ghost predicate LeastRecent(cache: seq<CacheSlot>, bs: seq<nat>, v: nat)
    requires v < |cache|
  {
    forall i :: 0 <= i < |cache| && cache[i].valid ==> LastRead(bs, cache[v].bucket) <= LastRead(bs, cache[i].bucket)
  }

  // Slots hold different buckets, and each was read.
  ghost predicate Traced(cache: seq<CacheSlot>, bs: seq<nat>) {
    && (forall i :: 0 <= i < |cache| && cache[i].valid ==> LastRead(bs, cache[i].bucket) >= 0)
    && (forall i, j :: 0 <= i < j < |cache| && cache[i].valid && cache[j].valid ==> cache[i].bucket != cache[j].bucket)
  }

  lemma {:induction false} ReadsTraced(empty: seq<CacheSlot>, bs: seq<nat>, sd: Blocks)
    requires |empty| == CACHE && forall i :: 0 <= i < CACHE ==> !empty[i].valid
    requires forall k :: 0 <= k < |bs| ==> bs[k] < |sd|
    ensures Traced(AfterReads(empty, bs, sd), bs)
    decreases |bs|
  {
    hide Good, Position, FirstFree;
    if bs != [] {
      var init, b := bs[..|bs| - 1], bs[|bs| - 1];
      ReadsTraced(empty, init, sd);
      var c := AfterReads(empty, init, sd);
      var c' := NextCache(c, b, sd);
      assert AfterReads(empty, bs, sd) == c';
      forall i | 0 <= i < CACHE && c'[i].valid
        ensures LastRead(bs, c'[i].bucket) >= 0
      {
        assert c'[i].bucket != b ==> c'[i] == c[i];
      }
    }
  }

  // On a miss with a full cache, slot 0 is reused. That is the least recently read bucket if and only if
  // the other fifteen were all read after its last read.
  lemma VictimLeastRecent(empty: seq<CacheSlot>, bs: seq<nat>, b: nat, sd: Blocks)
    requires |empty| == CACHE && forall i :: 0 <= i < CACHE ==> !empty[i].valid
    requires b < |sd| && Good(sd[b]) && forall k :: 0 <= k < |bs| ==> bs[k] < |sd|
    requires var c := AfterReads(empty, bs, sd);
      Full(c) && forall i :: 0 <= i < CACHE ==> c[i].bucket != b
    ensures var c := AfterReads(empty, bs, sd);
      && NextCache(c, b, sd) == c[0 := CacheSlot(b, sd[b], 0, true)]
      && (LeastRecent(c, bs, 0) <==> forall i :: 1 <= i < CACHE ==> c[i].bucket in bs[LastRead(bs, c[0].bucket) + 1..])
  {
    hide Good;
    var c := AfterReads(empty, bs, sd);
    ReadsTraced(empty, bs, sd);
    ReadMiss(c, b, sd, CACHE);
    var last := LastRead(bs, c[0].bucket);
    forall i | 1 <= i < CACHE
      ensures c[i].bucket in bs[last + 1..] <==> last <= LastRead(bs, c[i].bucket)
    {
      var k := LastRead(bs, c[i].bucket);
      assert last != k;
      if k > last {
        assert bs[last + 1..][k - last - 1] == c[i].bucket;
      }
    }
  }

  // Once the cache is full, the buckets in the other fifteen slots stay there through every run of reads.
  lemma {:induction false} FifteenStay(full: seq<CacheSlot>, bs: seq<nat>, sd: Blocks)
    requires |full| == CACHE && Full(full) && forall k :: 0 <= k < |bs| ==> bs[k] < |sd|
    ensures Full(AfterReads(full, bs, sd))
    ensures forall i :: 1 <= i < CACHE ==> AfterReads(full, bs, sd)[i] == full[i]
    decreases |bs|
  {
    hide Good, Position, FirstFree;
    if bs != [] {
      FifteenStay(full, bs[..|bs| - 1], sd);
      FreeIs(AfterReads(full, bs[..|bs| - 1], sd), CACHE);
    }
  }
}
