/** Which buckets the cap of the in-memory limiter evicts: only those that as many other keys as the cap
    have followed, and some of those. */
module BucketCap {
  import opened RateLimiter
  import opened RateLimiterRefinement
  import opened Sequences
  import opened Wrappers

  /** The other keys requested at the time `since` or later. */
  ghost function Crowd(hits: seq<Hit>, key: string, since: int): set<string> {
    if hits == [] then {}
    else
      var last := hits[|hits| - 1];
      Crowd(hits[..|hits| - 1], key, since) + if last.key != key && last.now >= since then {last.key} else {}
  }

  lemma {:induction false} InCrowd(hits: seq<Hit>, hit: Hit, key: string, since: int)
    requires hit in hits && hit.key != key && hit.now >= since
    ensures hit.key in Crowd(hits, key, since)
  {
    if hits[|hits| - 1] != hit {
      InCrowd(hits[..|hits| - 1], hit, key, since);
    }
  }

  /** Since the last request for `key`, ties in time included, at least `max` other keys were requested. */
  ghost predicate IsCrowded(max: nat, hits: seq<Hit>, key: string) {
    LastHit(hits, key).Some? && |Crowd(hits, key, LastHit(hits, key).value.now)| >= max
  }

  lemma StaysCrowded(max: nat, hits: seq<Hit>, key: string)
    requires hits != [] && hits[|hits| - 1].key != key && IsCrowded(max, hits[..|hits| - 1], key)
    ensures IsCrowded(max, hits, key)
  {
    var since := LastHit(hits, key).value.now;
    SubsetSize(Crowd(hits[..|hits| - 1], key, since), Crowd(hits, key, since));
  }

  /** A bucket was last seen when its key was last requested. */
  ghost predicate SeenLast(hits: seq<Hit>, buckets: Buckets, key: string) {
    key in buckets.values ==>
      LastHit(hits, key).Some? && LastHit(hits, key).value.now == buckets.values[key].lastSeen
  }

  /** The buckets in place when the last of `hits` was counted. */
  function LastPlaced(policy: Policy, max: nat, hits: seq<Hit>): Buckets
    requires hits != []
  {
    Placed(policy, max, hits[..|hits| - 1], hits[|hits| - 1])
  }

  lemma PlacedSeenLast(policy: Policy, max: nat, hits: seq<Hit>, key: string)
    requires hits != [] && SeenLast(hits[..|hits| - 1], MemoryAfter(policy, max, hits[..|hits| - 1]), key)
    ensures SeenLast(hits, LastPlaced(policy, max, hits), key)
  {
  }

  lemma {:induction false} BucketSeenLast(policy: Policy, max: nat, hits: seq<Hit>, key: string)
    ensures MemoryAfter(policy, max, hits).Valid() && SeenLast(hits, MemoryAfter(policy, max, hits), key)
  {
    if hits != [] {
      var init, last := hits[..|hits| - 1], hits[|hits| - 1];
      BucketSeenLast(policy, max, init, key);
      PlacedExact(policy, max, init, last);
      PlacedSeenLast(policy, max, hits, key);
    }
  }

  /** Two windows after its last request a bucket is gone, and while nothing is evicted not before: after the
      request at `now` the buckets are those of the keys requested less than two windows before. */
  ghost predicate HoldsRecent(policy: Policy, hits: seq<Hit>, buckets: Buckets, now: int, key: string) {
    && (key in buckets.values <==>
        LastHit(hits, key).Some? && now - LastHit(hits, key).value.now < 2 * policy.windowMs(key))
    && (key in buckets.values ==>
        buckets.values[key].expiresAt == LastHit(hits, key).value.now + 2 * policy.windowMs(key))
  }

  lemma RecentStep(policy: Policy, max: nat, hits: seq<Hit>, key: string)
    requires Positive(policy) && hits != [] && MemoryAfter(policy, max, hits[..|hits| - 1]).Valid()
    requires Fits(policy, max, hits[..|hits| - 1], hits[|hits| - 1])
    requires |hits| > 1 ==> hits[|hits| - 2].now <= hits[|hits| - 1].now
    requires |hits| > 1 ==> HoldsRecent(policy, hits[..|hits| - 1], MemoryAfter(policy, max, hits[..|hits| - 1]),
                                        hits[|hits| - 2].now, key)
    ensures HoldsRecent(policy, hits, MemoryAfter(policy, max, hits), hits[|hits| - 1].now, key)
  {
    var init, last := hits[..|hits| - 1], hits[|hits| - 1];
    PlacedExact(policy, max, init, last);
    var buckets := MemoryAfter(policy, max, init);
    var pruned := buckets.Restrict(Unexpired(buckets, last.now));
    assert key in pruned.values <==> key in buckets.values && buckets.values[key].expiresAt > last.now;
    assert MemoryAfter(policy, max, hits) == Placed(policy, max, init, last);
    if key == last.key {
      assert Placed(policy, max, init, last).values[key].expiresAt == last.now + 2 * policy.windowMs(key);
    } else {
      assert LastHit(hits, key) == LastHit(init, key);
      assert key in Placed(policy, max, init, last).values <==> key in pruned.values;
    }
  }

  lemma InitInOrder(hits: seq<Hit>)
    requires hits != [] && InTimeOrder(hits)
    ensures InTimeOrder(hits[..|hits| - 1])
  {
  }

  lemma {:induction false} BucketsAreRecent(policy: Policy, max: nat, hits: seq<Hit>, key: string)
    requires Positive(policy) && InTimeOrder(hits) && NeverEvicts(policy, max, hits) && hits != []
    ensures HoldsRecent(policy, hits, MemoryAfter(policy, max, hits), hits[|hits| - 1].now, key)
  {
    InitInOrder(hits);
    RoomKeepsBuckets(policy, max, hits[..|hits| - 1]);
    if |hits| > 1 {
      BucketsAreRecent(policy, max, hits[..|hits| - 1], key);
    }
    RecentStep(policy, max, hits, key);
  }

  /** The keys kept in an eviction were all requested no earlier than the key that goes. */
  lemma DroppedIsCrowded(policy: Policy, max: nat, hits: seq<Hit>, key: string)
    requires hits != [] && Drops(policy, max, hits[..|hits| - 1], hits[|hits| - 1], key)
    ensures IsCrowded(max, hits, key)
  {
    var init, last := hits[..|hits| - 1], hits[|hits| - 1];
    var after := MemoryNext(policy, max, init, last);
    BucketSeenLast(policy, max, init, key);
    PlacedExact(policy, max, init, last);
    PlacedSeenLast(policy, max, hits, key);
    KeptAreNoOlder(policy, max, init, last, key);
    var since := LastHit(hits, key).value.now;
    forall k | k in after.values
      ensures k in Crowd(hits, key, since)
    {
      BucketSeenLast(policy, max, hits, k);
      LastHitIsHit(hits, k);
      InCrowd(hits, LastHit(hits, k).value, key, since);
    }
    SubsetSize(after.values.Keys, Crowd(hits, key, since));
  }

  lemma KeptAreNoOlder(policy: Policy, max: nat, hits: seq<Hit>, last: Hit, key: string)
    requires MemoryAfter(policy, max, hits).Valid() && Drops(policy, max, hits, last, key)
    ensures var placed, after := Placed(policy, max, hits, last), MemoryNext(policy, max, hits, last);
            |after.values.Keys| == max &&
            forall k :: k in after.values ==> placed.values[key].lastSeen <= after.values[k].lastSeen
  {
    assert (hits + [last])[..|hits|] == hits;
    PlacedExact(policy, max, hits, last);
    EvictTakesLeastRecent(Placed(policy, max, hits, last), max);
    MemoryNext(policy, max, hits, last).Size();
  }

  /** A bucket the cap has evicted was crowded out: only a key that `max` other keys have followed can
      lose its window. */
  lemma {:induction false} EvictedIsCrowded(policy: Policy, max: nat, hits: seq<Hit>, key: string)
    requires WasEvicted(policy, max, hits, key)
    ensures IsCrowded(max, hits, key)
  {
    var init, last := hits[..|hits| - 1], hits[|hits| - 1];
    if Drops(policy, max, init, last, key) {
      DroppedIsCrowded(policy, max, hits, key);
    } else {
      EvictedIsCrowded(policy, max, init, key);
      StaysCrowded(max, hits, key);
    }
  }

  // ----- A crowd that is enough -----

  /** A request for `key` one millisecond after `first`. */
  function NextTo(first: Hit, key: string): Hit {
    Hit(key, first.now + 1, first.serverNow + 1)
  }

  /** `first` fills its window, then each of `others` makes one request. */
  function Crowding(policy: Policy, first: Hit, others: seq<string>): seq<Hit>
    requires policy.limit(first.key) >= 1
  {
    if others == [] then Repeat(first, policy.limit(first.key))
    else Crowding(policy, first, others[..|others| - 1]) + [NextTo(first, others[|others| - 1])]
  }

  ghost predicate OtherKeys(first: Hit, others: seq<string>) {
    NoDuplicates(others) && first.key !in others
  }

  lemma {:induction false} CrowdingHits(policy: Policy, first: Hit, others: seq<string>)
    requires Positive(policy)
    ensures var hits := Crowding(policy, first, others);
            && (forall hit :: hit in hits ==> hit == first || (hit.key in others && hit == NextTo(first, hit.key)))
            && InTimeOrder(hits)
  {
    if others != [] {
      CrowdingHits(policy, first, others[..|others| - 1]);
    }
  }

  /** Every key has opened its window, and the first one's is full. */
  lemma {:induction false} CrowdingCounts(policy: Policy, first: Hit, others: seq<string>)
    requires Positive(policy) && OtherKeys(first, others)
    ensures var counter := CounterAfter(policy, Crowding(policy, first, others));
            && counter.Keys == {first.key} + Elements(others)
            && counter[first.key] == Window(first.now, policy.limit(first.key))
            && forall key :: key in others ==> counter[key] == Window(first.now + 1, 1)
  {
    if others == [] {
      RepeatCounts(policy, first, policy.limit(first.key));
    } else {
      var init, last := others[..|others| - 1], others[|others| - 1];
      DistinctTake(others, |others| - 1);
      assert others == init + [last];
      CrowdingCounts(policy, first, init);
      var hits := Crowding(policy, first, init);
      assert (hits + [NextTo(first, last)])[..|hits|] == hits;
    }
  }

  /** `others` are one fewer than the cap, and `extra` is one key more. */
  ghost predicate FillsCap(policy: Policy, max: nat, first: Hit, others: seq<string>, extra: string) {
    && Positive(policy) && policy.windowMs(first.key) >= 2 && |others| + 1 == max
    && OtherKeys(first, others) && extra !in others && extra != first.key
  }

  lemma CrowdingKeys(policy: Policy, max: nat, first: Hit, others: seq<string>, extra: string)
    requires FillsCap(policy, max, first, others, extra)
    ensures Keys(Crowding(policy, first, others)) <= {first.key} + Elements(others)
  {
    CrowdingHits(policy, first, others);
  }

  /** Up to the cap nothing is evicted, and every key has its bucket. */
  lemma CrowdingMatches(policy: Policy, max: nat, first: Hit, others: seq<string>, extra: string)
    requires FillsCap(policy, max, first, others, extra)
    ensures var hits := Crowding(policy, first, others);
            && NeverLoses(policy, max, hits) && (forall key :: !WasEvicted(policy, max, hits, key))
            && MemoryMatches(policy, max, hits, NextTo(first, extra).now)
            && extra !in MemoryAfter(policy, max, hits).values
  {
    var hits := Crowding(policy, first, others);
    DistinctLength(others);
    CrowdingHits(policy, first, others);
    CrowdingKeys(policy, max, first, others, extra);
    SubsetSize(Keys(hits), {first.key} + Elements(others));
    FewKeysNeverEvict(policy, max, hits);
    RoomKeepsBuckets(policy, max, hits);
    MemoryRun(policy, max, hits, first.now + 1);
    BucketKeys(policy, max, hits);
  }

  /** A key whose open window has not been lost has a bucket. */
  lemma OpenIsPlaced(policy: Policy, max: nat, hits: seq<Hit>, last: Hit, key: string)
    requires Positive(policy) && MemoryMatches(policy, max, hits, last.now) && !WasEvicted(policy, max, hits, key)
    requires key == last.key || (var w := Current(CounterAfter(policy, hits), key);
                                 w.Some? && last.now - w.value.start < policy.windowMs(key))
    ensures key in Placed(policy, max, hits, last).values
  {
    PruneMatches(policy, max, hits, last.now, key);
  }

  lemma CrowdingIsOpen(policy: Policy, max: nat, first: Hit, others: seq<string>, extra: string, key: string)
    requires FillsCap(policy, max, first, others, extra) && (key == first.key || key in others)
    ensures var w := Current(CounterAfter(policy, Crowding(policy, first, others)), key);
            w.Some? && NextTo(first, extra).now - w.value.start < policy.windowMs(key)
  {
    CrowdingCounts(policy, first, others);
  }

  lemma CrowdingPlaced(policy: Policy, max: nat, first: Hit, others: seq<string>, extra: string, key: string)
    requires FillsCap(policy, max, first, others, extra) && (key == first.key || key in others || key == extra)
    ensures key in Placed(policy, max, Crowding(policy, first, others), NextTo(first, extra)).values
  {
    CrowdingMatches(policy, max, first, others, extra);
    if key != extra {
      CrowdingIsOpen(policy, max, first, others, extra, key);
    }
    OpenIsPlaced(policy, max, Crowding(policy, first, others), NextTo(first, extra), key);
  }

  /** The request for `extra` exceeds the cap. */
  lemma CrowdingOverflows(policy: Policy, max: nat, first: Hit, others: seq<string>, extra: string)
    requires FillsCap(policy, max, first, others, extra)
    ensures MemoryAfter(policy, max, Crowding(policy, first, others)).Valid()
    ensures |Placed(policy, max, Crowding(policy, first, others), NextTo(first, extra)).keys| > max
  {
    CrowdingMatches(policy, max, first, others, extra);
    PlacedExact(policy, max, Crowding(policy, first, others), NextTo(first, extra));
    forall key | key == first.key || key in others || key == extra
      ensures key in Placed(policy, max, Crowding(policy, first, others), NextTo(first, extra)).values
    {
      CrowdingPlaced(policy, max, first, others, extra, key);
    }
    HoldsMore(Placed(policy, max, Crowding(policy, first, others), NextTo(first, extra)), first.key, others + [extra]);
  }

  lemma HoldsMore(buckets: Buckets, key: string, others: seq<string>)
    requires buckets.Valid() && NoDuplicates(others) && key !in others
    requires forall k :: k == key || k in others ==> k in buckets.values
    ensures |buckets.keys| > |others|
  {
    buckets.Size();
    DistinctLength(others);
    assert |Elements(others) + {key}| == |others| + 1;
    SubsetSize(Elements(others) + {key}, buckets.values.Keys);
  }

  /** The bucket that goes is that of `first`: all the others were seen later. */
  lemma CrowdingDrops(policy: Policy, max: nat, first: Hit, others: seq<string>, extra: string)
    requires FillsCap(policy, max, first, others, extra)
    ensures Drops(policy, max, Crowding(policy, first, others), NextTo(first, extra), first.key)
  {
    var hits, last := Crowding(policy, first, others), NextTo(first, extra);
    CrowdingOverflows(policy, max, first, others, extra);
    CrowdingMatches(policy, max, first, others, extra);
    CrowdingPlaced(policy, max, first, others, extra, first.key);
    var d := SomeDropped(policy, max, hits, last);
    SeenWhen(policy, max, first, others, extra, d);
    SeenWhen(policy, max, first, others, extra, first.key);
    OldestGoes(policy, max, hits, last, d, first.key);
  }

  /** A bucket seen earlier than one that is dropped is dropped too. */
  lemma OldestGoes(policy: Policy, max: nat, hits: seq<Hit>, last: Hit, d: string, key: string)
    requires MemoryAfter(policy, max, hits).Valid() && Drops(policy, max, hits, last, d)
    requires var placed := Placed(policy, max, hits, last).values;
             key in placed && (key == d || placed[key].lastSeen < placed[d].lastSeen)
    ensures Drops(policy, max, hits, last, key)
  {
    PlacedExact(policy, max, hits, last);
    KeptAreNoOlder(policy, max, hits, last, d);
  }

  lemma SomeKeyMissing(placed: Buckets, after: Buckets) returns (d: string)
    requires placed.Valid() && after.Valid() && |after.keys| < |placed.keys|
    ensures d in placed.values && d !in after.values
  {
    placed.Size();
    after.Size();
    if placed.values.Keys <= after.values.Keys {
      SubsetSize(placed.values.Keys, after.values.Keys);
      assert false;
    }
    d :| d in placed.values.Keys && d !in after.values.Keys;
  }

  lemma EvictionFits(policy: Policy, max: nat, hits: seq<Hit>, last: Hit)
    requires MemoryAfter(policy, max, hits).Valid() && last.key !in MemoryAfter(policy, max, hits).values
    ensures |MemoryNext(policy, max, hits, last).keys| <= max
  {
    assert (hits + [last])[..|hits|] == hits;
    PlacedExact(policy, max, hits, last);
    EvictTakesLeastRecent(Placed(policy, max, hits, last), max);
  }

  /** A request for a new key evicts some bucket when the cap is exceeded. */
  lemma SomeDropped(policy: Policy, max: nat, hits: seq<Hit>, last: Hit) returns (d: string)
    requires MemoryAfter(policy, max, hits).Valid() && last.key !in MemoryAfter(policy, max, hits).values
    requires |Placed(policy, max, hits, last).keys| > max
    ensures Drops(policy, max, hits, last, d)
  {
    PlacedExact(policy, max, hits, last);
    EvictionFits(policy, max, hits, last);
    d := SomeKeyMissing(Placed(policy, max, hits, last), MemoryNext(policy, max, hits, last));
  }

  /** A placed bucket was seen at the time of `first` if it is that of `first`, else a millisecond later. */
  lemma SeenWhen(policy: Policy, max: nat, first: Hit, others: seq<string>, extra: string, key: string)
    requires FillsCap(policy, max, first, others, extra)
    requires key in Placed(policy, max, Crowding(policy, first, others), NextTo(first, extra)).values
    ensures Placed(policy, max, Crowding(policy, first, others), NextTo(first, extra)).values[key].lastSeen ==
            first.now + if key == first.key then 0 else 1
  {
    var hits, last := Crowding(policy, first, others), NextTo(first, extra);
    assert (hits + [last])[..|hits|] == hits;
    BucketSeenLast(policy, max, hits, key);
    PlacedSeenLast(policy, max, hits + [last], key);
    LastHitIsHit(hits + [last], key);
    CrowdingHits(policy, first, others);
  }

  lemma {:induction false} RepeatCrowd(first: Hit, n: nat)
    ensures Crowd(Repeat(first, n), first.key, first.now) == {}
  {
    if n > 0 {
      assert Repeat(first, n)[..n - 1] == Repeat(first, n - 1);
      RepeatCrowd(first, n - 1);
    }
  }

  lemma {:induction false} CrowdingCrowd(policy: Policy, first: Hit, others: seq<string>)
    requires Positive(policy) && first.key !in others
    ensures Crowd(Crowding(policy, first, others), first.key, first.now) == Elements(others)
  {
    if others == [] {
      RepeatCrowd(first, policy.limit(first.key));
    } else {
      var init, last := others[..|others| - 1], others[|others| - 1];
      assert others == init + [last];
      var hits := Crowding(policy, first, init);
      assert (hits + [NextTo(first, last)])[..|hits|] == hits;
      CrowdingCrowd(policy, first, init);
    }
  }

  lemma CrowdingEnds(policy: Policy, first: Hit, others: seq<string>, extra: string)
    requires policy.limit(first.key) >= 1
    ensures Crowding(policy, first, others + [extra]) == Crowding(policy, first, others) + [NextTo(first, extra)]
  {
    assert (others + [extra])[..|others|] == others;
  }

  lemma CrowdingLoses(policy: Policy, max: nat, first: Hit, others: seq<string>, extra: string)
    requires FillsCap(policy, max, first, others, extra)
    ensures var hits, again := Crowding(policy, first, others) + [NextTo(first, extra)], NextTo(first, first.key);
            && NeverLoses(policy, max, hits) && Loses(policy, max, hits, again)
            && CounterVerdict(policy, hits, again).Denied?
  {
    var hits, last := Crowding(policy, first, others), NextTo(first, extra);
    assert (hits + [last])[..|hits|] == hits;
    CrowdingCounts(policy, first, others);
    CrowdingMatches(policy, max, first, others, extra);
    CrowdingDrops(policy, max, first, others, extra);
  }

  lemma CrowdingInOrder(policy: Policy, max: nat, first: Hit, others: seq<string>, extra: string)
    requires FillsCap(policy, max, first, others, extra)
    ensures var hits := Crowding(policy, first, others + [extra]);
            InTimeOrder(hits + [NextTo(first, first.key)]) && |Crowd(hits, first.key, first.now)| == max
  {
    CrowdingHits(policy, first, others + [extra]);
    CrowdingCrowd(policy, first, others + [extra]);
    DistinctLength(others + [extra]);
  }

  /** The bound on the crowd is exact: for every cap, limit and window longer than a millisecond, as many
      other keys as the cap are enough to lose a full window, so that a request passes that the counter
      denies. */
  lemma CrowdBoundIsTight(policy: Policy, max: nat, first: Hit, others: seq<string>, extra: string)
    requires FillsCap(policy, max, first, others, extra)
    ensures var hits, again := Crowding(policy, first, others + [extra]), NextTo(first, first.key);
            && InTimeOrder(hits + [again]) && NeverLoses(policy, max, hits)
            && |Crowd(hits, first.key, first.now)| == max
            && Loses(policy, max, hits, again)
            && CounterVerdict(policy, hits, again).Denied? && MemoryVerdict(policy, max, hits, again).Allowed?
  {
    CrowdingEnds(policy, first, others, extra);
    CrowdingInOrder(policy, max, first, others, extra);
    CrowdingLoses(policy, max, first, others, extra);
    LosingPasses(policy, max, Crowding(policy, first, others + [extra]), NextTo(first, first.key));
  }
}
