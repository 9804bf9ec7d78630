/** The fixed-window rate limiter: the plain counter and the in-memory one that forgets old buckets. */
module RateLimiter {
  import opened OrderedMaps
  import opened Sequences
  import opened Wrappers

  datatype Verdict = Allowed | Denied(retryAfterMs: int)

  /** Limits and windows are whole numbers of at least one; so is the value for a non-finite one. */
  function NormalizeRateLimitValue(value: JsNumber): (r: int)
    ensures r >= 1
    ensures value.Finite? && value.r >= 1.0 ==> r as real <= value.r < (r + 1) as real
    ensures value.NotFinite? || value.r < 1.0 ==> r == 1
  {
    if value.NotFinite? || value.r.Floor < 1 then 1 else value.r.Floor
  }

  /** The whole milliseconds of the given time, or the clock when no finite time is given. */
  function NormalizeNow(nowMs: Option<JsNumber>, clock: int): (r: int)
    ensures nowMs.Some? && nowMs.value.Finite? ==> r as real <= nowMs.value.r < (r + 1) as real
    ensures nowMs.None? || nowMs.value.NotFinite? ==> r == clock
  {
    if nowMs.Some? && nowMs.value.Finite? then nowMs.value.r.Floor else clock
  }

  // ----- The plain fixed-window counter, which never forgets -----

  datatype Window = Window(start: int, count: int)

  function WindowHit(w: Option<Window>, limit: int, windowMs: int, now: int): (Window, Verdict) {
    if w.None? || now - w.value.start >= windowMs then (Window(now, 1), Allowed)
    else if w.value.count >= limit then (w.value, Denied(windowMs - (now - w.value.start)))
    else (Window(w.value.start, w.value.count + 1), Allowed)
  }

  /** A denied request is told to wait more than nothing and at most a window, and that wait is
      exactly the earliest delay after which a request passes. */
  lemma RetryIsExact(w: Window, limit: int, windowMs: int, now: int, delay: nat)
    requires w.start <= now && limit >= 1 && windowMs >= 1
    requires WindowHit(Some(w), limit, windowMs, now).1.Denied?
    ensures var (w', verdict) := WindowHit(Some(w), limit, windowMs, now);
            && 0 < verdict.retryAfterMs <= windowMs
            && (WindowHit(Some(w'), limit, windowMs, now + delay).1.Allowed? <==> delay >= verdict.retryAfterMs)
  {
  }

  // ----- The in-memory limiter -----

  datatype Bucket = Bucket(windowStart: int, count: int, lastSeen: int, expiresAt: int)

  type Buckets = OrderedMap<Bucket>

  function Unexpired(buckets: Buckets, now: int): set<string> {
    set k | k in buckets.values && buckets.values[k].expiresAt > now
  }

  function Lookup(buckets: Buckets, key: string): Option<Bucket> {
    if key in buckets.values then Some(buckets.values[key]) else None
  }

  predicate OpensWindow(b: Option<Bucket>, windowMs: int, now: int) {
    b.None? || now - b.value.windowStart >= windowMs
  }

  function BucketHit(b: Option<Bucket>, limit: int, windowMs: int, now: int): (Bucket, Verdict) {
    if OpensWindow(b, windowMs, now) then (Bucket(now, 1, now, now + windowMs * 2), Allowed)
    else
      var seen := b.value.(lastSeen := now, expiresAt := now + windowMs * 2);
      if seen.count >= limit then
        var retry := windowMs - (now - seen.windowStart);
        (seen, Denied(if retry < 0 then 0 else retry))
      else (seen.(count := seen.count + 1), Allowed)
  }

  /** Places `key` after every key seen no later than it: a stable sorting step. */
  function InsertBySeen(sorted: seq<string>, key: string, values: map<string, Bucket>): seq<string> {
    if sorted != [] && Seen(values, sorted[|sorted| - 1]) > Seen(values, key) then
      InsertBySeen(sorted[..|sorted| - 1], key, values) + [sorted[|sorted| - 1]]
    else sorted + [key]
  }

  function Seen(values: map<string, Bucket>, key: string): int {
    if key in values then values[key].lastSeen else 0
  }

  function SortBySeen(keys: seq<string>, values: map<string, Bucket>): seq<string> {
    if keys == [] then [] else InsertBySeen(SortBySeen(keys[..|keys| - 1], values), keys[|keys| - 1], values)
  }

  /** The buckets left when the least recently seen ones beyond `max` are deleted. */
  function Evict(buckets: Buckets, max: nat): Buckets {
    var sorted := SortBySeen(buckets.keys, buckets.values);
    if |buckets.keys| <= max || |sorted| < |buckets.keys| - max then buckets
    else
      var dropped := sorted[..|buckets.keys| - max];
      buckets.Restrict(buckets.values.Keys - set k | k in dropped)
  }

  function MemoryHit(buckets: Buckets, max: nat, key: string, limit: int, windowMs: int, now: int): (Buckets, Verdict) {
    var pruned := buckets.Restrict(Unexpired(buckets, now));
    var (bucket, verdict) := BucketHit(Lookup(pruned, key), limit, windowMs, now);
    var put := pruned.Put(key, bucket);
    (if OpensWindow(Lookup(pruned, key), windowMs, now) then Evict(put, max) else put, verdict)
  }

  lemma {:induction false} InsertedMultiset(sorted: seq<string>, key: string, values: map<string, Bucket>)
    ensures multiset(InsertBySeen(sorted, key, values)) == multiset(sorted) + multiset{key}
  {
    if sorted != [] && Seen(values, sorted[|sorted| - 1]) > Seen(values, key) {
      InsertedMultiset(sorted[..|sorted| - 1], key, values);
      assert sorted == sorted[..|sorted| - 1] + [sorted[|sorted| - 1]];
    }
  }

  lemma {:induction false} SortedMultiset(keys: seq<string>, values: map<string, Bucket>)
    ensures multiset(SortBySeen(keys, values)) == multiset(keys)
    ensures |SortBySeen(keys, values)| == |keys|
  {
    if keys != [] {
      var init, last := keys[..|keys| - 1], keys[|keys| - 1];
      SortedMultiset(init, values);
      InsertedMultiset(SortBySeen(init, values), last, values);
      assert keys == init + [last];
    }
    assert |multiset(SortBySeen(keys, values))| == |multiset(keys)|;
  }

  ghost predicate SortedSeen(s: seq<string>, values: map<string, Bucket>) {
    forall i, j :: 0 <= i < j < |s| ==> Seen(values, s[i]) <= Seen(values, s[j])
  }

  lemma {:induction false} InsertKeepsSorted(sorted: seq<string>, key: string, values: map<string, Bucket>)
    requires SortedSeen(sorted, values)
    ensures SortedSeen(InsertBySeen(sorted, key, values), values)
    ensures var r := InsertBySeen(sorted, key, values);
            |r| == |sorted| + 1 && (forall k :: k in r <==> k in sorted || k == key)
  {
    if sorted != [] && Seen(values, sorted[|sorted| - 1]) > Seen(values, key) {
      var init, last := sorted[..|sorted| - 1], sorted[|sorted| - 1];
      InsertKeepsSorted(init, key, values);
      assert sorted == init + [last];
      var r := InsertBySeen(init, key, values);
      forall i | 0 <= i < |r|
        ensures Seen(values, r[i]) <= Seen(values, last)
      {
        assert r[i] in r;
      }
    }
  }

  lemma {:induction false} SortIsSorted(keys: seq<string>, values: map<string, Bucket>)
    ensures SortedSeen(SortBySeen(keys, values), values)
  {
    if keys != [] {
      SortIsSorted(keys[..|keys| - 1], values);
      InsertKeepsSorted(SortBySeen(keys[..|keys| - 1], values), keys[|keys| - 1], values);
    }
  }

  /** `a` comes before `b` in the insertion order. */
  ghost predicate Precedes(keys: seq<string>, a: string, b: string) {
    exists i, j :: 0 <= i < j < |keys| && keys[i] == a && keys[j] == b
  }

  ghost predicate TiesInOrder(sorted: seq<string>, keys: seq<string>, values: map<string, Bucket>) {
    forall i, j :: 0 <= i < j < |sorted| && Seen(values, sorted[i]) == Seen(values, sorted[j]) ==>
      Precedes(keys, sorted[i], sorted[j])
  }

  lemma {:induction false} InsertKeepsTies(sorted: seq<string>, keys: seq<string>, key: string,
          values: map<string, Bucket>)
    requires SortedSeen(sorted, values) && TiesInOrder(sorted, keys, values)
    requires forall k :: k in sorted ==> k in keys
    ensures TiesInOrder(InsertBySeen(sorted, key, values), keys + [key], values)
  {
    var r := InsertBySeen(sorted, key, values);
    forall a, b | Precedes(keys, a, b)
      ensures Precedes(keys + [key], a, b)
    {
      var i, j :| 0 <= i < j < |keys| && keys[i] == a && keys[j] == b;
      assert (keys + [key])[i] == a && (keys + [key])[j] == b;
    }
    forall k | k in keys
      ensures Precedes(keys + [key], k, key)
    {
      var i :| 0 <= i < |keys| && keys[i] == k;
      assert (keys + [key])[i] == k && (keys + [key])[|keys|] == key;
    }
    if sorted != [] && Seen(values, sorted[|sorted| - 1]) > Seen(values, key) {
      var init, last := sorted[..|sorted| - 1], sorted[|sorted| - 1];
      InsertKeepsTies(init, keys, key, values);
      InsertKeepsSorted(init, key, values);
      var r' := InsertBySeen(init, key, values);
      forall i, j | 0 <= i < j < |r| && Seen(values, r[i]) == Seen(values, r[j])
        ensures Precedes(keys + [key], r[i], r[j])
      {
        if j == |r'| {
          assert r[i] in r' && r[i] != key;
          var i' :| 0 <= i' < |init| && init[i'] == r[i];
          assert sorted[i'] == r[i] && sorted[|init|] == r[j];
        }
      }
    } else {
      assert forall k :: k in sorted ==> Precedes(keys + [key], k, key);
    }
  }

  /** The sort is stable: keys seen at the same time stay in insertion order. */
  lemma {:induction false} SortKeepsTies(keys: seq<string>, values: map<string, Bucket>)
    ensures TiesInOrder(SortBySeen(keys, values), keys, values)
    ensures forall k :: k in SortBySeen(keys, values) <==> k in keys
  {
    if keys != [] {
      var init, last := keys[..|keys| - 1], keys[|keys| - 1];
      assert keys == init + [last];
      SortKeepsTies(init, values);
      SortIsSorted(init, values);
      InsertKeepsTies(SortBySeen(init, values), init, last, values);
      InsertKeepsSorted(SortBySeen(init, values), last, values);
    }
  }

  /** The names eviction deletes: the first of the sorted keys. */
  ghost function Evicted(buckets: Buckets, max: nat): set<string>
    requires |buckets.keys| > max
  {
    SortedMultiset(buckets.keys, buckets.values);
    Elements(SortBySeen(buckets.keys, buckets.values)[..|buckets.keys| - max])
  }

  lemma EvictedExact(buckets: Buckets, max: nat)
    requires buckets.Valid() && |buckets.keys| > max
    ensures Evict(buckets, max) == buckets.Restrict(buckets.values.Keys - Evicted(buckets, max))
    ensures Evicted(buckets, max) <= buckets.values.Keys && |Evicted(buckets, max)| == |buckets.keys| - max
  {
    var sorted, n := SortBySeen(buckets.keys, buckets.values), |buckets.keys| - max;
    SortedMultiset(buckets.keys, buckets.values);
    SortedKeys(buckets, sorted);
    PrefixSize(sorted, n);
    assert Evicted(buckets, max) == set k | k in sorted[..n];
    assert forall k :: k in sorted[..n] ==> k in sorted;
  }

  lemma EvictedAreOlder(buckets: Buckets, max: nat, d: string, k: string)
    requires buckets.Valid() && |buckets.keys| > max
    requires d in Evicted(buckets, max) && k in buckets.values && k !in Evicted(buckets, max) && d in buckets.values
    ensures buckets.values[d].lastSeen <= buckets.values[k].lastSeen
  {
    var sorted, n := SortBySeen(buckets.keys, buckets.values), |buckets.keys| - max;
    SortedMultiset(buckets.keys, buckets.values);
    SortIsSorted(buckets.keys, buckets.values);
    SortedKeys(buckets, sorted);
  }

  lemma OutsidePrefix<T>(s: seq<T>, n: nat, j: nat)
    requires n <= |s| && j < |s| && s[j] !in s[..n]
    ensures j >= n
  {
  }

  lemma EvictedPrecede(buckets: Buckets, max: nat, d: string, k: string)
    requires buckets.Valid() && |buckets.keys| > max && d in Evicted(buckets, max)
    requires k in buckets.values && k !in Evicted(buckets, max) && Seen(buckets.values, d) == Seen(buckets.values, k)
    ensures Precedes(buckets.keys, d, k)
  {
    var sorted, n := SortBySeen(buckets.keys, buckets.values), |buckets.keys| - max;
    SortedMultiset(buckets.keys, buckets.values);
    SortKeepsTies(buckets.keys, buckets.values);
    SortedKeys(buckets, sorted);
    var i :| 0 <= i < n && sorted[i] == d;
    var j :| 0 <= j < |sorted| && sorted[j] == k;
    OutsidePrefix(sorted, n, j);
  }

  /** Of two buckets seen at the same time, eviction takes the one inserted first. */
  lemma EvictTakesFirstInserted(buckets: Buckets, max: nat, d: string, k: string)
    requires buckets.Valid() && d in buckets.values && k in buckets.values && k in Evict(buckets, max).values
    requires d !in Evict(buckets, max).values && buckets.values[d].lastSeen == buckets.values[k].lastSeen
    ensures Precedes(buckets.keys, d, k)
  {
    if |buckets.keys| > max {
      EvictedExact(buckets, max);
      EvictedPrecede(buckets, max, d, k);
    }
  }

  /** Eviction leaves at most `max` buckets, and every deleted bucket was last seen no later than
      every bucket kept. */
  lemma EvictTakesLeastRecent(buckets: Buckets, max: nat)
    requires buckets.Valid()
    ensures var kept := Evict(buckets, max);
            && kept.Valid()
            && |kept.keys| == (if |buckets.keys| <= max then |buckets.keys| else max)
            && forall k, d :: k in kept.values && d in buckets.values && d !in kept.values ==>
                 buckets.values[d].lastSeen <= buckets.values[k].lastSeen
  {
    if |buckets.keys| > max {
      EvictedExact(buckets, max);
      var gone, kept := Evicted(buckets, max), Evict(buckets, max);
      buckets.RestrictValid(buckets.values.Keys - gone);
      buckets.Size();
      kept.Size();
      assert kept.values.Keys == buckets.values.Keys - gone;
      forall k, d | k in kept.values && d in buckets.values && d !in kept.values
        ensures buckets.values[d].lastSeen <= buckets.values[k].lastSeen
      {
        EvictedAreOlder(buckets, max, d, k);
      }
    }
  }

  lemma SortedKeys(buckets: Buckets, sorted: seq<string>)
    requires buckets.Valid() && multiset(sorted) == multiset(buckets.keys)
    ensures NoDuplicates(sorted) && forall k :: k in sorted <==> k in buckets.values
  {
    forall k
      ensures k in sorted <==> k in buckets.values
    {
      assert k in sorted <==> k in multiset(sorted);
      assert k in buckets.keys <==> k in multiset(buckets.keys);
      assert k in Elements(buckets.keys) <==> k in buckets.values;
    }
    forall k | k in sorted
      ensures multiset(sorted)[k] == 1
    {
      assert k in Elements(buckets.keys);
    }
  }

  lemma {:induction false} PrefixSize(s: seq<string>, n: nat)
    requires NoDuplicates(s) && n <= |s|
    ensures |Elements(s[..n])| == n
  {
    if n > 0 {
      PrefixSize(s, n - 1);
      ScanStep(s, n - 1);
    } else {
      assert Elements(s[..0]) == {};
    }
  }

  class MemoryRateLimiter {
    const maxRateLimitBuckets: nat
    var buckets: Buckets

    ghost predicate Valid()
      reads this
    {
      buckets.Valid() && "" !in buckets.values
    }

    constructor (maxRateLimitBuckets: int)
      ensures Valid() && buckets == OrderedMap([], map[])
      ensures this.maxRateLimitBuckets == if maxRateLimitBuckets >= 1000 then maxRateLimitBuckets else 1000
    {
      this.maxRateLimitBuckets := if maxRateLimitBuckets >= 1000 then maxRateLimitBuckets else 1000;
      buckets := OrderedMap([], map[]);
    }

    method RateLimit(key: string, limit: JsNumber, windowMs: JsNumber, nowMs: Option<JsNumber>, clock: int)
      returns (verdict: Verdict)
      requires Valid() && key != ""
      modifies this
      ensures Valid()
      ensures (buckets, verdict) == MemoryHit(old(buckets), maxRateLimitBuckets, key,
        NormalizeRateLimitValue(limit), NormalizeRateLimitValue(windowMs), NormalizeNow(nowMs, clock))
    {
      var now := NormalizeNow(nowMs, clock);
      var limit' := NormalizeRateLimitValue(limit);
      var window' := NormalizeRateLimitValue(windowMs);
      PruneRateLimitBuckets(now);
      var existing := Lookup(buckets, key);
      var (bucket, v) := BucketHit(existing, limit', window', now);
      buckets.PutValid(key, bucket);
      buckets := buckets.Put(key, bucket);
      if OpensWindow(existing, window', now) {
        EnforceRateLimitBucketLimit();
      }
      verdict := v;
    }

    method PruneRateLimitBuckets(now: int)
      requires Valid()
      modifies this
      ensures Valid() && buckets == old(buckets).Restrict(Unexpired(old(buckets), now))
    {
      buckets.RestrictValid(Unexpired(buckets, now));
      var kept, _ := ScanDelete(buckets, Unexpired(buckets, now));
      buckets := kept;
    }

    method EnforceRateLimitBucketLimit()
      requires Valid()
      modifies this
      ensures Valid() && buckets == Evict(old(buckets), maxRateLimitBuckets)
    {
      EvictTakesLeastRecent(buckets, maxRateLimitBuckets);
      if |buckets.keys| <= maxRateLimitBuckets {
        return;
      }
      var entries := SortBySeen(buckets.keys, buckets.values);
      SortedMultiset(buckets.keys, buckets.values);
      SortedKeys(buckets, entries);
      var toRemove := |buckets.keys| - maxRateLimitBuckets;
      ghost var before := buckets;
      buckets.RestrictAll();
      assert buckets.values.Keys - Elements(entries[..0]) == buckets.values.Keys;
      for i := 0 to toRemove
        invariant buckets == before.Restrict(before.values.Keys - Elements(entries[..i]))
      {
        ScanStep(entries, i);
        assert entries[i] in entries;
        before.RemoveOneMore(Elements(entries[..i]), entries[i]);
        buckets := buckets.Remove(entries[i]);
      }
      before.RestrictValid(before.values.Keys - Elements(entries[..toRemove]));
      assert Elements(entries[..toRemove]) == set k | k in entries[..toRemove];
    }
  }
}
