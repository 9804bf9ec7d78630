/** Runs of the plain counter and of the in-memory limiter, which return the same verdicts. */
module RateLimiterRefinement {
  import opened OrderedMaps
  import opened RateLimiter
  import opened Sequences
  import opened Wrappers

  /** A request for `key` with the caller's time and the Redis server's time. */
  datatype Hit = Hit(key: string, now: int, serverNow: int)

  /** The limit and window fixed for each key. */
  datatype Policy = Policy(limit: string -> int, windowMs: string -> int)

  ghost predicate Positive(policy: Policy) {
    forall key :: policy.limit(key) >= 1 && policy.windowMs(key) >= 1
  }

  ghost predicate InTimeOrder(hits: seq<Hit>) {
    forall i, j :: 0 <= i < j < |hits| ==> hits[i].now <= hits[j].now
  }

  // ----- The plain counter's run -----

  type Counter = map<string, Window>

  function Current(counter: Counter, key: string): Option<Window> {
    if key in counter then Some(counter[key]) else None
  }

  function CounterAfter(policy: Policy, hits: seq<Hit>): Counter {
    if hits == [] then map[]
    else
      var before, last := CounterAfter(policy, hits[..|hits| - 1]), hits[|hits| - 1];
      before[last.key := WindowHit(Current(before, last.key), policy.limit(last.key), policy.windowMs(last.key),
        last.now).0]
  }

  /** The verdict on a request that follows `hits`. */
  function CounterVerdict(policy: Policy, hits: seq<Hit>, last: Hit): Verdict {
    WindowHit(Current(CounterAfter(policy, hits), last.key), policy.limit(last.key), policy.windowMs(last.key),
      last.now).1
  }

  function LastHit(hits: seq<Hit>, key: string): Option<Hit> {
    if hits == [] then None
    else if hits[|hits| - 1].key == key then Some(hits[|hits| - 1])
    else LastHit(hits[..|hits| - 1], key)
  }

  lemma {:induction false} LastHitIsHit(hits: seq<Hit>, key: string)
    requires LastHit(hits, key).Some?
    ensures LastHit(hits, key).value in hits && LastHit(hits, key).value.key == key
  {
    if hits[|hits| - 1].key != key {
      LastHitIsHit(hits[..|hits| - 1], key);
    }
  }

  /** The same request `n` times. */
  function Repeat(hit: Hit, n: nat): seq<Hit> {
    seq(n, _ => hit)
  }

  /** As many requests as the limit allows fill the first window. */
  lemma {:induction false} RepeatCounts(policy: Policy, first: Hit, n: nat)
    requires Positive(policy) && 1 <= n <= policy.limit(first.key)
    ensures var hits := Repeat(first, n);
            && CounterAfter(policy, hits) == map[first.key := Window(first.now, n)]
            && LastHit(hits, first.key) == Some(first)
  {
    var hits := Repeat(first, n);
    assert hits[..n - 1] == Repeat(first, n - 1) && hits[n - 1] == first;
    if n > 1 {
      RepeatCounts(policy, first, n - 1);
    } else {
      assert hits[..0] == [];
    }
  }

  // ----- The in-memory limiter's run -----

  function MemoryAfter(policy: Policy, max: nat, hits: seq<Hit>): Buckets
    decreases |hits|, 0
  {
    if hits == [] then OrderedMap([], map[])
    else MemoryNext(policy, max, hits[..|hits| - 1], hits[|hits| - 1])
  }

  /** The buckets after `hits` and then `last`. */
  function MemoryNext(policy: Policy, max: nat, hits: seq<Hit>, last: Hit): Buckets
    decreases |hits|, 1
  {
    MemoryHit(MemoryAfter(policy, max, hits), max, last.key, policy.limit(last.key), policy.windowMs(last.key),
      last.now).0
  }

  function MemoryVerdict(policy: Policy, max: nat, hits: seq<Hit>, last: Hit): Verdict {
    MemoryHit(MemoryAfter(policy, max, hits), max, last.key, policy.limit(last.key), policy.windowMs(last.key),
      last.now).1
  }

  /** The buckets once pruned for `last` and with its bucket in place, before any eviction. */
  function Placed(policy: Policy, max: nat, hits: seq<Hit>, last: Hit): Buckets {
    var buckets := MemoryAfter(policy, max, hits);
    var pruned := buckets.Restrict(Unexpired(buckets, last.now));
    pruned.Put(last.key, BucketHit(Lookup(pruned, last.key), policy.limit(last.key), policy.windowMs(last.key),
                                   last.now).0)
  }

  /** With the request `last` the bucket of `key` is evicted. */
  predicate Drops(policy: Policy, max: nat, hits: seq<Hit>, last: Hit, key: string) {
    key in Placed(policy, max, hits, last).values && key !in MemoryNext(policy, max, hits, last).values
  }

  /** Since the last request for `key` the bucket cap has evicted its bucket. */
  predicate WasEvicted(policy: Policy, max: nat, hits: seq<Hit>, key: string) {
    hits != [] &&
    (var init, last := hits[..|hits| - 1], hits[|hits| - 1];
     Drops(policy, max, init, last, key) || (key != last.key && WasEvicted(policy, max, init, key)))
  }

  /** The bucket of the key was evicted, while its window is still open. */
  predicate Loses(policy: Policy, max: nat, hits: seq<Hit>, last: Hit) {
    var w := Current(CounterAfter(policy, hits), last.key);
    w.Some? && last.now - w.value.start < policy.windowMs(last.key) && WasEvicted(policy, max, hits, last.key)
  }

  /** The window of the key has let its limit through. */
  predicate IsFull(policy: Policy, hits: seq<Hit>, last: Hit) {
    var w := Current(CounterAfter(policy, hits), last.key);
    w.Some? && w.value.count >= policy.limit(last.key)
  }

  ghost predicate NeverLoses(policy: Policy, max: nat, hits: seq<Hit>) {
    hits == [] ||
    (var init, last := hits[..|hits| - 1], hits[|hits| - 1];
     NeverLoses(policy, max, init) && !Loses(policy, max, init, last))
  }

  /** A bucket holds the counter's window and its expiry lies two windows after its last hit; a key
      without a bucket has no window that is still open, unless its bucket was evicted. */
  ghost predicate BucketMatches(b: Option<Bucket>, w: Option<Window>, windowMs: int, now: int, evicted: bool) {
    && (w.Some? ==> w.value.count >= 1)
    && match b
       case Some(bucket) =>
         && w == Some(Window(bucket.windowStart, bucket.count))
         && bucket.expiresAt == bucket.lastSeen + windowMs * 2
         && bucket.windowStart <= bucket.lastSeen <= now
         && !evicted
       case None => w.None? || now - w.value.start >= windowMs || evicted
  }

  /** The bucket of `key` in `buckets`, which come from those left by `hits`, matches. */
  ghost predicate KeyMatches(policy: Policy, max: nat, hits: seq<Hit>, buckets: Buckets, now: int, key: string) {
    BucketMatches(Lookup(buckets, key), Current(CounterAfter(policy, hits), key), policy.windowMs(key), now,
      WasEvicted(policy, max, hits, key))
  }

  ghost predicate MemoryMatches(policy: Policy, max: nat, hits: seq<Hit>, now: int) {
    var buckets := MemoryAfter(policy, max, hits);
    buckets.Valid() && forall key :: KeyMatches(policy, max, hits, buckets, now, key)
  }

  /** A request is answered alike and leaves the same window exactly unless its open window is gone; its
      verdict differs exactly when that window was full. */
  lemma HitMatchesIff(b: Option<Bucket>, w: Option<Window>, limit: int, windowMs: int, now: int, evicted: bool)
    requires BucketMatches(b, w, windowMs, now, evicted) && windowMs >= 1 && limit >= 1
    ensures var (b', verdict) := BucketHit(b, limit, windowMs, now);
            var (w', wanted) := WindowHit(w, limit, windowMs, now);
            var loses := w.Some? && now - w.value.start < windowMs && evicted;
            && (verdict == wanted <==> !(loses && w.value.count >= limit))
            && (verdict == wanted && w' == Window(b'.windowStart, b'.count) <==> !loses)
            && (!loses ==> BucketMatches(Some(b'), Some(w'), windowMs, now, false))
  {
  }

  /** Pruning keeps the bucket of an open window, so forgetting an expired one loses nothing. */
  lemma PruneMatches(policy: Policy, max: nat, hits: seq<Hit>, now: int, key: string)
    requires Positive(policy) && MemoryMatches(policy, max, hits, now)
    ensures var buckets := MemoryAfter(policy, max, hits);
            KeyMatches(policy, max, hits, buckets.Restrict(Unexpired(buckets, now)), now, key)
  {
    assert KeyMatches(policy, max, hits, MemoryAfter(policy, max, hits), now, key);
  }

  lemma PlacedExact(policy: Policy, max: nat, hits: seq<Hit>, last: Hit)
    requires MemoryAfter(policy, max, hits).Valid()
    ensures var placed, after := Placed(policy, max, hits, last), MemoryNext(policy, max, hits, last);
            && placed.Valid() && after.Valid() && after.values.Keys <= placed.values.Keys
            && (forall key :: key in after.values ==> after.values[key] == placed.values[key])
            && (|placed.keys| <= max ==> after == placed)
  {
    assert (hits + [last])[..|hits|] == hits;
    var buckets := MemoryAfter(policy, max, hits);
    var pruned := buckets.Restrict(Unexpired(buckets, last.now));
    buckets.RestrictValid(Unexpired(buckets, last.now));
    pruned.PutValid(last.key, Placed(policy, max, hits, last).values[last.key]);
    EvictTakesLeastRecent(Placed(policy, max, hits, last), max);
    EvictKeepsValues(Placed(policy, max, hits, last), max);
  }

  lemma EvictKeepsValues(buckets: Buckets, max: nat)
    ensures var kept := Evict(buckets, max);
            kept.values.Keys <= buckets.values.Keys &&
            forall key :: key in kept.values ==> kept.values[key] == buckets.values[key]
  {
  }

  lemma StepKeepsKey(policy: Policy, max: nat, hits: seq<Hit>, last: Hit, key: string)
    requires Positive(policy) && MemoryMatches(policy, max, hits, last.now) && !Loses(policy, max, hits, last)
    ensures KeyMatches(policy, max, hits + [last], MemoryNext(policy, max, hits, last), last.now, key)
  {
    assert (hits + [last])[..|hits|] == hits;
    PlacedExact(policy, max, hits, last);
    PruneMatches(policy, max, hits, last.now, key);
    var buckets := MemoryAfter(policy, max, hits);
    var pruned := buckets.Restrict(Unexpired(buckets, last.now));
    if key == last.key {
      HitMatchesIff(Lookup(pruned, key), Current(CounterAfter(policy, hits), key), policy.limit(key),
        policy.windowMs(key), last.now, WasEvicted(policy, max, hits, key));
    }
  }

  lemma {:induction false} MemoryRun(policy: Policy, max: nat, hits: seq<Hit>, now: int)
    requires Positive(policy) && InTimeOrder(hits) && NeverLoses(policy, max, hits)
    requires forall i :: 0 <= i < |hits| ==> hits[i].now <= now
    ensures MemoryMatches(policy, max, hits, now)
  {
    if hits != [] {
      var init, last := hits[..|hits| - 1], hits[|hits| - 1];
      assert hits == init + [last];
      PrefixInOrder(init, last);
      MemoryRun(policy, max, init, last.now);
      PlacedExact(policy, max, init, last);
      forall key
        ensures KeyMatches(policy, max, hits, MemoryAfter(policy, max, hits), now, key)
      {
        StepKeepsKey(policy, max, init, last, key);
      }
    }
  }

  /** For a non-decreasing clock and a fixed policy, and after a run in which no request came for an open
      window whose bucket had been evicted, the next verdict and retry time are those of the counter that
      never forgets exactly unless this request comes for such a window and the window is full. */
  lemma MemoryRefinesCounterIff(policy: Policy, max: nat, hits: seq<Hit>, last: Hit)
    requires Positive(policy) && InTimeOrder(hits + [last]) && NeverLoses(policy, max, hits)
    ensures MemoryVerdict(policy, max, hits, last) == CounterVerdict(policy, hits, last) <==>
            !(Loses(policy, max, hits, last) && IsFull(policy, hits, last))
  {
    PrefixInOrder(hits, last);
    MemoryRun(policy, max, hits, last.now);
    MemoryStepIff(policy, max, hits, last);
  }

  /** A request that comes for a lost window passes. */
  lemma LosingPasses(policy: Policy, max: nat, hits: seq<Hit>, last: Hit)
    requires Positive(policy) && InTimeOrder(hits + [last])
    requires NeverLoses(policy, max, hits) && Loses(policy, max, hits, last)
    ensures MemoryVerdict(policy, max, hits, last).Allowed?
  {
    PrefixInOrder(hits, last);
    MemoryRun(policy, max, hits, last.now);
    PruneMatches(policy, max, hits, last.now, last.key);
  }

  /** The bucket placed for the request holds the counter's window. */
  ghost predicate PlacesSameWindow(policy: Policy, max: nat, hits: seq<Hit>, last: Hit) {
    var b, w := Lookup(Placed(policy, max, hits, last), last.key),
      Current(CounterAfter(policy, hits + [last]), last.key);
    b.Some? && w == Some(Window(b.value.windowStart, b.value.count))
  }

  lemma MemoryStepIff(policy: Policy, max: nat, hits: seq<Hit>, last: Hit)
    requires Positive(policy) && MemoryMatches(policy, max, hits, last.now)
    ensures MemoryVerdict(policy, max, hits, last) == CounterVerdict(policy, hits, last) <==>
            !(Loses(policy, max, hits, last) && IsFull(policy, hits, last))
    ensures MemoryVerdict(policy, max, hits, last) == CounterVerdict(policy, hits, last) &&
            PlacesSameWindow(policy, max, hits, last) <==>
            !Loses(policy, max, hits, last)
  {
    assert (hits + [last])[..|hits|] == hits;
    PruneMatches(policy, max, hits, last.now, last.key);
    var buckets := MemoryAfter(policy, max, hits);
    var pruned := buckets.Restrict(Unexpired(buckets, last.now));
    HitMatchesIff(Lookup(pruned, last.key), Current(CounterAfter(policy, hits), last.key), policy.limit(last.key),
      policy.windowMs(last.key), last.now, WasEvicted(policy, max, hits, last.key));
  }

  /** The limiter keeps step with the counter: every request gets the same verdict and places the same
      window. */
  ghost predicate MemoryKeepsStep(policy: Policy, max: nat, hits: seq<Hit>) {
    hits == [] ||
    (var init, last := hits[..|hits| - 1], hits[|hits| - 1];
     && MemoryKeepsStep(policy, max, init)
     && MemoryVerdict(policy, max, init, last) == CounterVerdict(policy, init, last)
     && PlacesSameWindow(policy, max, init, last))
  }

  /** For a non-decreasing clock and a fixed policy, the pruning limiter keeps step with the counter that
      never forgets exactly when no request comes for an open window whose bucket has been evicted. */
  lemma {:induction false} MemoryKeepsStepIff(policy: Policy, max: nat, hits: seq<Hit>)
    requires Positive(policy) && InTimeOrder(hits)
    ensures MemoryKeepsStep(policy, max, hits) <==> NeverLoses(policy, max, hits)
  {
    if hits != [] {
      var init, last := hits[..|hits| - 1], hits[|hits| - 1];
      assert hits == init + [last];
      PrefixInOrder(init, last);
      MemoryKeepsStepIff(policy, max, init);
      if NeverLoses(policy, max, init) {
        MemoryRun(policy, max, init, last.now);
        MemoryStepIff(policy, max, init, last);
      }
    }
  }

  // ----- A cap that is not exceeded -----

  /** With the bucket for `last` in place the cap is not exceeded. */
  ghost predicate Fits(policy: Policy, max: nat, hits: seq<Hit>, last: Hit) {
    |Placed(policy, max, hits, last).keys| <= max
  }

  /** The bucket cap is never exceeded. */
  ghost predicate NeverEvicts(policy: Policy, max: nat, hits: seq<Hit>) {
    hits == [] ||
    (var init, last := hits[..|hits| - 1], hits[|hits| - 1];
     NeverEvicts(policy, max, init) && Fits(policy, max, init, last))
  }

  /** Then no bucket is evicted at all. */
  lemma {:induction false} RoomKeepsBuckets(policy: Policy, max: nat, hits: seq<Hit>)
    requires NeverEvicts(policy, max, hits)
    ensures NeverLoses(policy, max, hits) && forall key :: !WasEvicted(policy, max, hits, key)
    ensures MemoryAfter(policy, max, hits).Valid()
  {
    if hits != [] {
      var init, last := hits[..|hits| - 1], hits[|hits| - 1];
      assert hits == init + [last];
      RoomKeepsBuckets(policy, max, init);
      PlacedExact(policy, max, init, last);
    }
  }

  /** While its cap is not exceeded, the pruning limiter gives every request the verdict and retry time
      of the counter that never forgets. */
  lemma MemoryRefinesCounter(policy: Policy, max: nat, hits: seq<Hit>, last: Hit)
    requires Positive(policy) && InTimeOrder(hits + [last]) && NeverEvicts(policy, max, hits)
    ensures MemoryVerdict(policy, max, hits, last) == CounterVerdict(policy, hits, last)
  {
    RoomKeepsBuckets(policy, max, hits);
    MemoryRefinesCounterIff(policy, max, hits, last);
  }

  lemma PrefixInOrder(hits: seq<Hit>, last: Hit)
    requires InTimeOrder(hits + [last])
    ensures InTimeOrder(hits) && forall i :: 0 <= i < |hits| ==> hits[i].now <= last.now
  {
    var all := hits + [last];
    forall i | 0 <= i < |hits|
      ensures hits[i].now <= last.now
    {
      assert all[i] == hits[i] && all[|hits|] == last;
    }
    forall i, j | 0 <= i < j < |hits|
      ensures hits[i].now <= hits[j].now
    {
      assert all[i] == hits[i] && all[j] == hits[j];
    }
  }

  ghost function Keys(hits: seq<Hit>): set<string> {
    set i | 0 <= i < |hits| :: hits[i].key
  }

  lemma KeysSnoc(hits: seq<Hit>)
    requires hits != []
    ensures Keys(hits) == Keys(hits[..|hits| - 1]) + {hits[|hits| - 1].key}
  {
    var init, last := hits[..|hits| - 1], hits[|hits| - 1];
    forall i | 0 <= i < |init|
      ensures init[i].key in Keys(hits)
    {
      assert hits[i] == init[i];
    }
    assert last.key in Keys(hits);
  }

  lemma {:induction false} BucketKeys(policy: Policy, max: nat, hits: seq<Hit>)
    ensures MemoryAfter(policy, max, hits).Valid() && MemoryAfter(policy, max, hits).values.Keys <= Keys(hits)
  {
    if hits != [] {
      var init, last := hits[..|hits| - 1], hits[|hits| - 1];
      BucketKeys(policy, max, init);
      var buckets := MemoryAfter(policy, max, init);
      KeysSnoc(hits);
      HitKeys(buckets, max, last.key, policy.limit(last.key), policy.windowMs(last.key), last.now);
    }
  }

  lemma HitKeys(buckets: Buckets, max: nat, key: string, limit: int, windowMs: int, now: int)
    requires buckets.Valid()
    ensures MemoryHit(buckets, max, key, limit, windowMs, now).0.Valid()
    ensures MemoryHit(buckets, max, key, limit, windowMs, now).0.values.Keys <= buckets.values.Keys + {key}
  {
    var pruned := buckets.Restrict(Unexpired(buckets, now));
    buckets.RestrictValid(Unexpired(buckets, now));
    var (b, _) := BucketHit(Lookup(pruned, key), limit, windowMs, now);
    pruned.PutValid(key, b);
    EvictTakesLeastRecent(pruned.Put(key, b), max);
  }

  lemma FewKeysFit(policy: Policy, max: nat, hits: seq<Hit>, last: Hit)
    requires |Keys(hits) + {last.key}| <= max
    ensures Fits(policy, max, hits, last)
  {
    var buckets := MemoryAfter(policy, max, hits);
    var pruned := buckets.Restrict(Unexpired(buckets, last.now));
    BucketKeys(policy, max, hits);
    PlacedExact(policy, max, hits, last);
    Placed(policy, max, hits, last).Size();
    SubsetSize(Placed(policy, max, hits, last).values.Keys, Keys(hits) + {last.key});
  }

  /** Requests for at most `max` different keys never exceed the cap. */
  lemma {:induction false} FewKeysNeverEvict(policy: Policy, max: nat, hits: seq<Hit>)
    requires |Keys(hits)| <= max
    ensures NeverEvicts(policy, max, hits)
  {
    if hits != [] {
      var init, last := hits[..|hits| - 1], hits[|hits| - 1];
      KeysSnoc(hits);
      SubsetSize(Keys(init), Keys(hits));
      FewKeysNeverEvict(policy, max, init);
      FewKeysFit(policy, max, init, last);
    }
  }
}
