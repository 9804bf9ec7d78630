/** The Redis rate-limit script, step by step over hash fields with an expiry, and its refinement
    of the plain counter. */
module RedisLimiter {
  import opened RateLimiter
  import opened RateLimiterRefinement
  import opened Wrappers

  /** A Redis hash with the script's fields and the time, on the server's clock, at which it
      expires. */
  datatype Hash = Hash(windowStart: Option<int>, count: Option<int>, lastSeen: Option<int>, expireAt: Option<int>)

  type Db = map<string, Hash>

  const EMPTY := Hash(None, None, None, None)

  /** The server keeps a key up to and including the millisecond in which it expires. */
  predicate HasExpired(h: Hash, serverNow: int) {
    h.expireAt.Some? && h.expireAt.value < serverNow
  }

  /** The hash a command on `key` sees: none once it has expired. */
  function Visible(db: Db, key: string, serverNow: int): Option<Hash> {
    if key in db && !HasExpired(db[key], serverNow) then Some(db[key]) else None
  }

  function OrEmpty(h: Option<Hash>): Hash {
    if h.Some? then h.value else EMPTY
  }

  /** A hash after some of its fields are set; its expiry stays. */
  function WithFields(h: Hash, fields: Hash): Hash {
    Hash(if fields.windowStart.Some? then fields.windowStart else h.windowStart,
         if fields.count.Some? then fields.count else h.count,
         if fields.lastSeen.Some? then fields.lastSeen else h.lastSeen,
         h.expireAt)
  }

  /** The script's effect on the hash of its key and its two replies. */
  function ScriptHit(h: Option<Hash>, limit: int, windowMs: int, now: int, serverNow: int): (Hash, (int, int)) {
    var ttl := windowMs * 2;
    if h.None? || h.value.windowStart.None? || h.value.count.None? || now - h.value.windowStart.value >= windowMs then
      (Hash(Some(now), Some(1), Some(now), Some(serverNow + ttl)), (1, 0))
    else
      var seen := h.value.(lastSeen := Some(now), expireAt := Some(serverNow + ttl));
      if seen.count.value >= limit then
        var retry := windowMs - (now - seen.windowStart.value);
        (seen, (0, if retry < 0 then 0 else retry))
      else (seen.(count := Some(seen.count.value + 1)), (1, 0))
  }

  function ReplyVerdict(reply: (int, int)): Verdict {
    if reply.0 == 1 then Allowed else Denied(if reply.1 < 0 then 0 else reply.1)
  }

  class RedisServer {
    var db: Db

    constructor ()
      ensures db == map[]
    {
      db := map[];
    }

    /** Sets the given fields; an expired key starts as a new hash without an expiry. */
    method Hset(key: string, fields: Hash, serverNow: int)
      modifies this
      ensures db == old(db)[key := WithFields(OrEmpty(Visible(old(db), key, serverNow)), fields)]
    {
      db := db[key := WithFields(OrEmpty(Visible(db, key, serverNow)), fields)];
    }

    /** Lets a key that is not expired expire after `ttl`. */
    method Pexpire(key: string, ttl: int, serverNow: int)
      modifies this
      ensures db == if Visible(old(db), key, serverNow).None? then old(db)
                    else old(db)[key := old(db)[key].(expireAt := Some(serverNow + ttl))]
    {
      if Visible(db, key, serverNow).Some? {
        db := db[key := db[key].(expireAt := Some(serverNow + ttl))];
      }
    }

    method Hget(key: string, serverNow: int) returns (windowStart: Option<int>, count: Option<int>)
      ensures var h := OrEmpty(Visible(db, key, serverNow)); windowStart == h.windowStart && count == h.count
    {
      var h := OrEmpty(Visible(db, key, serverNow));
      return h.windowStart, h.count;
    }

    /** The script, with the guards it applies to its own arguments. */
    method Eval(key: string, now: int, limitArg: int, windowArg: int, serverNow: int) returns (reply: (int, int))
      modifies this
      ensures var limit := if limitArg < 1 then 1 else limitArg;
              var windowMs := if windowArg < 1 then 1 else windowArg;
              var (h, wanted) := ScriptHit(Visible(old(db), key, serverNow), limit, windowMs, now, serverNow);
              reply == wanted && db == old(db)[key := h]
    {
      var limit, windowMs, bucketTtlMs := limitArg, windowArg, windowArg * 2;
      if limit < 1 {
        limit := 1;
      }
      if windowMs < 1 {
        windowMs, bucketTtlMs := 1, 2;
      }
      var existingWindowStart, existingCount := Hget(key, serverNow);
      if existingWindowStart.None? || existingCount.None? {
        Hset(key, Hash(Some(now), Some(1), Some(now), None), serverNow);
        Pexpire(key, bucketTtlMs, serverNow);
        assert db == old(db)[key := Hash(Some(now), Some(1), Some(now), Some(serverNow + bucketTtlMs))];
        return (1, 0);
      }
      var windowStart, count := existingWindowStart.value, existingCount.value;
      if now - windowStart >= windowMs {
        Hset(key, Hash(Some(now), Some(1), Some(now), None), serverNow);
        Pexpire(key, bucketTtlMs, serverNow);
        assert db == old(db)[key := Hash(Some(now), Some(1), Some(now), Some(serverNow + bucketTtlMs))];
        return (1, 0);
      }
      Hset(key, EMPTY.(lastSeen := Some(now)), serverNow);
      Pexpire(key, bucketTtlMs, serverNow);
      assert db == old(db)[key := old(db)[key].(lastSeen := Some(now), expireAt := Some(serverNow + bucketTtlMs))];
      if count >= limit {
        var retryAfterMs := windowMs - (now - windowStart);
        if retryAfterMs < 0 {
          retryAfterMs := 0;
        }
        return (0, retryAfterMs);
      }
      count := count + 1;
      Hset(key, EMPTY.(count := Some(count)), serverNow);
      return (1, 0);
    }

    method RateLimit(key: string, limit: JsNumber, windowMs: JsNumber, nowMs: Option<JsNumber>, clock: int,
            serverNow: int)
      returns (verdict: Verdict)
      modifies this
      ensures var (h, reply) := ScriptHit(Visible(old(db), key, serverNow), NormalizeRateLimitValue(limit),
                                          NormalizeRateLimitValue(windowMs), NormalizeNow(nowMs, clock), serverNow);
              verdict == ReplyVerdict(reply) && db == old(db)[key := h]
    {
      var raw := Eval(key, NormalizeNow(nowMs, clock), NormalizeRateLimitValue(limit),
        NormalizeRateLimitValue(windowMs), serverNow);
      verdict := ReplyVerdict(raw);
    }
  }

  // ----- The script's run -----

  function DbAfter(policy: Policy, hits: seq<Hit>): Db {
    if hits == [] then map[]
    else
      var before, last := DbAfter(policy, hits[..|hits| - 1]), hits[|hits| - 1];
      before[last.key := ScriptHit(Visible(before, last.key, last.serverNow), policy.limit(last.key),
                                   policy.windowMs(last.key), last.now, last.serverNow).0]
  }

  function ScriptVerdict(policy: Policy, hits: seq<Hit>, last: Hit): Verdict {
    ReplyVerdict(ScriptHit(Visible(DbAfter(policy, hits), last.key, last.serverNow), policy.limit(last.key),
                           policy.windowMs(last.key), last.now, last.serverNow).1)
  }

  /** On the server the hash of the key has expired, while its window is still open for the caller. */
  predicate Forgets(policy: Policy, hits: seq<Hit>, last: Hit) {
    var w, previous, windowMs := Current(CounterAfter(policy, hits), last.key), LastHit(hits, last.key),
      policy.windowMs(last.key);
    && w.Some? && last.now - w.value.start < windowMs
    && previous.Some? && last.serverNow - previous.value.serverNow > windowMs * 2
  }

  ghost predicate NeverForgets(policy: Policy, hits: seq<Hit>) {
    hits == [] ||
    (var init, last := hits[..|hits| - 1], hits[|hits| - 1];
     NeverForgets(policy, init) && !Forgets(policy, init, last))
  }

  ghost predicate HashMatches(h: Option<Hash>, w: Option<Window>, previous: Option<Hit>, windowMs: int) {
    match h
    case None => w.None? && previous.None?
    case Some(hash) =>
      && w.Some? && previous.Some?
      && hash.windowStart == Some(w.value.start) && hash.count == Some(w.value.count)
      && hash.expireAt == Some(previous.value.serverNow + windowMs * 2)
      && w.value.start <= previous.value.now && 1 <= w.value.count
  }

  function Stored(db: Db, key: string): Option<Hash> {
    if key in db then Some(db[key]) else None
  }

  /** The hash of one key after `hits` holds the counter's window. */
  ghost predicate KeyMatches(policy: Policy, hits: seq<Hit>, key: string) {
    HashMatches(Stored(DbAfter(policy, hits), key), Current(CounterAfter(policy, hits), key), LastHit(hits, key),
      policy.windowMs(key))
  }

  ghost predicate DbMatches(policy: Policy, hits: seq<Hit>) {
    forall key :: KeyMatches(policy, hits, key)
  }

  /** While the hashes match, the script's verdict on the next request differs from the counter's
      exactly when it forgets a full window. */
  lemma VerdictAgreesIff(policy: Policy, hits: seq<Hit>, last: Hit)
    requires Positive(policy) && DbMatches(policy, hits)
    ensures ScriptVerdict(policy, hits, last) == CounterVerdict(policy, hits, last) <==>
            !(Forgets(policy, hits, last) && IsFull(policy, hits, last))
  {
    assert KeyMatches(policy, hits, last.key);
  }

  lemma StepKeepsMatch(policy: Policy, hits: seq<Hit>, last: Hit)
    requires Positive(policy) && DbMatches(policy, hits) && !Forgets(policy, hits, last)
    requires forall i :: 0 <= i < |hits| ==> hits[i].now <= last.now
    ensures DbMatches(policy, hits + [last])
  {
    var all := hits + [last];
    assert all[..|hits|] == hits;
    LastHitIsPast(hits, last, last.key);
    assert KeyMatches(policy, hits, last.key);
    forall key
      ensures KeyMatches(policy, all, key)
    {
      assert KeyMatches(policy, hits, key);
    }
  }

  lemma {:induction false} LastHitIsPast(hits: seq<Hit>, last: Hit, key: string)
    requires forall i :: 0 <= i < |hits| ==> hits[i].now <= last.now
    ensures LastHit(hits, key).Some? ==> LastHit(hits, key).value.now <= last.now
  {
    if hits != [] {
      LastHitIsPast(hits[..|hits| - 1], last, key);
    }
  }

  lemma {:induction false} RunKeepsMatch(policy: Policy, hits: seq<Hit>)
    requires Positive(policy) && InTimeOrder(hits) && NeverForgets(policy, hits)
    ensures DbMatches(policy, hits)
  {
    if hits != [] {
      var init, last := hits[..|hits| - 1], hits[|hits| - 1];
      assert hits == init + [last];
      PrefixInOrder(init, last);
      RunKeepsMatch(policy, init);
      StepKeepsMatch(policy, init, last);
    }
  }

  // ----- The exact condition over runs -----

  /** After the request the hash holds the counter's window. */
  ghost predicate SameWindow(policy: Policy, hits: seq<Hit>, last: Hit) {
    var h, w := Stored(DbAfter(policy, hits + [last]), last.key),
      Current(CounterAfter(policy, hits + [last]), last.key);
    h.Some? && w.Some? && h.value.windowStart == Some(w.value.start) && h.value.count == Some(w.value.count)
  }

  /** The script keeps step with the counter: every request gets the same verdict, and leaves the same
      window behind. */
  ghost predicate KeepsStep(policy: Policy, hits: seq<Hit>) {
    hits == [] ||
    (var init, last := hits[..|hits| - 1], hits[|hits| - 1];
     && KeepsStep(policy, init)
     && ScriptVerdict(policy, init, last) == CounterVerdict(policy, init, last)
     && SameWindow(policy, init, last))
  }

  /** A request that finds its open window forgotten gets another verdict or leaves another window. */
  lemma StepIsSameIff(policy: Policy, hits: seq<Hit>, last: Hit)
    requires Positive(policy) && DbMatches(policy, hits)
    requires forall i :: 0 <= i < |hits| ==> hits[i].now <= last.now
    ensures ScriptVerdict(policy, hits, last) == CounterVerdict(policy, hits, last) &&
            SameWindow(policy, hits, last) <==>
            !Forgets(policy, hits, last)
  {
    assert (hits + [last])[..|hits|] == hits;
    assert KeyMatches(policy, hits, last.key);
    VerdictAgreesIff(policy, hits, last);
    if !Forgets(policy, hits, last) {
      StepKeepsMatch(policy, hits, last);
      assert KeyMatches(policy, hits + [last], last.key);
    }
  }

  /** For a non-decreasing clock and a fixed policy, the script keeps step with the counter that never
      forgets exactly when no request comes more than two windows after the last one for its key on the
      server's clock while that key's window is still open on the callers' clock. */
  lemma {:induction false} ScriptKeepsStepIff(policy: Policy, hits: seq<Hit>)
    requires Positive(policy) && InTimeOrder(hits)
    ensures KeepsStep(policy, hits) <==> NeverForgets(policy, hits)
  {
    if hits != [] {
      var init, last := hits[..|hits| - 1], hits[|hits| - 1];
      assert hits == init + [last];
      PrefixInOrder(init, last);
      ScriptKeepsStepIff(policy, init);
      if NeverForgets(policy, init) {
        RunKeepsMatch(policy, init);
        StepIsSameIff(policy, init, last);
      }
    }
  }

  /** After a run that forgot no open window, the next verdict and retry time are the counter's exactly
      unless the script now forgets a full window. */
  lemma ScriptRefinesCounterIff(policy: Policy, hits: seq<Hit>, last: Hit)
    requires Positive(policy) && InTimeOrder(hits + [last]) && NeverForgets(policy, hits)
    ensures ScriptVerdict(policy, hits, last) == CounterVerdict(policy, hits, last) <==>
            !(Forgets(policy, hits, last) && IsFull(policy, hits, last))
  {
    PrefixInOrder(hits, last);
    RunKeepsMatch(policy, hits);
    VerdictAgreesIff(policy, hits, last);
  }

  /** When neither implementation has lost an open window before, they answer the next request alike
      exactly unless its window is full and one of them, but not the other, loses it now. */
  lemma ImplementationsAgreeIff(policy: Policy, max: nat, hits: seq<Hit>, last: Hit)
    requires Positive(policy) && InTimeOrder(hits + [last])
    requires NeverLoses(policy, max, hits) && NeverForgets(policy, hits)
    ensures MemoryVerdict(policy, max, hits, last) == ScriptVerdict(policy, hits, last) <==>
            (IsFull(policy, hits, last) ==> (Loses(policy, max, hits, last) <==> Forgets(policy, hits, last)))
  {
    MemoryRefinesCounterIff(policy, max, hits, last);
    ScriptRefinesCounterIff(policy, hits, last);
    if Loses(policy, max, hits, last) {
      LosingPasses(policy, max, hits, last);
    }
    if Forgets(policy, hits, last) {
      ForgettingPasses(policy, hits, last);
    }
  }

  /** A request that comes for a forgotten window passes. */
  lemma ForgettingPasses(policy: Policy, hits: seq<Hit>, last: Hit)
    requires Positive(policy) && InTimeOrder(hits + [last])
    requires NeverForgets(policy, hits) && Forgets(policy, hits, last)
    ensures ScriptVerdict(policy, hits, last).Allowed?
  {
    PrefixInOrder(hits, last);
    RunKeepsMatch(policy, hits);
    assert KeyMatches(policy, hits, last.key);
  }

  // ----- A forgotten window shows -----

  /** A request for the same key after `delay`, on both clocks. */
  function Later(last: Hit, delay: nat): Hit {
    Hit(last.key, last.now + delay, last.serverNow + delay)
  }

  lemma RepeatNext(base: seq<Hit>, hit: Hit, n: nat)
    ensures base + Repeat(hit, n + 1) == base + Repeat(hit, n) + [hit]
    ensures (base + Repeat(hit, n) + [hit])[..|base + Repeat(hit, n)|] == base + Repeat(hit, n)
  {
    assert Repeat(hit, n + 1) == Repeat(hit, n) + [hit];
  }

  /** An open window of the counter fills up. */
  lemma {:induction false} CounterFills(policy: Policy, base: seq<Hit>, hit: Hit, n: nat, w: Window)
    requires Current(CounterAfter(policy, base), hit.key) == Some(w)
    requires hit.now - w.start < policy.windowMs(hit.key) && w.count + n <= policy.limit(hit.key)
    ensures Current(CounterAfter(policy, base + Repeat(hit, n)), hit.key) == Some(Window(w.start, w.count + n))
  {
    if n == 0 {
      assert base + Repeat(hit, 0) == base;
    } else {
      CounterFills(policy, base, hit, n - 1, w);
      RepeatNext(base, hit, n - 1);
    }
  }

  /** A closed one is replaced by one that fills up. */
  lemma {:induction false} CounterRefills(policy: Policy, base: seq<Hit>, hit: Hit, n: nat, w: Window)
    requires Positive(policy) && Current(CounterAfter(policy, base), hit.key) == Some(w)
    requires hit.now - w.start >= policy.windowMs(hit.key) && 1 <= n <= policy.limit(hit.key)
    ensures Current(CounterAfter(policy, base + Repeat(hit, n)), hit.key) == Some(Window(hit.now, n))
  {
    RepeatNext(base, hit, n - 1);
    if n == 1 {
      assert base + Repeat(hit, 0) == base;
    } else {
      CounterRefills(policy, base, hit, n - 1, w);
    }
  }

  /** The key's hash holds an open window and has not expired when `hit` comes. */
  ghost predicate HoldsOpen(policy: Policy, base: seq<Hit>, hit: Hit, start: int, count: int) {
    var h := Stored(DbAfter(policy, base), hit.key);
    && h.Some? && h.value.windowStart == Some(start) && h.value.count == Some(count) &&
      !HasExpired(h.value, hit.serverNow)
    && hit.now - start < policy.windowMs(hit.key)
  }

  /** An open window of the script fills up too. */
  lemma {:induction false} ScriptFills(policy: Policy, base: seq<Hit>, hit: Hit, n: nat, start: int, count: int)
    requires Positive(policy) && HoldsOpen(policy, base, hit, start, count) && count + n <= policy.limit(hit.key)
    ensures HoldsOpen(policy, base + Repeat(hit, n), hit, start, count + n)
  {
    if n == 0 {
      assert base + Repeat(hit, 0) == base;
    } else {
      ScriptFills(policy, base, hit, n - 1, start, count);
      RepeatNext(base, hit, n - 1);
    }
  }

  /** The verdicts on any number of requests for the key that come together, after any delay on both
      clocks. */
  ghost predicate AgreesLater(policy: Policy, base: seq<Hit>, last: Hit) {
    forall delay: nat, n: nat {:trigger Repeat(Later(last, delay), n)} ::
      ScriptVerdict(policy, base + Repeat(Later(last, delay), n), Later(last, delay)) ==
      CounterVerdict(policy, base + Repeat(Later(last, delay), n), Later(last, delay))
  }

  /** A window forgotten before it was full shows later: the script's window closes later, or has counted
      less, than the counter's. */
  lemma ForgottenShows(policy: Policy, hits: seq<Hit>, last: Hit) returns (delay: nat, n: nat)
    requires Positive(policy) && DbMatches(policy, hits) && Forgets(policy, hits, last) && !IsFull(policy, hits, last)
    requires forall i :: 0 <= i < |hits| ==> hits[i].now <= last.now
    ensures var hit := Later(last, delay);
            ScriptVerdict(policy, hits + [last] + Repeat(hit, n), hit) !=
            CounterVerdict(policy, hits + [last] + Repeat(hit, n), hit)
  {
    var base, w := hits + [last], Current(CounterAfter(policy, hits), last.key).value;
    var limit, windowMs := policy.limit(last.key), policy.windowMs(last.key);
    assert base[..|hits|] == hits;
    assert KeyMatches(policy, hits, last.key);
    LastHitIsPast(hits, last, last.key);
    assert Current(CounterAfter(policy, base), last.key) == Some(Window(w.start, w.count + 1));
    if w.start < last.now {
      delay, n := w.start + windowMs - last.now, limit - 1;
      var hit := Later(last, delay);
      ScriptFills(policy, base, hit, n, last.now, 1);
      CounterRefills(policy, base, hit, n, Window(w.start, w.count + 1));
    } else {
      delay, n := 0, limit - w.count - 1;
      CounterFills(policy, base, last, n, Window(w.start, w.count + 1));
      ScriptFills(policy, base, last, n, last.now, 1);
      assert Later(last, 0) == last;
    }
  }

  /** Clocks that run alike never forget: after a matching run, any later requests find the hashes
      matching and nothing forgotten. */
  lemma {:induction false} SteadyKeepsMatch(policy: Policy, base: seq<Hit>, last: Hit, delay: nat, n: nat)
    requires Positive(policy) && DbMatches(policy, base) && LastHit(base, last.key) == Some(last)
    requires forall i :: 0 <= i < |base| ==> base[i].now <= last.now
    ensures var all := base + Repeat(Later(last, delay), n);
            && DbMatches(policy, all) && !Forgets(policy, all, Later(last, delay))
            && forall i :: 0 <= i < |all| ==> all[i].now <= Later(last, delay).now
  {
    var hit, all := Later(last, delay), base + Repeat(Later(last, delay), n);
    if n == 0 {
      assert all == base;
      assert KeyMatches(policy, base, last.key);
    } else {
      SteadyKeepsMatch(policy, base, last, delay, n - 1);
      RepeatNext(base, hit, n - 1);
      StepKeepsMatch(policy, base + Repeat(hit, n - 1), hit);
    }
  }

  /** A request forgets an open window exactly when its own verdict or, with clocks that run alike from
      then on, that of some later request for the key differs from the counter's. */
  lemma ForgettingShowsIff(policy: Policy, hits: seq<Hit>, last: Hit)
    requires Positive(policy) && InTimeOrder(hits + [last]) && NeverForgets(policy, hits)
    ensures Forgets(policy, hits, last) <==>
            !(ScriptVerdict(policy, hits, last) == CounterVerdict(policy, hits, last) &&
              AgreesLater(policy, hits + [last], last))
  {
    PrefixInOrder(hits, last);
    RunKeepsMatch(policy, hits);
    VerdictAgreesIff(policy, hits, last);
    if !Forgets(policy, hits, last) {
      StepKeepsMatch(policy, hits, last);
      assert (hits + [last])[..|hits|] == hits;
      forall delay: nat, n: nat
        ensures var hit := Later(last, delay);
                ScriptVerdict(policy, hits + [last] + Repeat(hit, n), hit) ==
                  CounterVerdict(policy, hits + [last] + Repeat(hit, n), hit)
      {
        SteadyKeepsMatch(policy, hits + [last], last, delay, n);
        VerdictAgreesIff(policy, hits + [last] + Repeat(Later(last, delay), n), Later(last, delay));
      }
    } else if !IsFull(policy, hits, last) {
      var delay, n := ForgottenShows(policy, hits, last);
    }
  }

  // ----- Drift between the two clocks -----

  /** How much the server's clock has gained on the callers' since the last request for the key. */
  function Drift(previous: Hit, last: Hit): int {
    (last.serverNow - previous.serverNow) - (last.now - previous.now)
  }

  ghost predicate AlwaysSmallDrift(policy: Policy, hits: seq<Hit>) {
    hits == [] ||
    (var init, last := hits[..|hits| - 1], hits[|hits| - 1];
     && AlwaysSmallDrift(policy, init)
     && (LastHit(init, last.key).Some? ==> Drift(LastHit(init, last.key).value, last) <= policy.windowMs(last.key) + 1))
  }

  /** A drift of at most one window never makes the script forget an open window. */
  lemma {:induction false} SmallDriftNeverForgets(policy: Policy, hits: seq<Hit>)
    requires Positive(policy) && InTimeOrder(hits) && AlwaysSmallDrift(policy, hits)
    ensures NeverForgets(policy, hits)
  {
    if hits != [] {
      var init, last := hits[..|hits| - 1], hits[|hits| - 1];
      assert hits == init + [last];
      PrefixInOrder(init, last);
      SmallDriftNeverForgets(policy, init);
      RunKeepsMatch(policy, init);
      LastHitIsPast(init, last, last.key);
      assert KeyMatches(policy, init, last.key);
    }
  }

  /** Requests that come together never find their window forgotten. */
  lemma {:induction false} RepeatNeverForgets(policy: Policy, first: Hit, n: nat)
    requires Positive(policy) && n <= policy.limit(first.key)
    ensures NeverForgets(policy, Repeat(first, n))
  {
    if n > 0 {
      var hits := Repeat(first, n);
      assert hits[..n - 1] == Repeat(first, n - 1) && hits[n - 1] == first;
      RepeatNeverForgets(policy, first, n - 1);
      if n > 1 {
        RepeatCounts(policy, first, n - 1);
      } else {
        assert hits[..0] == [];
      }
    }
  }

  /** For every key, limit and window, one millisecond more of drift can be too much: after a full
      window, the request in its last millisecond passes the script though the counter denies it. */
  lemma DriftBoundIsTight(policy: Policy, first: Hit)
    requires Positive(policy)
    ensures var windowMs := policy.windowMs(first.key);
            var hits, last := Repeat(first, policy.limit(first.key)),
              Hit(first.key, first.now + windowMs - 1, first.serverNow + windowMs * 2 + 1);
            && InTimeOrder(hits + [last]) && NeverForgets(policy, hits)
            && Drift(first, last) == windowMs + 2
            && CounterVerdict(policy, hits, last).Denied? && ScriptVerdict(policy, hits, last).Allowed?
  {
    var windowMs := policy.windowMs(first.key);
    var hits, last := Repeat(first, policy.limit(first.key)),
      Hit(first.key, first.now + windowMs - 1, first.serverNow + windowMs * 2 + 1);
    RepeatCounts(policy, first, policy.limit(first.key));
    RepeatNeverForgets(policy, first, policy.limit(first.key));
    RunKeepsMatch(policy, hits);
    assert KeyMatches(policy, hits, first.key);
  }
}
