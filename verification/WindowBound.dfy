/** How many requests the counter lets through. */
module WindowBound {
  import opened RateLimiter
  import opened RateLimiterRefinement
  import opened RedisLimiter
  import opened Wrappers

  /** The requests for `key` that pass with a time in `[from, to)`. */
  function Passes(policy: Policy, hits: seq<Hit>, key: string, from: int, to: int): nat {
    if hits == [] then 0
    else
      var init, last := hits[..|hits| - 1], hits[|hits| - 1];
      Passes(policy, init, key, from, to) +
      if last.key == key && from <= last.now < to && CounterVerdict(policy, init, last).Allowed? then 1 else 0
  }

  /** What the passes in `[from, to)`, one window long, amount to given the key's current window. */
  ghost predicate Bounded(policy: Policy, hits: seq<Hit>, key: string, from: int, passes: nat) {
    var limit, to := policy.limit(key), from + policy.windowMs(key);
    match Current(CounterAfter(policy, hits), key)
    case None => passes == 0
    case Some(w) =>
      && 1 <= w.count <= limit
      && (w.start < from ==> passes <= w.count)
      && (from <= w.start < to ==> passes <= limit + w.count)
      && (to <= w.start ==> passes <= 2 * limit)
  }

  ghost predicate AllBefore(hits: seq<Hit>, time: int) {
    forall i :: 0 <= i < |hits| ==> hits[i].now < time
  }

  lemma {:induction false} NoPassYet(policy: Policy, hits: seq<Hit>, key: string, from: int, to: int)
    requires AllBefore(hits, from)
    ensures Passes(policy, hits, key, from, to) == 0
  {
    if hits != [] {
      NoPassYet(policy, hits[..|hits| - 1], key, from, to);
    }
  }

  lemma {:induction false} WindowHasOpened(policy: Policy, hits: seq<Hit>, key: string, now: int)
    requires forall i :: 0 <= i < |hits| ==> hits[i].now <= now
    ensures match Current(CounterAfter(policy, hits), key) case None => true case Some(w) => w.start <= now
  {
    if hits != [] {
      WindowHasOpened(policy, hits[..|hits| - 1], key, now);
    }
  }

  lemma {:induction false} BoundHolds(policy: Policy, hits: seq<Hit>, key: string, from: int)
    requires Positive(policy) && InTimeOrder(hits)
    ensures Bounded(policy, hits, key, from, Passes(policy, hits, key, from, from + policy.windowMs(key)))
  {
    if hits != [] {
      var init, last := hits[..|hits| - 1], hits[|hits| - 1];
      assert hits == init + [last];
      PrefixInOrder(init, last);
      BoundHolds(policy, init, key, from);
      WindowHasOpened(policy, init, key, last.now);
      if last.now < from {
        NoPassYet(policy, init, key, from, from + policy.windowMs(key));
      }
    }
  }

  /** At most twice the limit passes in any interval one window long. */
  lemma AtMostTwiceTheLimit(policy: Policy, hits: seq<Hit>, key: string, from: int, to: int)
    requires Positive(policy) && InTimeOrder(hits) && to == from + policy.windowMs(key)
    ensures Passes(policy, hits, key, from, to) <= 2 * policy.limit(key)
  {
    BoundHolds(policy, hits, key, from);
  }

  /** Every request so far came before the end of its key's current window, and the window's count
      is the number of requests that passed since it opened. */
  ghost predicate CountIsExact(policy: Policy, hits: seq<Hit>, key: string) {
    match Current(CounterAfter(policy, hits), key)
    case None => forall from, to :: Passes(policy, hits, key, from, to) == 0
    case Some(w) =>
      && 1 <= w.count <= policy.limit(key)
      && Passes(policy, hits, key, w.start, w.start + policy.windowMs(key)) == w.count
      && forall from, to :: from >= w.start + policy.windowMs(key) ==> Passes(policy, hits, key, from, to) == 0
  }

  /** In the window of a key, from its opening on, exactly as many requests pass as it counts, and
      that is at most the limit. */
  lemma {:induction false} AtMostTheLimitPerWindow(policy: Policy, hits: seq<Hit>, key: string)
    requires Positive(policy)
    requires InTimeOrder(hits)
    ensures CountIsExact(policy, hits, key)
  {
    if hits != [] {
      var init, last := hits[..|hits| - 1], hits[|hits| - 1];
      assert hits == init + [last];
      PrefixInOrder(init, last);
      AtMostTheLimitPerWindow(policy, init, key);
      WindowHasOpened(policy, init, key, last.now);
      var w, w' := Current(CounterAfter(policy, init), key), Current(CounterAfter(policy, hits), key);
      if w'.Some? {
        forall from: int, to: int | from >= w'.value.start + policy.windowMs(key)
          ensures Passes(policy, hits, key, from, to) == 0
        {
          assert Passes(policy, init, key, from, to) == 0;
        }
        if w.None? || w.value.start != w'.value.start {
          assert Passes(policy, init, key, last.now, last.now + policy.windowMs(key)) == 0;
        }
      } else {
        forall from: int, to: int
          ensures Passes(policy, hits, key, from, to) == 0
        {
          assert Passes(policy, init, key, from, to) == 0;
        }
      }
    }
  }

  // ----- The same bounds for the two limiters -----

  function MemoryPasses(policy: Policy, max: nat, hits: seq<Hit>, key: string, from: int, to: int): nat {
    if hits == [] then 0
    else
      var init, last := hits[..|hits| - 1], hits[|hits| - 1];
      MemoryPasses(policy, max, init, key, from, to) +
      if last.key == key && from <= last.now < to && MemoryVerdict(policy, max, init, last).Allowed? then 1 else 0
  }

  function ScriptPasses(policy: Policy, hits: seq<Hit>, key: string, from: int, to: int): nat {
    if hits == [] then 0
    else
      var init, last := hits[..|hits| - 1], hits[|hits| - 1];
      ScriptPasses(policy, init, key, from, to) +
      if last.key == key && from <= last.now < to && ScriptVerdict(policy, init, last).Allowed? then 1 else 0
  }

  lemma {:induction false} MemoryPassesAlike(policy: Policy, max: nat, hits: seq<Hit>, key: string, from: int, to: int)
    requires Positive(policy) && InTimeOrder(hits) && NeverLoses(policy, max, hits)
    ensures MemoryPasses(policy, max, hits, key, from, to) == Passes(policy, hits, key, from, to)
  {
    if hits != [] {
      var init, last := hits[..|hits| - 1], hits[|hits| - 1];
      assert hits == init + [last];
      PrefixInOrder(init, last);
      MemoryPassesAlike(policy, max, init, key, from, to);
      MemoryRefinesCounterIff(policy, max, init, last);
    }
  }

  lemma {:induction false} ScriptPassesAlike(policy: Policy, hits: seq<Hit>, key: string, from: int, to: int)
    requires Positive(policy) && InTimeOrder(hits) && NeverForgets(policy, hits)
    ensures ScriptPasses(policy, hits, key, from, to) == Passes(policy, hits, key, from, to)
  {
    if hits != [] {
      var init, last := hits[..|hits| - 1], hits[|hits| - 1];
      assert hits == init + [last];
      PrefixInOrder(init, last);
      ScriptPassesAlike(policy, init, key, from, to);
      ScriptRefinesCounterIff(policy, init, last);
    }
  }

  /** While it loses no open window, the in-memory limiter lets at most twice the limit pass in
      any interval one window long. */
  lemma MemoryPassesAtMostTwice(policy: Policy, max: nat, hits: seq<Hit>, key: string, from: int, to: int)
    requires Positive(policy) && InTimeOrder(hits) && NeverLoses(policy, max, hits)
    requires to == from + policy.windowMs(key)
    ensures MemoryPasses(policy, max, hits, key, from, to) <= 2 * policy.limit(key)
  {
    AtMostTwiceTheLimit(policy, hits, key, from, to);
    MemoryPassesAlike(policy, max, hits, key, from, to);
  }

  /** While it forgets no open window, so does the script. */
  lemma ScriptPassesAtMostTwice(policy: Policy, hits: seq<Hit>, key: string, from: int, to: int)
    requires Positive(policy) && InTimeOrder(hits) && NeverForgets(policy, hits) && to == from + policy.windowMs(key)
    ensures ScriptPasses(policy, hits, key, from, to) <= 2 * policy.limit(key)
  {
    AtMostTwiceTheLimit(policy, hits, key, from, to);
    ScriptPassesAlike(policy, hits, key, from, to);
  }

  /** The current window of a key and where it ends. */
  ghost predicate IsCurrent(policy: Policy, hits: seq<Hit>, key: string, w: Window, to: int) {
    Current(CounterAfter(policy, hits), key) == Some(w) && to == w.start + policy.windowMs(key)
  }

  lemma WindowCount(policy: Policy, hits: seq<Hit>, key: string, w: Window, to: int)
    requires Positive(policy) && InTimeOrder(hits) && IsCurrent(policy, hits, key, w, to)
    ensures Passes(policy, hits, key, w.start, to) == w.count <= policy.limit(key)
  {
    AtMostTheLimitPerWindow(policy, hits, key);
    assert CountIsExact(policy, hits, key);
  }

  /** In the current window of a key the in-memory limiter lets exactly as many requests pass as the
      counter counts, and that is at most the limit. */
  lemma MemoryPassesAtMostTheLimit(policy: Policy, max: nat, hits: seq<Hit>, key: string, w: Window, to: int)
    requires Positive(policy) && InTimeOrder(hits) && NeverLoses(policy, max, hits) &&
             IsCurrent(policy, hits, key, w, to)
    ensures MemoryPasses(policy, max, hits, key, w.start, to) == w.count <= policy.limit(key)
  {
    WindowCount(policy, hits, key, w, to);
    MemoryPassesAlike(policy, max, hits, key, w.start, to);
  }

  /** So does the script. */
  lemma ScriptPassesAtMostTheLimit(policy: Policy, hits: seq<Hit>, key: string, w: Window, to: int)
    requires Positive(policy) && InTimeOrder(hits) && NeverForgets(policy, hits) && IsCurrent(policy, hits, key, w, to)
    ensures ScriptPasses(policy, hits, key, w.start, to) == w.count <= policy.limit(key)
  {
    WindowCount(policy, hits, key, w, to);
    ScriptPassesAlike(policy, hits, key, w.start, to);
  }
}
