/** The bounded store answers like an unbounded time-to-live map, except for keys pushed out by
    `maxEntries` more recently used ones. */
module KvSimulation {
  import opened KvStore
  import opened OrderedMaps
  import opened Sequences
  import opened Wrappers

  datatype Op =
    | Get(key: string)
    | Set(key: string, value: string, ttl: Option<JsNumber>)
    | Del(key: string)
    | ClearByPrefix(prefix: string)

  datatype Request = Request(op: Op, now: int)

  /** A value with the time it was set and the time to live it was given. */
  datatype TimedValue = TimedValue(value: string, setAt: int, ttl: Option<JsNumber>)

  /** A value lives for the whole milliseconds of its time to live; without a finite one of at least a
      millisecond it lives for ever. */
  predicate Lives(v: TimedValue, now: int) {
    v.ttl.Some? && v.ttl.value.Finite? && v.ttl.value.r >= 1.0 ==> now - v.setAt < v.ttl.value.r.Floor
  }

  type Ideal = map<string, TimedValue>

  /** The entry the store keeps for a value. */
  function EntryOf(v: TimedValue): CacheEntry {
    CacheEntry(v.value, ExpiresAt(v.ttl, v.setAt))
  }

  /** The store's entry counts as expired exactly when the value no longer lives. */
  lemma ExpiredIff(v: TimedValue, now: int)
    ensures Expired(EntryOf(v), now) <==> !Lives(v, now)
  {
  }

  // ----- The two machines, and what counts as a use -----

  function StoreStep(m: Contents, max: nat, request: Request): (Contents, Option<string>)
    requires m.Valid()
  {
    match request.op
    case Get(key) => StoreGet(m, key, request.now)
    case Set(key, value, ttl) => (StoreSet(m, max, key, value, ttl, request.now), None)
    case Del(key) => (m.Remove(key), None)
    case ClearByPrefix(prefix) => (StoreClear(m, prefix), None)
  }

  function IdealGet(ideal: Ideal, key: string, now: int): Option<string> {
    if key in ideal && Lives(ideal[key], now) then Some(ideal[key].value) else None
  }

  function IdealStep(ideal: Ideal, request: Request): (Ideal, Option<string>) {
    match request.op
    case Get(key) => (ideal, IdealGet(ideal, key, request.now))
    case Set(key, value, ttl) => (ideal[key := TimedValue(value, request.now, ttl)], None)
    case Del(key) => (ideal - {key}, None)
    case ClearByPrefix(prefix) =>
      (if prefix == "" then ideal else map k | k in ideal && !(prefix <= k) :: ideal[k], None)
  }

  /** The keys inserted or hit, in order. Setting a key the store still holds is neither. */
  function UseStep(m: Contents, uses: seq<string>, request: Request): seq<string> {
    match request.op
    case Get(key) => if StoreGet(m, key, request.now).1.Some? then uses + [key] else uses
    case Set(key, _, _) => if key !in m.values then uses + [key] else uses
    case _ => uses
  }

  /** The distinct keys used after the last use of `key`. */
  function Since(uses: seq<string>, key: string): set<string> {
    if uses == [] || uses[|uses| - 1] == key then {} else Since(uses[..|uses| - 1], key) + {uses[|uses| - 1]}
  }

  ghost predicate PushedOut(uses: seq<string>, key: string, max: nat) {
    key in uses && |Since(uses, key)| >= max
  }

  /** Each key of `keys` was used after all the keys before it. */
  ghost predicate InOrder(keys: seq<string>, uses: seq<string>) {
    keys == [] ||
    (var init, last := keys[..|keys| - 1], keys[|keys| - 1];
     InOrder(init, uses) && forall k :: k in init ==> last in Since(uses, k))
  }

  /** The simulation relation. */
  ghost predicate Related(m: Contents, ideal: Ideal, uses: seq<string>, max: nat, now: int) {
    && m.Valid() && "" !in m.values
    && (forall k :: k in m.values ==> k in ideal && EntryOf(ideal[k]) == m.values[k] && k in uses)
    && InOrder(m.keys, uses)
    && (forall k :: k in ideal && k !in m.values ==> !Lives(ideal[k], now) || PushedOut(uses, k, max))
  }

  // ----- Uses -----

  lemma SinceUse(uses: seq<string>, used: string, key: string)
    ensures Since(uses + [used], key) == if used == key then {} else Since(uses, key) + {used}
  {
    assert (uses + [used])[..|uses|] == uses;
  }

  lemma StaysPushedOut(uses: seq<string>, used: string, key: string, max: nat)
    requires PushedOut(uses, key, max) && used != key
    ensures PushedOut(uses + [used], key, max)
  {
    SinceUse(uses, used, key);
    SubsetSize(Since(uses, key), Since(uses + [used], key));
  }

  lemma {:induction false} OrderAfterUse(keys: seq<string>, uses: seq<string>, used: string)
    requires InOrder(keys, uses) && used !in keys
    ensures InOrder(keys, uses + [used])
  {
    if keys != [] {
      var init, last := keys[..|keys| - 1], keys[|keys| - 1];
      OrderAfterUse(init, uses, used);
      forall k | k in init
        ensures last in Since(uses + [used], k)
      {
        SinceUse(uses, used, k);
      }
    }
  }

  lemma OrderAppend(keys: seq<string>, uses: seq<string>, used: string)
    requires InOrder(keys, uses) && used !in keys
    ensures InOrder(keys + [used], uses + [used])
  {
    OrderAfterUse(keys, uses, used);
    assert (keys + [used])[..|keys|] == keys;
    forall k | k in keys
      ensures used in Since(uses + [used], k)
    {
      SinceUse(uses, used, k);
    }
  }

  lemma {:induction false} OrderKeep(keys: seq<string>, uses: seq<string>, alive: set<string>)
    requires InOrder(keys, uses)
    ensures InOrder(Keep(keys, alive), uses)
  {
    if keys != [] {
      var init, last := keys[..|keys| - 1], keys[|keys| - 1];
      OrderKeep(init, uses, alive);
      KeepExact(init, alive);
      var kept := Keep(init, alive);
      if last in alive {
        assert (kept + [last])[..|kept|] == kept;
        forall k | k in kept
          ensures last in Since(uses, k)
        {
          assert k in Elements(kept);
        }
      } else {
        assert kept + [] == kept;
      }
    }
  }

  /** Every other key was used after the front one. */
  lemma {:induction false} FrontIsOldest(keys: seq<string>, uses: seq<string>)
    requires InOrder(keys, uses) && keys != []
    ensures forall k :: k in keys[1..] ==> k in Since(uses, keys[0])
  {
    if |keys| > 1 {
      var init, last := keys[..|keys| - 1], keys[|keys| - 1];
      FrontIsOldest(init, uses);
      assert keys[1..] == init[1..] + [last];
      assert keys[0] in init;
    }
  }

  // ----- The relation is kept -----

  lemma RelatedRestrict(m: Contents, ideal: Ideal, uses: seq<string>, max: nat, now: int, alive: set<string>)
    requires Related(m, ideal, uses, max, now)
    requires forall k :: k in m.values && k !in alive ==> Expired(m.values[k], now) || PushedOut(uses, k, max)
    ensures Related(m.Restrict(alive), ideal, uses, max, now)
  {
    forall k | k in m.values
      ensures Expired(m.values[k], now) <==> !Lives(ideal[k], now)
    {
      ExpiredIff(ideal[k], now);
    }
    m.RestrictValid(alive);
    OrderKeep(m.keys, uses, alive);
  }

  /** The entries of the ideal map with a key in `alive`. */
  function Only(ideal: Ideal, alive: set<string>): Ideal {
    map k | k in ideal && k in alive :: ideal[k]
  }

  lemma RelatedRestrictBoth(m: Contents, ideal: Ideal, uses: seq<string>, max: nat, now: int, alive: set<string>)
    requires Related(m, ideal, uses, max, now)
    ensures Related(m.Restrict(alive), Only(ideal, alive), uses, max, now)
  {
    m.RestrictValid(alive);
    OrderKeep(m.keys, uses, alive);
    assert forall k :: k in m.Restrict(alive).values ==>
      k in Only(ideal, alive) && EntryOf(Only(ideal, alive)[k]) == m.Restrict(alive).values[k];
  }

  /** A use of `key`: the new contents hold it last, and everything else as before. */
  ghost predicate UsedLast(m: Contents, m': Contents, uses: seq<string>, key: string) {
    && m'.Valid() && m'.values.Keys == m.values.Keys + {key} && InOrder(m'.keys, uses + [key])
    && forall k :: k in m.values && k != key ==> m'.values[k] == m.values[k]
  }

  lemma RelatedUse(m: Contents, m': Contents, ideal: Ideal, uses: seq<string>, max: nat, now: int, key: string,
          v: TimedValue)
    requires Related(m, ideal, uses, max, now) && key != ""
    requires UsedLast(m, m', uses, key) && m'.values[key] == EntryOf(v)
    ensures Related(m', ideal[key := v], uses + [key], max, now)
  {
    forall k | k in ideal[key := v] && k !in m'.values
      ensures k in ideal && k !in m.values && (!Lives(ideal[k], now) || PushedOut(uses + [key], k, max))
    {
      if PushedOut(uses, k, max) {
        StaysPushedOut(uses, key, k, max);
      }
    }
  }

  lemma MovedIsUsed(m: Contents, others: seq<string>, uses: seq<string>, key: string)
    requires key in m.values && OrderedMap(others + [key], m.values).Valid()
    requires InOrder(others, uses) && key !in others
    ensures UsedLast(m, OrderedMap(others + [key], m.values), uses, key)
  {
    OrderAppend(others, uses, key);
    assert m.values.Keys == m.values.Keys + {key};
  }

  lemma SetToItself(ideal: Ideal, key: string)
    requires key in ideal
    ensures ideal[key := ideal[key]] == ideal
  {
  }

  lemma RelatedMoved(m: Contents, others: seq<string>, ideal: Ideal, uses: seq<string>, max: nat, now: int, key: string)
    requires Related(m, ideal, uses, max, now) && key in m.values
    requires OrderedMap(others + [key], m.values).Valid() && InOrder(others, uses) && key !in others
    ensures Related(OrderedMap(others + [key], m.values), ideal, uses + [key], max, now)
  {
    MovedIsUsed(m, others, uses, key);
    RelatedUse(m, OrderedMap(others + [key], m.values), ideal, uses, max, now, key, ideal[key]);
    SetToItself(ideal, key);
  }

  lemma RelatedHit(m: Contents, ideal: Ideal, uses: seq<string>, max: nat, now: int, key: string)
    requires Related(m, ideal, uses, max, now) && key in m.values
    ensures Related(m.Remove(key).Put(key, m.values[key]), ideal, uses + [key], max, now)
    ensures |m.Remove(key).Put(key, m.values[key]).keys| == |m.keys|
  {
    var alive := m.values.Keys - {key};
    OrderKeep(m.keys, uses, alive);
    m.Refresh(key);
    RelatedMoved(m, Keep(m.keys, alive), ideal, uses, max, now, key);
  }

  lemma RelatedInsert(m: Contents, ideal: Ideal, uses: seq<string>, max: nat, now: int, key: string, v: TimedValue)
    requires Related(m, ideal, uses, max, now) && key != "" && key !in m.values
    ensures Related(m.Put(key, EntryOf(v)), ideal[key := v], uses + [key], max, now)
  {
    m.PutValid(key, EntryOf(v));
    assert key !in Elements(m.keys);
    OrderAppend(m.keys, uses, key);
    RelatedUse(m, m.Put(key, EntryOf(v)), ideal, uses, max, now, key, v);
  }

  lemma RelatedPut(m: Contents, ideal: Ideal, uses: seq<string>, max: nat, now: int, key: string, v: TimedValue)
    requires Related(m, ideal, uses, max, now) && key != ""
    ensures Related(m.Put(key, EntryOf(v)), ideal[key := v], if key in m.values then uses else uses + [key], max, now)
  {
    if key in m.values {
      m.PutValid(key, EntryOf(v));
    } else {
      RelatedInsert(m, ideal, uses, max, now, key, v);
    }
  }

  /** Eviction only takes keys that `max` others were used after. */
  lemma {:induction false} RelatedEnforce(m: Contents, ideal: Ideal, uses: seq<string>, max: nat, now: int)
    requires Related(m, ideal, uses, max, now)
    ensures Related(Enforce(m, max), ideal, uses, max, now) && |Enforce(m, max).keys| <= max
    decreases |m.keys|
  {
    if |m.keys| > max {
      var front := m.keys[0];
      assert front in Elements(m.keys);
      FrontIsPushedOut(m.keys, uses, max);
      RelatedRestrict(m, ideal, uses, max, now, m.values.Keys - {front});
      RemoveFront(m);
      RelatedEnforce(m.Remove(front), ideal, uses, max, now);
    }
  }

  lemma FrontIsPushedOut(keys: seq<string>, uses: seq<string>, max: nat)
    requires NoDuplicates(keys) && InOrder(keys, uses) && |keys| > max && keys[0] in uses
    ensures PushedOut(uses, keys[0], max)
  {
    FrontIsOldest(keys, uses);
    assert keys == [keys[0]] + keys[1..];
    assert [] + keys == keys;
    DistinctSplit([], keys);
    DistinctLength(keys[1..]);
    SubsetSize(Elements(keys[1..]), Since(uses, keys[0]));
  }

  lemma {:induction false} EnforceKeepsLast(m: Contents, max: nat)
    requires m.Valid() && m.keys != [] && max >= 1
    ensures m.keys[|m.keys| - 1] in Enforce(m, max).values
    ensures Enforce(m, max).values[m.keys[|m.keys| - 1]] == m.values[m.keys[|m.keys| - 1]]
    decreases |m.keys|
  {
    var last := m.keys[|m.keys| - 1];
    assert last in Elements(m.keys);
    if |m.keys| > max && m.keys[0] != "" {
      var m' := m.Remove(m.keys[0]);
      RemoveFront(m);
      DistinctTake(m.keys, |m.keys| - 1);
      assert m.keys[0] in m.keys[..|m.keys| - 1];
      assert m'.keys[|m'.keys| - 1] == last;
      EnforceKeepsLast(m', max);
    }
  }

  // ----- Steps and runs -----

  predicate NonEmptyKeys(request: Request) {
    match request.op
    case Get(key) => key != ""
    case Set(key, _, _) => key != ""
    case Del(key) => key != ""
    case ClearByPrefix(_) => true
  }

  lemma RelatedSet(m: Contents, ideal: Ideal, uses: seq<string>, max: nat, now: int, key: string, value: string,
          ttl: Option<JsNumber>)
    requires Related(m, ideal, uses, max, now) && key != "" && max >= 1 && |m.keys| <= max
    ensures Related(StoreSet(m, max, key, value, ttl, now), ideal[key := TimedValue(value, now, ttl)],
                    if key in m.values then uses else uses + [key], max, now)
    ensures |StoreSet(m, max, key, value, ttl, now).keys| <= max
    ensures key in StoreSet(m, max, key, value, ttl, now).values
  {
    var v := TimedValue(value, now, ttl);
    var uses' := if key in m.values then uses else uses + [key];
    var put := m.Put(key, EntryOf(v));
    RelatedPut(m, ideal, uses, max, now, key, v);
    var live := put.Restrict(Live(put, now));
    RelatedRestrict(put, ideal[key := v], uses', max, now, Live(put, now));
    RelatedEnforce(live, ideal[key := v], uses', max, now);
    put.RestrictValid(Live(put, now));
    assert key in live.values;
    if key in m.values {
      m.Size();
      live.Size();
      put.Size();
    } else {
      EnforceKeepsLast(live, max);
    }
  }

  /** One request keeps the relation and the bound, and is answered alike except where the store
      has pushed the key out; a key just set is held. */
  ghost predicate StepSimulates(m: Contents, ideal: Ideal, uses: seq<string>, max: nat, request: Request)
    requires m.Valid()
  {
    var (m', answer) := StoreStep(m, max, request);
    var (ideal', wanted) := IdealStep(ideal, request);
    && Related(m', ideal', UseStep(m, uses, request), max, request.now)
    && |m'.keys| <= max
    && (answer == None || answer == wanted)
    && (request.op.Get? && answer != wanted ==> PushedOut(uses, request.op.key, max))
    && (request.op.Set? ==> request.op.key in m'.values && m'.values[request.op.key].value == request.op.value)
  }

  /** The requests the store takes. */
  ghost predicate Accepts(m: Contents, ideal: Ideal, uses: seq<string>, max: nat, request: Request) {
    Related(m, ideal, uses, max, request.now) && |m.keys| <= max && max >= 1 && NonEmptyKeys(request)
  }

  lemma HitIsSimulated(m: Contents, ideal: Ideal, uses: seq<string>, max: nat, request: Request)
    requires Accepts(m, ideal, uses, max, request) && request.op.Get? && request.op.key in m.values
    requires !Expired(m.values[request.op.key], request.now)
    ensures StepSimulates(m, ideal, uses, max, request)
  {
    ExpiredIff(ideal[request.op.key], request.now);
    RelatedHit(m, ideal, uses, max, request.now, request.op.key);
  }

  lemma GetIsSimulated(m: Contents, ideal: Ideal, uses: seq<string>, max: nat, request: Request)
    requires Accepts(m, ideal, uses, max, request) && request.op.Get?
    ensures StepSimulates(m, ideal, uses, max, request)
  {
    var key := request.op.key;
    if key in m.values {
      ExpiredIff(ideal[key], request.now);
      if Expired(m.values[key], request.now) {
        m.RestrictValid(m.values.Keys - {key});
        RelatedRestrict(m, ideal, uses, max, request.now, m.values.Keys - {key});
      } else {
        HitIsSimulated(m, ideal, uses, max, request);
      }
    }
  }

  lemma DelIsSimulated(m: Contents, ideal: Ideal, uses: seq<string>, max: nat, request: Request)
    requires Accepts(m, ideal, uses, max, request) && request.op.Del?
    ensures StepSimulates(m, ideal, uses, max, request)
  {
    var key := request.op.key;
    var alive := (m.values.Keys + ideal.Keys) - {key};
    RelatedRestrictBoth(m, ideal, uses, max, request.now, alive);
    RestrictSame(m, alive, m.values.Keys - {key});
    assert Only(ideal, alive) == ideal - {key};
    m.RestrictValid(alive);
  }

  lemma ClearIsSimulated(m: Contents, ideal: Ideal, uses: seq<string>, max: nat, request: Request)
    requires Accepts(m, ideal, uses, max, request) && request.op.ClearByPrefix?
    ensures StepSimulates(m, ideal, uses, max, request)
  {
    var prefix := request.op.prefix;
    if prefix != "" {
      var alive := Outside(m.values.Keys + ideal.Keys, prefix);
      RelatedRestrictBoth(m, ideal, uses, max, request.now, alive);
      RestrictSame(m, alive, Unprefixed(m, prefix));
      OnlyOutside(ideal, m.values.Keys + ideal.Keys, prefix);
      m.RestrictValid(alive);
    }
  }

  function Outside(keys: set<string>, prefix: string): set<string> {
    set k | k in keys && !(prefix <= k)
  }

  lemma OnlyOutside(ideal: Ideal, keys: set<string>, prefix: string)
    requires ideal.Keys <= keys
    ensures Only(ideal, Outside(keys, prefix)) == map k | k in ideal && !(prefix <= k) :: ideal[k]
  {
  }

  lemma StepIsSimulated(m: Contents, ideal: Ideal, uses: seq<string>, max: nat, request: Request)
    requires Accepts(m, ideal, uses, max, request)
    ensures StepSimulates(m, ideal, uses, max, request)
  {
    match request.op {
      case Get(_) => GetIsSimulated(m, ideal, uses, max, request);
      case Set(key, value, ttl) => RelatedSet(m, ideal, uses, max, request.now, key, value, ttl);
      case Del(_) => DelIsSimulated(m, ideal, uses, max, request);
      case ClearByPrefix(_) => ClearIsSimulated(m, ideal, uses, max, request);
    }
  }

  /** Both machines and the use history after a sequence of requests. */
  datatype Machines = Machines(store: Contents, ideal: Ideal, uses: seq<string>)

  ghost function After(max: nat, requests: seq<Request>): Machines {
    if requests == [] then Machines(OrderedMap([], map[]), map[], [])
    else
      var before, last := After(max, requests[..|requests| - 1]), requests[|requests| - 1];
      if before.store.Valid() then
        Machines(StoreStep(before.store, max, last).0, IdealStep(before.ideal, last).0,
          UseStep(before.store, before.uses, last))
      else before
  }

  ghost predicate InTimeOrder(requests: seq<Request>) {
    forall i, j :: 0 <= i < j < |requests| ==> requests[i].now <= requests[j].now
  }

  ghost predicate AllNonEmpty(requests: seq<Request>) {
    forall i :: 0 <= i < |requests| ==> NonEmptyKeys(requests[i])
  }

  lemma {:induction false} RunIsRelated(max: nat, requests: seq<Request>, now: int)
    requires max >= 1 && InTimeOrder(requests) && AllNonEmpty(requests)
    requires forall i :: 0 <= i < |requests| ==> requests[i].now <= now
    ensures var s := After(max, requests); Related(s.store, s.ideal, s.uses, max, now) && |s.store.keys| <= max
  {
    if requests != [] {
      var init, last := requests[..|requests| - 1], requests[|requests| - 1];
      RunIsRelated(max, init, last.now);
      var before := After(max, init);
      StepIsSimulated(before.store, before.ideal, before.uses, max, last);
      var s := After(max, requests);
    }
  }

  /** For every sequence of requests with a non-decreasing clock and non-empty keys: a get answers
      null or what the unbounded map answers; it misses a live key only if at least `max` distinct
      other keys were inserted or hit since that key's last insertion or hit; the size never
      exceeds `max`; and a key just set is held with its value. */
  lemma StoreSimulatesIdeal(max: nat, requests: seq<Request>, i: nat)
    requires max >= 1 && InTimeOrder(requests) && AllNonEmpty(requests) && i < |requests|
    ensures var s := After(max, requests[..i]);
            s.store.Valid() && StepSimulates(s.store, s.ideal, s.uses, max, requests[i])
  {
    RunIsRelated(max, requests[..i], requests[i].now);
    var s := After(max, requests[..i]);
    StepIsSimulated(s.store, s.ideal, s.uses, max, requests[i]);
  }

  /** After a set the store holds no value whose time to live has passed. */
  lemma SetLeavesTheLiving(max: nat, requests: seq<Request>, i: nat, key: string)
    requires max >= 1 && InTimeOrder(requests) && AllNonEmpty(requests) && i < |requests| && requests[i].op.Set?
    ensures var s := After(max, requests[..i]);
            var ideal := IdealStep(s.ideal, requests[i]).0;
            s.store.Valid() &&
            (key in StoreStep(s.store, max, requests[i]).0.values ==>
               key in ideal && Lives(ideal[key], requests[i].now))
  {
    StoreSimulatesIdeal(max, requests, i);
    var s, set_ := After(max, requests[..i]), requests[i].op;
    var put := s.store.Put(set_.key, CacheEntry(set_.value, ExpiresAt(set_.ttl, requests[i].now)));
    s.store.PutValid(set_.key, CacheEntry(set_.value, ExpiresAt(set_.ttl, requests[i].now)));
    put.RestrictValid(Live(put, requests[i].now));
    EnforceKeepsValues(put.Restrict(Live(put, requests[i].now)), max);
    var ideal := IdealStep(s.ideal, requests[i]).0;
    if key in ideal {
      ExpiredIff(ideal[key], requests[i].now);
    }
  }

  lemma {:induction false} EnforceKeepsValues(m: Contents, max: nat)
    requires m.Valid()
    ensures forall k :: k in Enforce(m, max).values ==> k in m.values && Enforce(m, max).values[k] == m.values[k]
    decreases |m.keys|
  {
    if |m.keys| > max && m.keys[0] != "" {
      RemoveFront(m);
      EnforceKeepsValues(m.Remove(m.keys[0]), max);
    }
  }

  // ----- How long a value is answered -----

  /** The request sets, deletes or clears the key. */
  predicate Changes(request: Request, key: string) {
    match request.op
    case Get(_) => false
    case Set(k, _, _) => k == key
    case Del(k) => k == key
    case ClearByPrefix(prefix) => prefix != "" && prefix <= key
  }

  /** A value stays in the unbounded map until its key is changed. */
  lemma {:induction false} ValueStays(max: nat, requests: seq<Request>, i: nat, j: nat)
    requires max >= 1 && InTimeOrder(requests) && AllNonEmpty(requests) && i < j <= |requests| && requests[i].op.Set?
    requires forall k :: i < k < j ==> !Changes(requests[k], requests[i].op.key)
    ensures var set_ := requests[i].op;
            var ideal := After(max, requests[..j]).ideal;
            set_.key in ideal && ideal[set_.key] == TimedValue(set_.value, requests[i].now, set_.ttl)
    decreases j
  {
    var before, last := requests[..j - 1], requests[j - 1];
    assert requests[..j][..j - 1] == before && requests[..j][j - 1] == last;
    RunIsRelated(max, before, last.now);
    if i < j - 1 {
      ValueStays(max, requests, i, j - 1);
    }
  }

  /** A get that follows a set, with no other change of the key in between, answers the value set exactly as
      long as its time to live has not passed, unless the key was pushed out: with a finite time to live of
      at least a millisecond that is while fewer than its whole milliseconds have passed, and else for
      ever. */
  lemma GetAfterSet(max: nat, requests: seq<Request>, i: nat, j: nat)
    requires max >= 1 && InTimeOrder(requests) && AllNonEmpty(requests) && i < j < |requests|
    requires requests[i].op.Set? && requests[j].op == Get(requests[i].op.key)
    requires forall k :: i < k < j ==> !Changes(requests[k], requests[i].op.key)
    ensures var s, set_ := After(max, requests[..j]), requests[i].op;
            var answer, age := StoreGet(s.store, set_.key, requests[j].now).1, requests[j].now - requests[i].now;
            var forever := set_.ttl.None? || set_.ttl.value.NotFinite? || set_.ttl.value.r < 1.0;
            && (answer.Some? ==> answer.value == set_.value && (forever || age < set_.ttl.value.r.Floor))
            && (answer.None? && (forever || age < set_.ttl.value.r.Floor) ==> PushedOut(s.uses, set_.key, max))
  {
    ValueStays(max, requests, i, j);
    StoreSimulatesIdeal(max, requests, j);
    AnswerIff(After(max, requests[..j]), max, requests[j],
      TimedValue(requests[i].op.value, requests[i].now, requests[i].op.ttl));
  }

  lemma AnswerIff(s: Machines, max: nat, request: Request, v: TimedValue)
    requires s.store.Valid() && StepSimulates(s.store, s.ideal, s.uses, max, request) && request.op.Get?
    requires request.op.key in s.ideal && s.ideal[request.op.key] == v
    ensures var answer := StoreGet(s.store, request.op.key, request.now).1;
            && (answer.Some? ==> answer.value == v.value && Lives(v, request.now))
            && (answer.None? && Lives(v, request.now) ==> PushedOut(s.uses, request.op.key, max))
  {
  }
}
