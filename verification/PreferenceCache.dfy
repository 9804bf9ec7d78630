/** The cached mail-content preference: fetches, per-user writers and cache operations interleave in
    single steps. */
module PreferenceCache {
  import opened Wrappers

  type User = string

  type FetchId = nat

  /** A cache operation; issued operations take effect in the order of issue. */
  datatype CacheOp = Put(user: User, value: bool) | Drop(user: User) | DropAll

  /** A database fetch: started, holding the row it read, waiting for its cache write, or only to
      be cleaned up. `version` is the user's version when it started. */
  datatype FetchPhase = Waiting | HasRow(value: bool) | Writing(ticket: nat) | Settled

  datatype Fetch = Fetch(user: User, version: nat, phase: FetchPhase)

  /** A writer between its database write and its set or clear call, and then between the issue of
      its cache operation, number `ticket`, and the end of that call. */
  datatype Writer = Idle | Stored | Issued(ticket: nat)

  /** `ops` lists all cache operations ever issued; the first `applied` of them have taken effect.
      `clears` holds the operations of the global clears still waiting for them to take effect. */
  datatype System = System(
    db: map<User, bool>, cache: map<User, bool>, versions: map<User, nat>, inFlight: map<User, FetchId>,
    fetches: map<FetchId, Fetch>, writers: map<User, Writer>, ops: seq<CacheOp>, applied: nat, clears: set<nat>)

  const INITIAL := System(map[], map[], map[], map[], map[], map[], [], 0, {})

  /** The stored preference; a missing row counts as true. */
  function Row(s: System, user: User): bool {
    if user in s.db then s.db[user] else true
  }

  function Version(s: System, user: User): nat {
    if user in s.versions then s.versions[user] else 0
  }

  function WriterOf(s: System, user: User): Writer {
    if user in s.writers then s.writers[user] else Idle
  }

  datatype Step =
    | StartFetch(id: FetchId, user: User)   // a read that missed the cache and found no fetch to join
    | ReadRow(id: FetchId)                  // the database answers
    | Resolve(id: FetchId)                  // the version check and the issue of the cache write
    | FinishFetch(id: FetchId)
    | FailFetch(id: FetchId)
    | WriteDb(user: User, value: Option<bool>)  // a writer starts; None leaves the row as it is
    | CallSet(user: User)                   // the set call, with the stored value
    | CallClear(user: User)                 // the clear call for one user
    | FinishWrite(user: User)
    | ApplyOp                               // the oldest pending cache operation takes effect
    | Expire(user: User)                    // a cache entry times out or is evicted
    | CallClearAll                          // the clear call without a user
    | ResetAll(ticket: nat)                 // its operation has taken effect: the tables are reset

  predicate Enabled(s: System, step: Step) {
    match step
    case StartFetch(id, user) => id !in s.fetches && user !in s.inFlight
    case ReadRow(id) => id in s.fetches && s.fetches[id].phase.Waiting?
    case Resolve(id) => id in s.fetches && s.fetches[id].phase.HasRow?
    case FinishFetch(id) =>
      id in s.fetches && (s.fetches[id].phase.Settled? ||
        (s.fetches[id].phase.Writing? && s.applied > s.fetches[id].phase.ticket))
    case FailFetch(id) => id in s.fetches && s.fetches[id].phase.Waiting?
    case WriteDb(user, _) => WriterOf(s, user).Idle?
    case CallSet(user) => WriterOf(s, user).Stored?
    case CallClear(user) => WriterOf(s, user).Stored?
    case FinishWrite(user) => WriterOf(s, user).Issued? && s.applied > WriterOf(s, user).ticket
    case ApplyOp => s.applied < |s.ops|
    case Expire(user) => user in s.cache
    case CallClearAll => true
    case ResetAll(ticket) => ticket in s.clears && s.applied > ticket
  }

  /** The `finally` of a fetch: it leaves the in-flight table only if it is still registered there. */
  function Cleanup(s: System, id: FetchId): System
    requires id in s.fetches
  {
    var user := s.fetches[id].user;
    s.(fetches := s.fetches - {id},
       inFlight := if user in s.inFlight && s.inFlight[user] == id then s.inFlight - {user} else s.inFlight)
  }

  /** Bumps the user's version and issues the operation of a set or clear call. */
  function Issue(s: System, user: User, op: CacheOp): System {
    s.(versions := s.versions[user := Version(s, user) + 1],
       ops := s.ops + [op],
       writers := s.writers[user := Issued(|s.ops|)])
  }

  function Effect(cache: map<User, bool>, op: CacheOp): map<User, bool> {
    match op
    case Put(user, value) => cache[user := value]
    case Drop(user) => cache - {user}
    case DropAll => map[]
  }

  function Take(s: System, step: Step): System
    requires Enabled(s, step)
  {
    match step
    case StartFetch(id, user) =>
      s.(fetches := s.fetches[id := Fetch(user, Version(s, user), Waiting)], inFlight := s.inFlight[user := id])
    case ReadRow(id) =>
      s.(fetches := s.fetches[id := s.fetches[id].(phase := HasRow(Row(s, s.fetches[id].user)))])
    case Resolve(id) =>
      var f := s.fetches[id];
      if Version(s, f.user) == f.version then
        s.(ops := s.ops + [Put(f.user, f.phase.value)], fetches := s.fetches[id := f.(phase := Writing(|s.ops|))])
      else s.(fetches := s.fetches[id := f.(phase := Settled)])
    case FinishFetch(id) => Cleanup(s, id)
    case FailFetch(id) => Cleanup(s, id)
    case WriteDb(user, value) =>
      s.(db := if value.Some? then s.db[user := value.value] else s.db, writers := s.writers[user := Stored])
    case CallSet(user) => Issue(s, user, Put(user, Row(s, user)))
    case CallClear(user) => Issue(s, user, Drop(user))
    case FinishWrite(user) => s.(inFlight := s.inFlight - {user}, writers := s.writers[user := Idle])
    case ApplyOp =>
      s.(applied := s.applied + 1, cache := Effect(s.cache, s.ops[s.applied]))
    case Expire(user) => s.(cache := s.cache - {user})
    case CallClearAll => s.(ops := s.ops + [DropAll], clears := s.clears + {|s.ops|})
    case ResetAll(ticket) => s.(inFlight := map[], versions := map[], clears := s.clears - {ticket})
  }

  // ----- Coherence -----

  ghost predicate CacheAgrees(s: System, user: User) {
    user in s.cache ==> s.cache[user] == Row(s, user)
  }

  /** The cache entry is absent or equal to the database value whenever no writer of that user is
      between its database write and the end of its call. */
  ghost predicate Coherent(s: System) {
    forall user :: WriterOf(s, user).Idle? ==> CacheAgrees(s, user)
  }

  /** From operation `from` on, the user's operations drop the entry or write the database value. */
  ghost predicate OpsAgree(s: System, user: User, from: nat) {
    forall t :: from <= t < |s.ops| ==> OpAgrees(s, user, s.ops[t])
  }

  ghost predicate OpAgrees(s: System, user: User, op: CacheOp) {
    op.Put? && op.user == user ==> op.value == Row(s, user)
  }

  /** The operation of a set or clear call for the user. */
  ghost predicate IsCallFor(op: CacheOp, user: User) {
    !op.DropAll? && op.user == user
  }

  /** The fetch may still read its row or issue its cache write. */
  predicate IsOpen(f: Fetch) {
    f.phase.Waiting? || f.phase.HasRow?
  }

  /** The user's version, counting a writer that has stored its value and not yet made its call. */
  function Announced(s: System, user: User): nat {
    Version(s, user) + if WriterOf(s, user).Stored? then 1 else 0
  }

  /** An open fetch is older than the stored value, or started with its version and has not read
      anything else. */
  ghost predicate FetchFits(s: System, f: Fetch) {
    IsOpen(f) ==>
      f.version < Announced(s, f.user) ||
        (f.version == Announced(s, f.user) && (f.phase.HasRow? ==> f.phase.value == Row(s, f.user)))
  }

  ghost predicate FetchesFit(s: System) {
    forall id :: id in s.fetches ==> FetchFits(s, s.fetches[id])
  }

  ghost predicate UserInvariant(s: System, user: User) {
    match WriterOf(s, user)
    case Idle => CacheAgrees(s, user) && OpsAgree(s, user, s.applied)
    case Stored => true
    case Issued(ticket) =>
      && ticket < |s.ops| && IsCallFor(s.ops[ticket], user)
      && OpsAgree(s, user, ticket)
      && (s.applied > ticket ==> CacheAgrees(s, user))
  }

  ghost predicate Invariant(s: System) {
    s.applied <= |s.ops| && FetchesFit(s) && forall user :: UserInvariant(s, user)
  }

  /** A global clear may reset the versions: every open fetch started with version 0 and holds the
      stored value if it has read its row. A writer that has stored its value and not yet made its
      call allows for one version more. */
  predicate ResetIsSafe(s: System) {
    forall id :: id in s.fetches && IsOpen(s.fetches[id]) ==>
      var f, next := s.fetches[id], if WriterOf(s, s.fetches[id].user).Stored? then 1 else 0;
      f.version < next || (f.version == next && (f.phase.HasRow? ==> f.phase.value == Row(s, f.user)))
  }

  predicate Permitted(s: System, step: Step) {
    step.ResetAll? ==> ResetIsSafe(s)
  }

  // ----- Each step keeps the invariant -----

  lemma OneFetchChanged(s: System, s': System, id: FetchId)
    requires FetchesFit(s) && s'.versions == s.versions && s'.writers == s.writers && s'.db == s.db
    requires forall k :: k in s'.fetches && k != id ==> k in s.fetches && s'.fetches[k] == s.fetches[k]
    requires id in s'.fetches ==> FetchFits(s', s'.fetches[id])
    ensures FetchesFit(s')
  {
    forall k | k in s'.fetches && k != id
      ensures FetchFits(s', s'.fetches[k])
    {
      assert FetchFits(s, s.fetches[k]);
    }
  }

  lemma FetchStepKeepsFetches(s: System, step: Step)
    requires Enabled(s, step) && FetchesFit(s)
    requires step.StartFetch? || step.ReadRow? || step.Resolve? || step.FinishFetch? || step.FailFetch?
    ensures FetchesFit(Take(s, step))
  {
    assert step.id in s.fetches ==> FetchFits(s, s.fetches[step.id]);
    OneFetchChanged(s, Take(s, step), step.id);
  }

  lemma WriterStepKeepsFetches(s: System, step: Step)
    requires Enabled(s, step) && FetchesFit(s)
    requires step.WriteDb? || step.CallSet? || step.CallClear? || step.FinishWrite?
    ensures FetchesFit(Take(s, step))
  {
    var s' := Take(s, step);
    assert s'.fetches == s.fetches;
    forall id | id in s.fetches
      ensures FetchFits(s', s.fetches[id])
    {
      var user := s.fetches[id].user;
      assert FetchFits(s, s.fetches[id]);
      assert Announced(s', user) == Announced(s, user) + if step.WriteDb? && step.user == user then 1 else 0;
    }
  }

  lemma CacheStepKeepsFetches(s: System, step: Step)
    requires Enabled(s, step) && FetchesFit(s) && Permitted(s, step)
    requires step.ApplyOp? || step.Expire? || step.CallClearAll? || step.ResetAll?
    ensures FetchesFit(Take(s, step))
  {
    var s' := Take(s, step);
    forall id | id in s.fetches
      ensures FetchFits(s', s.fetches[id])
    {
      assert FetchFits(s, s.fetches[id]);
    }
  }

  lemma ResolveKeepsOps(s: System, id: FetchId, user: User, from: nat)
    requires Enabled(s, Resolve(id)) && FetchesFit(s) && OpsAgree(s, user, from) && !WriterOf(s, user).Stored?
    ensures OpsAgree(Take(s, Resolve(id)), user, from)
  {
    assert FetchFits(s, s.fetches[id]);
    var s' := Take(s, Resolve(id));
    forall t | from <= t < |s'.ops|
      ensures OpAgrees(s', user, s'.ops[t])
    {
      assert t < |s.ops| ==> OpAgrees(s, user, s.ops[t]);
    }
  }

  lemma ResolveKeepsUser(s: System, id: FetchId, user: User)
    requires Invariant(s) && UserInvariant(s, user) && Enabled(s, Resolve(id))
    ensures UserInvariant(Take(s, Resolve(id)), user)
  {
    match WriterOf(s, user)
    case Stored =>
    case Idle => ResolveKeepsOps(s, id, user, s.applied);
    case Issued(ticket) => ResolveKeepsOps(s, id, user, ticket);
  }

  lemma WriterKeepsUser(s: System, step: Step, user: User)
    requires UserInvariant(s, user) && Enabled(s, step) && s.applied <= |s.ops|
    requires step.WriteDb? || step.CallSet? || step.CallClear? || step.FinishWrite?
    ensures UserInvariant(Take(s, step), user)
  {
    var s' := Take(s, step);
    assert step.user != user ==> WriterOf(s', user) == WriterOf(s, user) && Row(s', user) == Row(s, user);
  }

  lemma CacheStepKeepsUser(s: System, step: Step, user: User)
    requires UserInvariant(s, user) && Enabled(s, step) && s.applied <= |s.ops|
    requires step.ApplyOp? || step.Expire? || step.CallClearAll? || step.ResetAll?
    ensures UserInvariant(Take(s, step), user)
  {
    assert step.ApplyOp? && !WriterOf(s, user).Stored? &&
           (WriterOf(s, user).Issued? ==> s.applied >= WriterOf(s, user).ticket) ==>
        OpAgrees(s, user, s.ops[s.applied]);
  }

  lemma StepKeepsUser(s: System, step: Step, user: User)
    requires Invariant(s) && UserInvariant(s, user) && Enabled(s, step)
    ensures UserInvariant(Take(s, step), user)
  {
    match step
    case Resolve(id) => ResolveKeepsUser(s, id, user);
    case WriteDb(_, _) | CallSet(_) | CallClear(_) | FinishWrite(_) => WriterKeepsUser(s, step, user);
    case ApplyOp | Expire(_) | CallClearAll | ResetAll(_) => CacheStepKeepsUser(s, step, user);
    case StartFetch(_, _) | ReadRow(_) | FinishFetch(_) | FailFetch(_) =>
  }

  lemma StepKeepsFetches(s: System, step: Step)
    requires Enabled(s, step) && FetchesFit(s) && Permitted(s, step)
    ensures FetchesFit(Take(s, step))
  {
    match step
    case StartFetch(_, _) | ReadRow(_) | Resolve(_) | FinishFetch(_) | FailFetch(_) => FetchStepKeepsFetches(s, step);
    case WriteDb(_, _) | CallSet(_) | CallClear(_) | FinishWrite(_) => WriterStepKeepsFetches(s, step);
    case ApplyOp | Expire(_) | CallClearAll | ResetAll(_) => CacheStepKeepsFetches(s, step);
  }

  lemma StepKeepsInvariant(s: System, step: Step)
    requires Invariant(s) && Enabled(s, step) && Permitted(s, step)
    ensures Invariant(Take(s, step))
  {
    StepKeepsFetches(s, step);
    forall user
      ensures UserInvariant(Take(s, step), user)
    {
      assert UserInvariant(s, user);
      StepKeepsUser(s, step, user);
    }
  }

  // ----- Runs -----

  /** The steps, each enabled when it is taken, lead from `s` to `s'`. */
  ghost predicate Reaches(s: System, steps: seq<Step>, s': System)
    decreases |steps|
  {
    if steps == [] then s == s' else Enabled(s, steps[0]) && Reaches(Take(s, steps[0]), steps[1..], s')
  }

  /** Every reset of a global clear in the run is a safe one. */
  ghost predicate ResetsAreSafe(s: System, steps: seq<Step>)
    decreases |steps|
  {
    steps == [] || (Enabled(s, steps[0]) && Permitted(s, steps[0]) && ResetsAreSafe(Take(s, steps[0]), steps[1..]))
  }

  lemma {:induction false} RunKeepsInvariant(s: System, steps: seq<Step>, s': System)
    requires Invariant(s) && Reaches(s, steps, s') && ResetsAreSafe(s, steps)
    ensures Invariant(s')
    decreases |steps|
  {
    if steps != [] {
      StepKeepsInvariant(s, steps[0]);
      RunKeepsInvariant(Take(s, steps[0]), steps[1..], s');
    }
  }

  lemma InvariantMeansCoherent(s: System)
    requires Invariant(s)
    ensures Coherent(s)
  {
    forall user | WriterOf(s, user).Idle?
      ensures CacheAgrees(s, user)
    {
      assert UserInvariant(s, user);
    }
  }

  /** Over every interleaving with one writer at a time per user, global clears included as long as
      their resets are safe, the cache is coherent in every state reached. */
  lemma RunsAreCoherent(steps: seq<Step>, s: System)
    requires Reaches(INITIAL, steps, s) && ResetsAreSafe(INITIAL, steps)
    ensures Coherent(s)
  {
    RunKeepsInvariant(INITIAL, steps, s);
    InvariantMeansCoherent(s);
  }

  // ----- An unsafe reset breaks coherence -----

  ghost predicate NoReset(steps: seq<Step>) {
    forall i :: 0 <= i < |steps| ==> !steps[i].ResetAll?
  }

  lemma ReachesFirst(s: System, step: Step, rest: seq<Step>, s': System)
    requires Enabled(s, step) && Reaches(Take(s, step), rest, s')
    ensures Reaches(s, [step] + rest, s')
  {
    assert ([step] + rest)[1..] == rest;
  }

  lemma {:induction false} ReachesThen(s: System, a: seq<Step>, m: System, b: seq<Step>, s': System)
    requires Reaches(s, a, m) && Reaches(m, b, s')
    ensures Reaches(s, a + b, s')
    decreases |a|
  {
    if a == [] {
      assert a + b == b;
    } else {
      ReachesThen(Take(s, a[0]), a[1..], m, b, s');
      assert (a + b)[1..] == a[1..] + b;
    }
  }

  /** All issued operations can take effect. */
  lemma {:induction false} Settle(s: System) returns (steps: seq<Step>, s': System)
    requires s.applied <= |s.ops|
    ensures Reaches(s, steps, s') && NoReset(steps)
    ensures s' == s.(applied := |s.ops|, cache := s'.cache) && (s.applied == |s.ops| ==> s' == s)
    ensures s.applied < |s.ops| && s.ops[|s.ops| - 1].Put? ==>
              s.ops[|s.ops| - 1].user in s'.cache && s'.cache[s.ops[|s.ops| - 1].user] == s.ops[|s.ops| - 1].value
    decreases |s.ops| - s.applied
  {
    if s.applied == |s.ops| {
      return [], s;
    }
    steps, s' := Settle(Take(s, ApplyOp));
    if s.applied + 1 == |s.ops| {
      assert s' == Take(s, ApplyOp);
    }
    ReachesFirst(s, ApplyOp, steps, s');
    steps := [ApplyOp] + steps;
  }

  /** What the run to a stale entry needs: `f` holds a row and nobody writes its user's. */
  ghost predicate Holds(s: System, id: FetchId, f: Fetch) {
    s.applied <= |s.ops| && id in s.fetches && s.fetches[id] == f && f.phase.HasRow? && WriterOf(s, f.user).Idle?
  }

  /** The user's writer can finish; that announces the stored value. */
  lemma FinishWriter(s: System, id: FetchId, f: Fetch) returns (steps: seq<Step>, s': System)
    requires s.applied <= |s.ops| && id in s.fetches && s.fetches[id] == f && f.phase.HasRow?
    requires WriterOf(s, f.user).Issued? ==> WriterOf(s, f.user).ticket < |s.ops|
    ensures Reaches(s, steps, s') && NoReset(steps) && Holds(s', id, f)
    ensures Version(s', f.user) == Announced(s, f.user) && Row(s', f.user) == Row(s, f.user)
    decreases if WriterOf(s, f.user).Stored? then 1 else 0
  {
    match WriterOf(s, f.user)
    case Idle => steps, s' := [], s;
    case Stored =>
      steps, s' := FinishWriter(Take(s, CallSet(f.user)), id, f);
      ReachesFirst(s, CallSet(f.user), steps, s');
      steps := [CallSet(f.user)] + steps;
    case Issued(ticket) =>
      var settled;
      steps, settled := Settle(s);
      s' := Take(settled, FinishWrite(f.user));
      assert Reaches(s', [], s');
      ReachesFirst(settled, FinishWrite(f.user), [], s');
      ReachesThen(s, steps, settled, [FinishWrite(f.user)] + [], s');
      steps := steps + ([FinishWrite(f.user)] + []);
  }

  /** Another write of the user's row, from start to end. */
  lemma WriteOnce(s: System, id: FetchId, f: Fetch) returns (steps: seq<Step>, s': System)
    requires Holds(s, id, f)
    ensures Reaches(s, steps, s') && NoReset(steps) && Holds(s', id, f)
    ensures Version(s', f.user) == Version(s, f.user) + 1 && Row(s', f.user) != f.phase.value
  {
    var write := WriteDb(f.user, Some(!f.phase.value));
    var written := Take(s, write);
    steps, s' := FinishWriter(written, id, f);
    ReachesFirst(s, write, steps, s');
    steps := [write] + steps;
  }

  /** The fetch passes its version check and its value takes effect. */
  lemma PassesStale(s: System, id: FetchId, f: Fetch) returns (steps: seq<Step>, s': System)
    requires Holds(s, id, f) && f.version == Version(s, f.user) && f.phase.value != Row(s, f.user)
    ensures Reaches(s, steps, s') && NoReset(steps) && !Coherent(s')
  {
    var resolved := Take(s, Resolve(id));
    steps, s' := Settle(resolved);
    ReachesFirst(s, Resolve(id), steps, s');
    steps := [Resolve(id)] + steps;
    assert WriterOf(s', f.user).Idle? && !CacheAgrees(s', f.user);
  }

  /** Enough writes bring the user's version up to that of the fetch. */
  lemma {:induction false} CatchUp(s: System, id: FetchId, f: Fetch) returns (steps: seq<Step>, s': System)
    requires Holds(s, id, f) && Version(s, f.user) <= f.version
    requires Version(s, f.user) == f.version ==> f.phase.value != Row(s, f.user)
    ensures Reaches(s, steps, s') && NoReset(steps) && !Coherent(s')
    decreases f.version - Version(s, f.user)
  {
    if Version(s, f.user) == f.version {
      steps, s' := PassesStale(s, id, f);
    } else {
      var first, m := WriteOnce(s, id, f);
      steps, s' := CatchUp(m, id, f);
      ReachesThen(s, first, m, steps, s');
      steps := first + steps;
    }
  }

  lemma MisfitWithRowBreaks(s: System, id: FetchId, f: Fetch) returns (steps: seq<Step>, s': System)
    requires s.applied <= |s.ops| && id in s.fetches && s.fetches[id] == f && f.phase.HasRow? && !FetchFits(s, f)
    requires WriterOf(s, f.user).Issued? ==> WriterOf(s, f.user).ticket < |s.ops|
    ensures Reaches(s, steps, s') && NoReset(steps) && !Coherent(s')
  {
    var first, m := FinishWriter(s, id, f);
    steps, s' := CatchUp(m, id, f);
    ReachesThen(s, first, m, steps, s');
    steps := first + steps;
  }

  /** An open fetch that does not fit leads to a stale entry. */
  lemma MisfitBreaks(s: System, id: FetchId) returns (steps: seq<Step>, s': System)
    requires s.applied <= |s.ops| && id in s.fetches && !FetchFits(s, s.fetches[id])
    requires forall user :: UserInvariant(s, user)
    ensures Reaches(s, steps, s') && NoReset(steps) && !Coherent(s')
  {
    var f := s.fetches[id];
    assert UserInvariant(s, f.user);
    if f.phase.Waiting? {
      var read := Take(s, ReadRow(id));
      assert Announced(read, f.user) == Announced(s, f.user) && WriterOf(read, f.user) == WriterOf(s, f.user);
      steps, s' := MisfitWithRowBreaks(read, id, read.fetches[id]);
      ReachesFirst(s, ReadRow(id), steps, s');
      steps := [ReadRow(id)] + steps;
    } else {
      steps, s' := MisfitWithRowBreaks(s, id, f);
    }
  }

  /** Every run from `s` without another reset reaches coherent states only. */
  ghost predicate StaysCoherent(s: System) {
    forall steps, s' :: Reaches(s, steps, s') && NoReset(steps) ==> Coherent(s')
  }

  lemma {:induction false} NoResetIsSafe(s: System, steps: seq<Step>, s': System)
    requires Reaches(s, steps, s') && NoReset(steps)
    ensures ResetsAreSafe(s, steps)
    decreases |steps|
  {
    if steps != [] {
      forall i | 0 <= i < |steps[1..]|
        ensures !steps[1..][i].ResetAll?
      {
        assert steps[1..][i] == steps[i + 1];
      }
      NoResetIsSafe(Take(s, steps[0]), steps[1..], s');
    }
  }

  lemma ResetKeepsUsers(s: System, ticket: nat)
    requires Invariant(s) && Enabled(s, ResetAll(ticket))
    ensures forall user :: UserInvariant(Take(s, ResetAll(ticket)), user)
  {
    forall user
      ensures UserInvariant(Take(s, ResetAll(ticket)), user)
    {
      assert UserInvariant(s, user);
      CacheStepKeepsUser(s, ResetAll(ticket), user);
    }
  }

  lemma ResetBreaksIff(s: System, ticket: nat)
    requires Invariant(s) && Enabled(s, ResetAll(ticket))
    ensures ResetIsSafe(s) <==> StaysCoherent(Take(s, ResetAll(ticket)))
  {
    var reset := Take(s, ResetAll(ticket));
    if ResetIsSafe(s) {
      StepKeepsInvariant(s, ResetAll(ticket));
      forall steps, s' | Reaches(reset, steps, s') && NoReset(steps)
        ensures Coherent(s')
      {
        NoResetIsSafe(reset, steps, s');
        RunKeepsInvariant(reset, steps, s');
        InvariantMeansCoherent(s');
      }
    } else {
      ResetKeepsUsers(s, ticket);
      var id :| id in s.fetches && !FetchFits(reset, s.fetches[id]);
      var steps, s' := MisfitBreaks(reset, id);
    }
  }

  /** After any run whose resets so far were safe, the next reset of a global clear keeps the cache
      coherent in all that follows exactly when it is safe too. */
  lemma ResetIsSafeIff(run: seq<Step>, s: System, ticket: nat)
    requires Reaches(INITIAL, run, s) && ResetsAreSafe(INITIAL, run) && Enabled(s, ResetAll(ticket))
    ensures ResetIsSafe(s) <==> StaysCoherent(Take(s, ResetAll(ticket)))
  {
    RunKeepsInvariant(INITIAL, run, s);
    ResetBreaksIff(s, ticket);
  }

  /** A reset while no fetch is open is safe. */
  lemma QuietResetIsSafe(s: System)
    requires forall id :: id in s.fetches ==> !IsOpen(s.fetches[id])
    ensures ResetIsSafe(s)
  {
  }

  /** A fetch reads true, a writer stores false and makes its set call, and a global clear waits for
      its operation to take effect. */
  const READING := [StartFetch(0, "u"), ReadRow(0)]
  const WRITING := [WriteDb("u", Some(false)), CallSet("u")]
  const CLEARING := [CallClearAll, ApplyOp, ApplyOp]

  const AFTER_READING := INITIAL.(fetches := map[0 := Fetch("u", 0, HasRow(true))], inFlight := map["u" := 0])
  const AFTER_WRITING := AFTER_READING.(
    db := map["u" := false], versions := map["u" := 1], writers := map["u" := Issued(0)], ops := [Put("u", false)])
  const AFTER_CLEARING := AFTER_WRITING.(ops := [Put("u", false), DropAll], applied := 2, clears := {1})

  lemma TwoSteps(s: System, first: Step, second: Step)
    requires Enabled(s, first) && Enabled(Take(s, first), second)
    ensures Reaches(s, [first, second], Take(Take(s, first), second))
  {
    var end := Take(Take(s, first), second);
    assert Reaches(end, [], end);
    ReachesFirst(Take(s, first), second, [], end);
    ReachesFirst(s, first, [second], end);
    assert [first] + [second] == [first, second];
  }

  lemma WritingLeadsOn()
    ensures Reaches(AFTER_READING, WRITING, AFTER_WRITING)
  {
    TwoSteps(AFTER_READING, WriteDb("u", Some(false)), CallSet("u"));
    assert Take(Take(AFTER_READING, WriteDb("u", Some(false))), CallSet("u")) == AFTER_WRITING;
  }

  lemma UnsafeReset()
    ensures Enabled(AFTER_CLEARING, ResetAll(1)) && !ResetIsSafe(AFTER_CLEARING)
  {
    assert IsOpen(AFTER_CLEARING.fetches[0]);
  }

  /** An unsafe reset is reached. */
  lemma UnsafeResetIsReached()
    ensures Reaches(INITIAL, READING + (WRITING + CLEARING), AFTER_CLEARING) && NoReset(READING + (WRITING + CLEARING))
  {
    WritingLeadsOn();
    ReachesThen(AFTER_READING, WRITING, AFTER_WRITING, CLEARING, AFTER_CLEARING);
    ReachesThen(INITIAL, READING, AFTER_READING, WRITING + CLEARING, AFTER_CLEARING);
  }

  /** The global clear can break coherence: a run leads from the start to a stale entry with no writer
      active. */
  lemma GlobalClearBreaksCoherence() returns (run: seq<Step>, s: System)
    ensures Reaches(INITIAL, run, s) && !Coherent(s)
  {
    var before := READING + (WRITING + CLEARING);
    UnsafeResetIsReached();
    UnsafeReset();
    NoResetIsSafe(INITIAL, before, AFTER_CLEARING);
    ResetIsSafeIff(before, AFTER_CLEARING, 1);
    var reset := Take(AFTER_CLEARING, ResetAll(1));
    var steps, s' :| Reaches(reset, steps, s') && NoReset(steps) && !Coherent(s');
    ReachesFirst(AFTER_CLEARING, ResetAll(1), steps, s');
    ReachesThen(INITIAL, before, AFTER_CLEARING, [ResetAll(1)] + steps, s');
    run, s := before + ([ResetAll(1)] + steps), s';
  }

  // ----- What undisturbed calls do -----

  function StoredOr(db: map<User, bool>, user: User): bool {
    if user in db then db[user] else true
  }

  /** A step at the end of a run. */
  lemma ReachesOn(s: System, steps: seq<Step>, m: System, step: Step)
    requires Reaches(s, steps, m) && Enabled(m, step)
    ensures Reaches(s, steps + [step], Take(m, step))
  {
    assert Reaches(Take(m, step), [], Take(m, step));
    ReachesFirst(m, step, [], Take(m, step));
    assert [step] + [] == [step];
    ReachesThen(s, steps, m, [step], Take(m, step));
  }

  /** An undisturbed fetch reads its row and issues its cache write. */
  lemma FetchIssues(s: System, id: FetchId, user: User) returns (s': System)
    requires id !in s.fetches && user !in s.inFlight
    ensures Reaches(s, [StartFetch(id, user), ReadRow(id)] + [Resolve(id)], s')
    ensures s' == s.(fetches := s.fetches[id := Fetch(user, Version(s, user), Writing(|s.ops|))],
                     inFlight := s.inFlight[user := id], ops := s.ops + [Put(user, StoredOr(s.db, user))])
  {
    TwoSteps(s, StartFetch(id, user), ReadRow(id));
    var s2 := Take(Take(s, StartFetch(id, user)), ReadRow(id));
    ReachesOn(s, [StartFetch(id, user), ReadRow(id)], s2, Resolve(id));
    s' := Take(s2, Resolve(id));
  }

  /** With no operation pending, an undisturbed fetch caches the stored preference, true for a user without one,
      and changes nothing else for good. */
  lemma FetchFills(s: System, id: FetchId, user: User) returns (s': System)
    requires s.applied == |s.ops| && id !in s.fetches && user !in s.inFlight
    ensures Reaches(s, [StartFetch(id, user), ReadRow(id)] + [Resolve(id)] + [ApplyOp, FinishFetch(id)], s')
    ensures s' == s.(cache := s.cache[user := StoredOr(s.db, user)], ops := s'.ops, applied := |s'.ops|)
  {
    var issued := FetchIssues(s, id, user);
    TwoSteps(issued, ApplyOp, FinishFetch(id));
    s' := Take(Take(issued, ApplyOp), FinishFetch(id));
    ReachesThen(s, [StartFetch(id, user), ReadRow(id)] + [Resolve(id)], issued, [ApplyOp, FinishFetch(id)], s');
    assert s'.fetches == s.fetches && s'.inFlight == s.inFlight;
  }

  /** An undisturbed write stores its value, counts the version up and issues the operation of its call. */
  lemma WriteIssues(s: System, user: User, value: Option<bool>, sets: bool) returns (s': System)
    requires WriterOf(s, user) == Idle
    ensures Reaches(s, [WriteDb(user, value), if sets then CallSet(user) else CallClear(user)], s')
    ensures s'.db == if value.Some? then s.db[user := value.value] else s.db
    ensures s' == s.(db := s'.db, versions := s.versions[user := Version(s, user) + 1],
                     ops := s.ops + [if sets then Put(user, StoredOr(s'.db, user)) else Drop(user)],
                     writers := s'.writers) && WriterOf(s', user) == Issued(|s.ops|)
  {
    var call := if sets then CallSet(user) else CallClear(user);
    TwoSteps(s, WriteDb(user, value), call);
    s' := Take(Take(s, WriteDb(user, value)), call);
  }

  /** An undisturbed write that ends in a set call caches the row then stored, one that ends in a clear call
      drops the entry; both count the user's version up and forget the fetch in flight. */
  lemma WriteFills(s: System, user: User, value: Option<bool>, sets: bool) returns (s': System)
    requires s.applied == |s.ops| && WriterOf(s, user) == Idle
    ensures Reaches(s, [WriteDb(user, value), if sets then CallSet(user) else CallClear(user)] +
                       [ApplyOp, FinishWrite(user)], s')
    ensures s'.db == if value.Some? then s.db[user := value.value] else s.db
    ensures s'.cache == if sets then s.cache[user := StoredOr(s'.db, user)] else s.cache - {user}
    ensures s'.versions == s.versions[user := 1 + if user in s.versions then s.versions[user] else 0]
    ensures s'.inFlight == s.inFlight - {user} && s'.fetches == s.fetches && WriterOf(s', user) == Idle
  {
    var issued := WriteIssues(s, user, value, sets);
    TwoSteps(issued, ApplyOp, FinishWrite(user));
    s' := Take(Take(issued, ApplyOp), FinishWrite(user));
    ReachesThen(s, [WriteDb(user, value), if sets then CallSet(user) else CallClear(user)], issued,
      [ApplyOp, FinishWrite(user)], s');
  }

  /** An undisturbed global clear empties the cache, the versions and the table of fetches in flight, and leaves
      the stored preferences and the fetches alone. */
  lemma ClearAllEmpties(s: System) returns (s': System)
    requires s.applied == |s.ops| && |s.ops| !in s.clears
    ensures Reaches(s, [CallClearAll, ApplyOp] + [ResetAll(|s.ops|)], s')
    ensures s'.cache == map[] && s'.versions == map[] && s'.inFlight == map[]
    ensures s'.db == s.db && s'.fetches == s.fetches && s'.writers == s.writers && s'.clears == s.clears
  {
    TwoSteps(s, CallClearAll, ApplyOp);
    var cleared := Take(Take(s, CallClearAll), ApplyOp);
    ReachesOn(s, [CallClearAll, ApplyOp], cleared, ResetAll(|s.ops|));
    s' := Take(cleared, ResetAll(|s.ops|));
  }

  // ----- The table of fetches in flight -----

  /** The table names a running fetch of the user. */
  predicate IsRegistered(s: System, user: User) {
    user in s.inFlight ==> s.inFlight[user] in s.fetches && s.fetches[s.inFlight[user]].user == user
  }

  ghost predicate Registered(s: System) {
    forall user :: IsRegistered(s, user)
  }

  lemma StepKeepsRegistered(s: System, step: Step, user: User)
    requires IsRegistered(s, user) && Enabled(s, step)
    ensures IsRegistered(Take(s, step), user)
  {
    match step
    case StartFetch(_, _) | ReadRow(_) | Resolve(_) =>
    case FinishFetch(_) | FailFetch(_) =>
    case WriteDb(_, _) | CallSet(_) | CallClear(_) | FinishWrite(_) =>
    case ApplyOp | Expire(_) | CallClearAll | ResetAll(_) =>
  }

  /** Every run keeps the table of fetches in flight true: it never names a fetch that has ended, so a later read
      joins a running fetch or starts its own. */
  lemma {:induction false} RunsKeepRegistered(s: System, steps: seq<Step>, s': System)
    requires Registered(s) && Reaches(s, steps, s')
    ensures Registered(s')
    decreases |steps|
  {
    if steps != [] {
      forall user
        ensures IsRegistered(Take(s, steps[0]), user)
      {
        StepKeepsRegistered(s, steps[0], user);
      }
      RunsKeepRegistered(Take(s, steps[0]), steps[1..], s');
    }
  }

  /** Every running fetch is the one its user's entry names. */
  ghost predicate Shared(s: System) {
    forall id :: id in s.fetches ==> s.fetches[id].user in s.inFlight && s.inFlight[s.fetches[id].user] == id
  }

  /** Calls that forget a fetch in flight while it still runs. */
  predicate Forgets(step: Step) {
    step.FinishWrite? || step.ResetAll?
  }

  lemma StepKeepsShared(s: System, step: Step)
    requires Shared(s) && Enabled(s, step) && !Forgets(step)
    ensures Shared(Take(s, step))
  {
    match step
    case StartFetch(_, _) | ReadRow(_) | Resolve(_) =>
    case FinishFetch(_) | FailFetch(_) =>
    case WriteDb(_, _) | CallSet(_) | CallClear(_) =>
    case ApplyOp | Expire(_) | CallClearAll =>
  }

  /** Reads share: until a set or clear call ends, a user never has two fetches running. */
  lemma {:induction false} ReadsShareOneFetch(s: System, steps: seq<Step>, s': System, a: FetchId, b: FetchId)
    requires Shared(s) && Reaches(s, steps, s') && forall i :: 0 <= i < |steps| ==> !Forgets(steps[i])
    ensures Shared(s')
    ensures a in s'.fetches && b in s'.fetches && s'.fetches[a].user == s'.fetches[b].user ==> a == b
    decreases |steps|
  {
    if steps != [] {
      StepKeepsShared(s, steps[0]);
      forall i | 0 <= i < |steps[1..]|
        ensures !Forgets(steps[1..][i])
      {
        assert steps[1..][i] == steps[i + 1];
      }
      ReadsShareOneFetch(Take(s, steps[0]), steps[1..], s', a, b);
    }
  }

  /** A fetch that ends takes only itself off the table. */
  lemma EndingKeepsOthers(s: System, id: FetchId, step: Step, user: User)
    requires (step == FinishFetch(id) || step == FailFetch(id)) && Enabled(s, step) && IsRegistered(s, user)
    ensures var s' := Take(s, step);
            && (user in s'.inFlight <==> user in s.inFlight && s.inFlight[user] != id)
            && (user in s'.inFlight ==> s'.inFlight[user] == s.inFlight[user])
            && s'.fetches == s.fetches - {id} && s'.cache == s.cache && s'.db == s.db && s'.versions == s.versions
  {
  }
}
