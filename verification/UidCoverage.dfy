/** Which messages of a mailbox have been handed to processing after any sequence of
    synchronisations, deliveries, deletions and rebuilds. */
module UidCoverage {
  import opened Sequences
  import opened UidSync
  import opened Wrappers

  /** The mailbox on the server. Section 2.3.1.1 of RFC 3501: UIDs ascend strictly within one
      UIDVALIDITY value, and a rebuilt mailbox gets a larger value. */
  datatype Server = Server(validity: nat, existing: set<nat>, uidNext: nat)

  ghost predicate ValidServer(server: Server) {
    server.uidNext >= 1 && forall u :: u in server.existing ==> 1 <= u < server.uidNext
  }

  /** `handed` holds the messages given to processing, as (UIDVALIDITY, UID). `markEpoch` is the epoch
      whose UIDs the stored mark counts in, and `fullPass` the one whose complete history a stored run
      has last gone through; neither is known to the program. */
  datatype System = System(
    progress: Progress, server: Server, handed: set<(nat, nat)>, markEpoch: Option<nat>, fullPass: Option<nat>)

  ghost predicate Lists(uids: seq<nat>, existing: set<nat>) {
    Ascending(uids) && forall u :: u in uids <==> u in existing
  }

  /** The stored mark counts in the current epoch. */
  ghost predicate InEpoch(s: System) {
    s.markEpoch == Some(s.server.validity)
  }

  /** Every existing message up to the mark has been handed to processing. */
  ghost predicate Covered(progress: Progress, server: Server, handed: set<(nat, nat)>) {
    forall u :: u in server.existing && u <= Mark(progress) ==> (server.validity, u) in handed
  }

  datatype Step =
    | Append(uid: nat)
    | Expunge(uid: nat)
    | Rebuild(validity: nat, existing: set<nat>, uidNext: nat)
    | Run(announced: Announced, uids: seq<nat>, network: Network)

  ghost function Tagged(validity: nat, uids: seq<nat>): set<(nat, nat)> {
    set u | u in uids :: (validity, u)
  }

  /** The server announces its UIDVALIDITY or none at all, and within an epoch its UIDNEXT does not
      fall back to the stored mark. */
  ghost predicate Enabled(s: System, step: Step) {
    match step
    case Append(uid) => uid >= s.server.uidNext
    case Expunge(uid) => uid in s.server.existing
    case Rebuild(validity, existing, uidNext) => validity > s.server.validity &&
      ValidServer(Server(validity, existing, uidNext))
    case Run(a, uids, _) =>
      && (a.uidValidity == Some(s.server.validity) || a.uidValidity.None?)
      && (InEpoch(s) && EndUid(a).Some? ==> Mark(s.progress) <= EndUid(a).value)
      && Lists(uids, s.server.existing)
  }

  /** A stored run that went through the whole history: the backfill, or the run after a rebuild
      if it saw any message. */
  ghost predicate IsFullPass(personal: bool, p: Progress, a: Announced, o: Outcome) {
    o.stored && (ModeOf(personal, p, a).BackfillAll? || (ValidityChanged(p, a) && Mark(o.progress) > 0))
  }

  ghost function Take(personal: bool, s: System, step: Step): System
    requires Enabled(s, step)
  {
    match step
    case Append(uid) => s.(server := s.server.(existing := s.server.existing + {uid}, uidNext := uid + 1))
    case Expunge(uid) => s.(server := s.server.(existing := s.server.existing - {uid}))
    case Rebuild(validity, existing, uidNext) => s.(server := Server(validity, existing, uidNext))
    case Run(a, uids, n) =>
      var o := Sync(personal, s.progress, a, uids, n);
      System(o.progress,
             s.server.(existing := s.server.existing - n.gone),
             s.handed + Tagged(s.server.validity, o.handed),
             if o.stored || ValidityChanged(s.progress, a) then Some(s.server.validity) else s.markEpoch,
             if IsFullPass(personal, s.progress, a, o) then Some(s.server.validity) else s.fullPass)
  }

  // ----- Membership facts -----

  lemma {:induction false} FromExact(uids: seq<nat>, start: nat)
    ensures forall u :: u in From(uids, start) <==> u in uids && u >= start
  {
    if uids != [] {
      FromExact(uids[..|uids| - 1], start);
      assert uids == uids[..|uids| - 1] + [uids[|uids| - 1]];
    }
  }

  lemma {:induction false} UpToExact(uids: seq<nat>, end: nat)
    ensures forall u :: u in UpTo(uids, end) <==> u in uids && u <= end
  {
    if uids != [] {
      UpToExact(uids[..|uids| - 1], end);
      assert uids == uids[..|uids| - 1] + [uids[|uids| - 1]];
    }
  }

  lemma {:induction false} PresentExact(uids: seq<nat>, gone: set<nat>)
    ensures forall u :: u in Present(uids, gone) <==> u in uids && u !in gone
  {
    if uids != [] {
      PresentExact(uids[..|uids| - 1], gone);
      assert uids == uids[..|uids| - 1] + [uids[|uids| - 1]];
    }
  }

  lemma {:induction false} MaxExact(highest: nat, uids: seq<nat>)
    ensures highest <= MaxWith(highest, uids) && forall u :: u in uids ==> u <= MaxWith(highest, uids)
    ensures MaxWith(highest, uids) == highest || MaxWith(highest, uids) in uids
  {
    if uids != [] {
      MaxExact(highest, uids[..|uids| - 1]);
      assert uids == uids[..|uids| - 1] + [uids[|uids| - 1]];
    }
  }

  /** A search finds only messages that exist, and every message of the range. */
  lemma RangeExact(uids: seq<nat>, start: nat, end: Option<nat>)
    ensures forall u :: u in InRange(uids, start, end) ==> u in uids && (end.Some? ==> start <= u <= end.value)
    ensures forall u :: u in uids && u >= start && (end.Some? ==> u <= end.value) ==> u in InRange(uids, start, end)
  {
    FromExact(uids, start);
    if end.Some? {
      UpToExact(From(uids, start), end.value);
    }
  }

  // ----- One run -----

  lemma HandedExist(personal: bool, p: Progress, a: Announced, uids: seq<nat>, n: Network, u: nat)
    requires u in Sync(personal, p, a, uids, n).handed
    ensures u in uids
  {
    var found := InRange(uids, StartUid(personal, p, a), EndUid(a));
    RangeExact(uids, StartUid(personal, p, a), EndUid(a));
    PresentExact(Wanted(personal, p, a, found), n.gone);
    assert u in Present(Wanted(personal, p, a, found), n.gone);
    assert u in Wanted(personal, p, a, found) ==> u in found;
  }

  /** The mark of a stored run: the old one, unless the epoch changed, or the UID of a message. */
  lemma StoredMark(personal: bool, p: Progress, a: Announced, uids: seq<nat>, n: Network)
    requires Sync(personal, p, a, uids, n).stored
    ensures var o := Sync(personal, p, a, uids, n);
            && Mark(o.progress) == MaxWith(if ValidityChanged(p, a) then 0 else Mark(p), o.handed)
            && (!ValidityChanged(p, a) ==> Mark(p) <= Mark(o.progress))
            && (Mark(o.progress) in o.handed || Mark(o.progress) == if ValidityChanged(p, a) then 0 else Mark(p))
  {
    MaxExact(if ValidityChanged(p, a) then 0 else Mark(p), Sync(personal, p, a, uids, n).handed);
  }

  /** Every existing message lies above the mark. */
  ghost predicate AboveMark(p: Progress, server: Server) {
    forall u :: u in server.existing ==> u > Mark(p)
  }

  /** The range of the run reaches the mark. */
  ghost predicate ReachesMark(p: Progress, a: Announced) {
    EndUid(a).Some? ==> Mark(p) <= EndUid(a).value
  }

  /** A stored run that is not the recent-messages one leaves no gap: it starts at the mark, below
      which everything was covered, or at the beginning. */
  lemma RunCovers(personal: bool, p: Progress, a: Announced, server: Server, uids: seq<nat>, n: Network,
          handed: set<(nat, nat)>)
    requires Lists(uids, server.existing) && ValidServer(server)
    requires Sync(personal, p, a, uids, n).stored && !ModeOf(personal, p, a).InitialRecent?
    requires ValidityChanged(p, a) || AboveMark(p, server) || ReachesMark(p, a)
    requires StartUid(personal, p, a) == 1 || Covered(p, server, handed)
    ensures var o := Sync(personal, p, a, uids, n);
            Covered(o.progress, server.(existing := server.existing - n.gone),
                    handed + Tagged(server.validity, o.handed))
  {
    var o := Sync(personal, p, a, uids, n);
    var start, end := StartUid(personal, p, a), EndUid(a);
    RangeExact(uids, start, end);
    PresentExact(InRange(uids, start, end), n.gone);
    StoredMark(personal, p, a, uids, n);
    forall u | u in server.existing - n.gone && u <= Mark(o.progress)
      ensures (server.validity, u) in handed + Tagged(server.validity, o.handed)
    {
      assert u in uids;
      if u >= start {
        assert u in InRange(uids, start, end);
        assert u in o.handed;
      }
    }
  }

  // ----- The invariant -----

  /** What every run keeps: a stored UIDVALIDITY is that of the mark's epoch, and nothing refers to an
      epoch still to come. */
  ghost predicate Bookkeeping(s: System) {
    && ValidServer(s.server)
    && (s.markEpoch.None? ==> Mark(s.progress) == 0)
    && (s.progress.lastUidValidity.Some? ==> s.markEpoch == s.progress.lastUidValidity)
    && (s.markEpoch.Some? ==> s.markEpoch.value <= s.server.validity)
    && (s.fullPass.Some? ==> s.fullPass.value <= s.server.validity)
    && forall h :: h in s.handed ==> h.0 <= s.server.validity
  }

  lemma StepKeepsBooks(personal: bool, s: System, step: Step)
    requires Bookkeeping(s) && Enabled(s, step)
    ensures Bookkeeping(Take(personal, s, step))
  {
  }

  /** For a domain mailbox the mark is to be trusted whenever it counts in the current epoch, for a
      personal one when a run went through the whole epoch. */
  ghost predicate Trusted(personal: bool, s: System) {
    if personal then s.fullPass == Some(s.server.validity) else InEpoch(s)
  }

  ghost predicate Invariant(personal: bool, s: System) {
    && Bookkeeping(s)
    && (Trusted(personal, s) ==>
          InEpoch(s) && Mark(s.progress) < s.server.uidNext && Covered(s.progress, s.server, s.handed))
    && (personal && Trusted(personal, s) ==> Mark(s.progress) > 0 && s.progress.lastFullSync)
    && (personal && InEpoch(s) && !s.progress.lastFullSync ==> Mark(s.progress) < s.server.uidNext)
  }

  /** No rebuild goes unnoticed at its cost: the mark counts in the current epoch, the server announces
      a changed UIDVALIDITY, or the run begins at the first message, or every message lies above the
      mark. */
  ghost predicate Notices(personal: bool, s: System, a: Announced) {
    || InEpoch(s)
    || ValidityChanged(s.progress, a)
    || AboveMark(s.progress, s.server)
    || (StartUid(personal, s.progress, a) == 1 && ReachesMark(s.progress, a) && Mark(s.progress) < s.server.uidNext)
  }

  /** Asked of the stored runs that make a mark to be trusted. */
  ghost predicate Permitted(personal: bool, s: System, step: Step) {
    step.Run? ==>
      var o := Sync(personal, s.progress, step.announced, step.uids, step.network);
      (if personal then IsFullPass(personal, s.progress, step.announced, o) else o.stored) ==>
        Notices(personal, s, step.announced)
  }

  /** The mark stays below UIDNEXT when it was, or when it is that of a message. */
  lemma MarkBelowNext(personal: bool, s: System, a: Announced, uids: seq<nat>, n: Network)
    requires Bookkeeping(s) && Enabled(s, Run(a, uids, n)) && Sync(personal, s.progress, a, uids, n).stored
    requires ValidityChanged(s.progress, a) || AboveMark(s.progress, s.server) || Mark(s.progress) < s.server.uidNext
    ensures Mark(Sync(personal, s.progress, a, uids, n).progress) < s.server.uidNext
  {
    var o := Sync(personal, s.progress, a, uids, n);
    StoredMark(personal, s.progress, a, uids, n);
    assert uids[0] in uids;
    if Mark(o.progress) in o.handed {
      HandedExist(personal, s.progress, a, uids, n, Mark(o.progress));
    }
  }

  /** A stored run of a mailbox whose mark is not to be trusted afterwards. */
  lemma UntrustedRunKeeps(s: System, a: Announced, uids: seq<nat>, n: Network)
    requires Invariant(true, s) && Enabled(s, Run(a, uids, n)) && Sync(true, s.progress, a, uids, n).stored
    requires !Trusted(true, Take(true, s, Run(a, uids, n)))
    ensures Invariant(true, Take(true, s, Run(a, uids, n)))
  {
    StepKeepsBooks(true, s, Run(a, uids, n));
    if !Sync(true, s.progress, a, uids, n).progress.lastFullSync {
      MarkBelowNext(true, s, a, uids, n);
    }
  }

  lemma TrustedRunKeeps(personal: bool, s: System, a: Announced, uids: seq<nat>, n: Network)
    requires Invariant(personal, s) && Enabled(s, Run(a, uids, n)) && Permitted(personal, s, Run(a, uids, n))
    requires Sync(personal, s.progress, a, uids, n).stored && Trusted(personal, Take(personal, s, Run(a, uids, n)))
    ensures Invariant(personal, Take(personal, s, Run(a, uids, n)))
  {
    var p, o := s.progress, Sync(personal, s.progress, a, uids, n);
    StepKeepsBooks(personal, s, Run(a, uids, n));
    assert Notices(personal, s, a);
    assert !ModeOf(personal, p, a).InitialRecent?;
    MarkBelowNext(personal, s, a, uids, n);
    RunCovers(personal, p, a, s.server, uids, n, s.handed);
    StoredMark(personal, p, a, uids, n);
  }

  ghost predicate Reaches(personal: bool, s: System, steps: seq<Step>, s': System)
    decreases |steps|
  {
    if steps == [] then s == s'
    else Enabled(s, steps[0]) && Reaches(personal, Take(personal, s, steps[0]), steps[1..], s')
  }

  ghost predicate AllPermitted(personal: bool, s: System, steps: seq<Step>)
    decreases |steps|
  {
    steps == [] ||
    (Enabled(s, steps[0]) && Permitted(personal, s, steps[0]) &&
      AllPermitted(personal, Take(personal, s, steps[0]), steps[1..]))
  }

  lemma StepKeepsInvariant(personal: bool, s: System, step: Step)
    requires Invariant(personal, s) && Enabled(s, step) && Permitted(personal, s, step)
    ensures Invariant(personal, Take(personal, s, step))
  {
    if !step.Run? {
    } else if !Sync(personal, s.progress, step.announced, step.uids, step.network).stored {
    } else if Trusted(personal, Take(personal, s, step)) {
      TrustedRunKeeps(personal, s, step.announced, step.uids, step.network);
    } else {
      UntrustedRunKeeps(s, step.announced, step.uids, step.network);
    }
  }

  lemma {:induction false} RunsKeepInvariant(personal: bool, s: System, steps: seq<Step>, s': System)
    requires Invariant(personal, s) && Reaches(personal, s, steps, s') && AllPermitted(personal, s, steps)
    ensures Invariant(personal, s')
    decreases |steps|
  {
    if steps != [] {
      StepKeepsInvariant(personal, s, steps[0]);
      RunsKeepInvariant(personal, Take(personal, s, steps[0]), steps[1..], s');
    }
  }

  lemma {:induction false} RunsKeepBooks(personal: bool, s: System, steps: seq<Step>, s': System)
    requires Bookkeeping(s) && Reaches(personal, s, steps, s')
    ensures Bookkeeping(s')
    decreases |steps|
  {
    if steps != [] {
      StepKeepsBooks(personal, s, steps[0]);
      RunsKeepBooks(personal, Take(personal, s, steps[0]), steps[1..], s');
    }
  }

  const FRESH := Progress(None, None, false)

  function Start(server: Server): System {
    System(FRESH, server, {}, None, None)
  }

  /** For a domain mailbox, after any sequence of runs, deliveries, deletions and rebuilds, with or
      without an announced UIDVALIDITY, every existing message of the current epoch up to the stored
      mark has been handed to processing, as long as no stored run misses a rebuild at its cost. */
  lemma DomainRunsCover(server: Server, steps: seq<Step>, s: System)
    requires ValidServer(server) && Reaches(false, Start(server), steps, s) && AllPermitted(false, Start(server), steps)
    ensures InEpoch(s) ==> Covered(s.progress, s.server, s.handed)
    ensures s.progress.lastUidValidity == Some(s.server.validity) ==> InEpoch(s)
  {
    RunsKeepInvariant(false, Start(server), steps, s);
  }

  /** For a personal mailbox the same holds in every epoch that a backfill, or a run after a noticed
      rebuild that saw a message, has gone through completely. */
  lemma PersonalRunsCoverAfterFullPass(server: Server, steps: seq<Step>, s: System)
    requires ValidServer(server) && Reaches(true, Start(server), steps, s) && AllPermitted(true, Start(server), steps)
    requires s.fullPass == Some(s.server.validity)
    ensures InEpoch(s) && s.progress.lastFullSync && Covered(s.progress, s.server, s.handed)
  {
    RunsKeepInvariant(true, Start(server), steps, s);
  }

  /** Every run meets a server that announces its UIDVALIDITY. */
  ghost predicate AlwaysAnnounced(steps: seq<Step>) {
    forall i :: 0 <= i < |steps| && steps[i].Run? ==> steps[i].announced.uidValidity.Some?
  }

  /** With UIDVALIDITY always announced, no rebuild goes unnoticed. */
  lemma {:induction false} AnnouncedRunsArePermitted(personal: bool, s: System, steps: seq<Step>, s': System)
    requires Bookkeeping(s) && (s.progress.lastUidValidity.None? ==> Mark(s.progress) == 0)
    requires Reaches(personal, s, steps, s') && AlwaysAnnounced(steps)
    ensures AllPermitted(personal, s, steps)
    decreases |steps|
  {
    if steps != [] {
      var step := steps[0];
      assert step.Run? ==> step.announced.uidValidity.Some?;
      StepKeepsBooks(personal, s, step);
      forall i | 0 <= i < |steps[1..]| && steps[1..][i].Run?
        ensures steps[1..][i].announced.uidValidity.Some?
      {
        assert steps[1..][i] == steps[i + 1];
      }
      AnnouncedRunsArePermitted(personal, Take(personal, s, step), steps[1..], s');
    }
  }

  /** The mark never decreases within an epoch, whatever the servers announce. */
  lemma MarkIsMonotone(personal: bool, server: Server, steps: seq<Step>, s: System, step: Step)
    requires ValidServer(server) && Reaches(personal, Start(server), steps, s) && Enabled(s, step)
    requires InEpoch(s) && InEpoch(Take(personal, s, step))
    ensures Mark(s.progress) <= Mark(Take(personal, s, step).progress)
  {
    RunsKeepBooks(personal, Start(server), steps, s);
    if step.Run? && Sync(personal, s.progress, step.announced, step.uids, step.network).stored {
      StoredMark(personal, s.progress, step.announced, step.uids, step.network);
    }
  }

  // ----- Runs that miss a rebuild -----

  /** An incremental run that stores and does not notice a change. */
  predicate IsUnnoticed(personal: bool, p: Progress, a: Announced, uids: seq<nat>, n: Network) {
    && Sync(personal, p, a, uids, n).stored && EndUid(a).Some?
    && ModeOf(personal, p, a).Incremental? && !ValidityChanged(p, a)
  }

  lemma InRangeIff(uids: seq<nat>, start: nat, end: nat, u: nat)
    ensures u in InRange(uids, start, Some(end)) <==> u in uids && start <= u <= end
  {
    RangeExact(uids, start, Some(end));
  }

  lemma UnnoticedShape(personal: bool, p: Progress, a: Announced, uids: seq<nat>, n: Network)
    requires IsUnnoticed(personal, p, a, uids, n)
    ensures Sync(personal, p, a, uids, n).handed == Present(InRange(uids, Mark(p) + 1, EndUid(a)), n.gone)
  {
    assert StartUid(personal, p, a) == Mark(p) + 1;
    assert Wanted(personal, p, a, InRange(uids, Mark(p) + 1, EndUid(a))) == InRange(uids, Mark(p) + 1, EndUid(a));
  }

  lemma PresentInRangeIff(uids: seq<nat>, start: nat, end: nat, gone: set<nat>, u: nat)
    ensures u in Present(InRange(uids, start, Some(end)), gone) <==> u in uids && start <= u <= end && u !in gone
  {
    InRangeIff(uids, start, end, u);
    PresentExact(InRange(uids, start, Some(end)), gone);
  }

  /** It hands over the messages above the mark that are still there. */
  lemma UnnoticedHands(personal: bool, p: Progress, a: Announced, uids: seq<nat>, n: Network, u: nat)
    requires IsUnnoticed(personal, p, a, uids, n)
    ensures u in Sync(personal, p, a, uids, n).handed <==> u in uids && Mark(p) < u <= EndUid(a).value && u !in n.gone
  {
    UnnoticedShape(personal, p, a, uids, n);
    PresentInRangeIff(uids, Mark(p) + 1, EndUid(a).value, n.gone, u);
  }

  /** A stored incremental run that does not notice a change starts above the mark: it covers the epoch
      exactly when every message up to the old mark has vanished or was handed over before. */
  lemma UnnoticedRunCoversIff(personal: bool, p: Progress, a: Announced, server: Server, uids: seq<nat>, n: Network,
          handed: set<(nat, nat)>)
    requires Lists(uids, server.existing) && IsUnnoticed(personal, p, a, uids, n)
    ensures var o := Sync(personal, p, a, uids, n);
            Covered(o.progress, server.(existing := server.existing - n.gone),
              handed + Tagged(server.validity, o.handed)) <==>
            forall u :: u in server.existing && u <= Mark(p) ==> u in n.gone || (server.validity, u) in handed
  {
    var o := Sync(personal, p, a, uids, n);
    StoredMark(personal, p, a, uids, n);
    UnnoticedHands(personal, p, a, uids, n, Mark(o.progress));
    forall u | u in server.existing && u <= Mark(o.progress) && u !in n.gone
      ensures (server.validity, u) in handed + Tagged(server.validity, o.handed) <==>
              (server.validity, u) in handed || u > Mark(p)
    {
      assert u in uids;
      UnnoticedHands(personal, p, a, uids, n, u);
    }
  }

  /** A run whose server announces no UIDVALIDITY erases the stored one, so a rebuild before the next
      run goes unnoticed. When no message vanishes, that run covers the new epoch exactly when all its
      messages lie above the old mark: any other message up to the mark is lost. */
  lemma MissingValidityLosesMailIff(s: System, a0: Announced, uids0: seq<nat>, n0: Network, rebuilt: Server,
          a: Announced, uids: seq<nat>, n: Network)
    requires Bookkeeping(s) && ValidServer(rebuilt) && rebuilt.validity > s.server.validity
    requires a0.uidValidity.None? && Enabled(s, Run(a0, uids0, n0)) && Sync(false, s.progress, a0, uids0, n0).stored
    requires a.uidValidity == Some(rebuilt.validity) && EndUid(a).Some? && Lists(uids, rebuilt.existing) && n.gone == {}
    requires var p := Sync(false, s.progress, a0, uids0, n0).progress; Sync(false, p, a, uids, n).stored
    ensures var s1 := Take(false, s, Run(a0, uids0, n0));
            var rebuild := Rebuild(rebuilt.validity, rebuilt.existing, rebuilt.uidNext);
            && Enabled(s1, rebuild)
            && var s2 := Take(false, s1, rebuild);
            && Enabled(s2, Run(a, uids, n))
            && var s3 := Take(false, s2, Run(a, uids, n));
            && InEpoch(s3) && s3.progress.lastUidValidity == Some(s3.server.validity)
            && (Covered(s3.progress, s3.server, s3.handed) <==> AboveMark(s1.progress, rebuilt))
  {
    var s1 := Take(false, s, Run(a0, uids0, n0));
    var s2 := Take(false, s1, Rebuild(rebuilt.validity, rebuilt.existing, rebuilt.uidNext));
    StepKeepsBooks(false, s, Run(a0, uids0, n0));
    assert s2.server == rebuilt && s2.progress.lastUidValidity.None? && !InEpoch(s2);
    UnnoticedRunCoversIff(false, s2.progress, a, rebuilt, uids, n, s2.handed);
    assert forall u :: (rebuilt.validity, u) !in s2.handed;
  }

  /** What is asked of a stored run is exact: when the mark is from another epoch, nothing of the current
      one has been handed over and no message vanishes, a stored run of a domain mailbox covers the epoch
      exactly when it notices the rebuild or every message lies above the mark. */
  lemma StoredRunCoversIffNoticed(s: System, a: Announced, uids: seq<nat>, n: Network)
    requires Bookkeeping(s) && Enabled(s, Run(a, uids, n)) && !InEpoch(s) && EndUid(a).Some? && n.gone == {}
    requires Sync(false, s.progress, a, uids, n).stored && forall u :: (s.server.validity, u) !in s.handed
    ensures var s' := Take(false, s, Run(a, uids, n));
            Covered(s'.progress, s'.server, s'.handed) <==> Notices(false, s, a)
  {
    var p := s.progress;
    if ValidityChanged(p, a) {
      RunCovers(false, p, a, s.server, uids, n, s.handed);
    } else {
      UnnoticedRunCoversIff(false, p, a, s.server, uids, n, s.handed);
      assert StartUid(false, p, a) == 1 ==> AboveMark(p, s.server);
    }
  }

  // ----- Where coverage of personal mailboxes fails -----

  lemma {:induction false} FromAscends(uids: seq<nat>, start: nat)
    requires Ascending(uids)
    ensures Ascending(From(uids, start))
  {
    if uids != [] {
      var init := uids[..|uids| - 1];
      FromAscends(init, start);
      FromExact(init, start);
      LastIsLargest(uids);
      AppendAscends(From(init, start), uids[|uids| - 1]);
    }
  }

  lemma {:induction false} UpToAscends(uids: seq<nat>, end: nat)
    requires Ascending(uids)
    ensures Ascending(UpTo(uids, end))
  {
    if uids != [] {
      var init := uids[..|uids| - 1];
      UpToAscends(init, end);
      UpToExact(init, end);
      LastIsLargest(uids);
      AppendAscends(UpTo(init, end), uids[|uids| - 1]);
    }
  }

  lemma LastIsLargest(uids: seq<nat>)
    requires Ascending(uids) && uids != []
    ensures forall u {:trigger u in uids[..|uids| - 1]} :: u in uids[..|uids| - 1] ==> u < uids[|uids| - 1]
  {
  }

  lemma AppendAscends(uids: seq<nat>, last: nat)
    requires Ascending(uids)
    ensures (forall u :: u in uids ==> u < last) ==> Ascending(uids + [last])
  {
    if forall u :: u in uids ==> u < last {
      forall i, j | 0 <= i < j < |uids + [last]|
        ensures (uids + [last])[i] < (uids + [last])[j]
      {
        assert uids[i] in uids;
      }
    }
  }

  lemma RangeAscends(uids: seq<nat>, start: nat, end: Option<nat>)
    requires Ascending(uids)
    ensures Ascending(InRange(uids, start, end))
  {
    FromAscends(uids, start);
    if end.Some? {
      UpToAscends(From(uids, start), end.value);
    }
  }

  lemma {:induction false} PresentAll(uids: seq<nat>)
    ensures Present(uids, {}) == uids
  {
    if uids != [] {
      PresentAll(uids[..|uids| - 1]);
      assert uids == uids[..|uids| - 1] + [uids[|uids| - 1]];
    }
  }

  ghost predicate NothingHanded(validity: nat, handed: set<(nat, nat)>) {
    forall u :: (validity, u) !in handed
  }

  /** The messages of the range that a run leaves out. */
  function Older(found: seq<nat>, wanted: seq<nat>): seq<nat>
    requires |wanted| <= |found|
  {
    found[..|found| - |wanted|]
  }

  lemma WantedSplits(p: Progress, a: Announced, found: seq<nat>)
    requires Ascending(found)
    ensures var wanted := Wanted(true, p, a, found);
            |wanted| <= |found| && found == Older(found, wanted) + wanted &&
            forall u, v :: u in Older(found, wanted) && v in wanted ==> u < v
  {
  }

  /** What a stored recent-messages run hands over, and where it leaves the mark. */
  lemma RecentRunHands(p: Progress, a: Announced, uids: seq<nat>, n: Network)
    requires ModeOf(true, p, a).InitialRecent? && Sync(true, p, a, uids, n).stored
    ensures var o, wanted := Sync(true, p, a, uids, n), Wanted(true, p, a, InRange(uids, 1, EndUid(a)));
            && (forall u :: u in o.handed <==> u in wanted && u !in n.gone)
            && Mark(o.progress) == MaxWith(0, o.handed)
  {
    PresentExact(Wanted(true, p, a, InRange(uids, 1, EndUid(a))), n.gone);
    StoredMark(true, p, a, uids, n);
  }

  ghost predicate AccountedFor(uids: seq<nat>, gone: set<nat>, validity: nat, handed: set<(nat, nat)>) {
    forall u :: u in uids ==> u in gone || (validity, u) in handed
  }

  ghost predicate AllGone(uids: seq<nat>, gone: set<nat>) {
    forall u :: u in uids ==> u in gone
  }

  lemma FoundUpToMark(p: Progress, a: Announced, server: Server, uids: seq<nat>, n: Network)
    requires Lists(uids, server.existing) && ValidServer(server)
    requires ModeOf(true, p, a).InitialRecent? && Sync(true, p, a, uids, n).stored
    ensures forall u :: u in server.existing && u <= Mark(Sync(true, p, a, uids, n).progress) ==>
            u in InRange(uids, 1, EndUid(a))
  {
    var o, found := Sync(true, p, a, uids, n), InRange(uids, 1, EndUid(a));
    RangeExact(uids, 1, EndUid(a));
    RecentRunHands(p, a, uids, n);
    MaxExact(0, o.handed);
    if Mark(o.progress) > 0 {
      assert Mark(o.progress) in Wanted(true, p, a, found);
      assert Mark(o.progress) in found;
    }
    forall u | u in server.existing && u <= Mark(o.progress)
      ensures u in found
    {
      assert u in uids;
    }
  }

  /** The recent-messages run of a personal mailbox covers everything up to its mark exactly when every
      message older than the ten it wanted has vanished or was handed over before, or when all the
      wanted ones have vanished, which leaves no mark. */
  lemma RecentRunCoversIff(p: Progress, a: Announced, server: Server, uids: seq<nat>, n: Network,
          handed: set<(nat, nat)>)
    requires Lists(uids, server.existing) && ValidServer(server)
    requires ModeOf(true, p, a).InitialRecent? && Sync(true, p, a, uids, n).stored
    ensures var o, found := Sync(true, p, a, uids, n), InRange(uids, 1, EndUid(a));
            var wanted := Wanted(true, p, a, found);
            Covered(o.progress, server.(existing := server.existing - n.gone),
              handed + Tagged(server.validity, o.handed)) <==>
            AccountedFor(Older(found, wanted), n.gone, server.validity, handed) || AllGone(wanted, n.gone)
  {
    var o, found := Sync(true, p, a, uids, n), InRange(uids, 1, EndUid(a));
    var wanted := Wanted(true, p, a, found);
    RangeAscends(uids, 1, EndUid(a));
    RangeExact(uids, 1, EndUid(a));
    WantedSplits(p, a, found);
    RecentRunHands(p, a, uids, n);
    MaxExact(0, o.handed);
    if w :| w in wanted && w !in n.gone {
      FoundUpToMark(p, a, server, uids, n);
      OlderBelowMark(o.progress, server, uids, found, wanted, n, handed, o.handed, w);
    }
  }

  lemma OlderBelowMark(progress: Progress, server: Server, uids: seq<nat>, found: seq<nat>, wanted: seq<nat>,
          n: Network, before: set<(nat, nat)>, handed: seq<nat>, w: nat)
    requires |wanted| <= |found| && found == Older(found, wanted) + wanted && w in wanted && w !in n.gone
    requires forall u, v :: u in Older(found, wanted) && v in wanted ==> u < v
    requires forall u :: u in handed <==> u in wanted && u !in n.gone
    requires forall u :: u in handed ==> u <= Mark(progress)
    requires forall u :: u in found ==> u in server.existing
    requires forall u :: u in server.existing && u <= Mark(progress) ==> u in found
    ensures Covered(progress, server.(existing := server.existing - n.gone),
            before + Tagged(server.validity, handed)) <==>
            AccountedFor(Older(found, wanted), n.gone, server.validity, before)
  {
    forall u | u in Older(found, wanted)
      ensures u in found && u < w && u <= Mark(progress) && (server.validity, u) !in Tagged(server.validity, handed)
    {
    }
    forall u | u in wanted && u !in n.gone
      ensures (server.validity, u) in Tagged(server.validity, handed)
    {
    }
  }

  const UNDISTURBED := Network(false, {}, None)

  /** The state in which old mail gets lost: the current epoch has no mark yet, but the flag of an earlier
      epoch is still set. */
  ghost predicate FlagOutlivesMark(s: System) {
    InEpoch(s) && Mark(s.progress) == 0 && s.progress.lastFullSync
  }

  /** No rebuild, and no stored run that handed over a message. */
  ghost predicate SetsNoMark(s: System, step: Step) {
    && !step.Rebuild?
    && (step.Run? ==>
          var o := Sync(true, s.progress, step.announced, step.uids, step.network);
          !o.stored || o.handed == [])
  }

  /** The mark after a stored run that starts without one. */
  lemma MarkIffHanded(personal: bool, s: System, a: Announced, uids: seq<nat>, n: Network)
    requires Bookkeeping(s) && Enabled(s, Run(a, uids, n)) && Sync(personal, s.progress, a, uids, n).stored
    requires ValidityChanged(s.progress, a) || Mark(s.progress) == 0
    ensures var o := Sync(personal, s.progress, a, uids, n); Mark(o.progress) == 0 <==> o.handed == []
  {
    var o := Sync(personal, s.progress, a, uids, n);
    StoredMark(personal, s.progress, a, uids, n);
    if o.handed != [] {
      MaxExact(0, o.handed);
      assert o.handed[0] in o.handed;
      HandedExist(personal, s.progress, a, uids, n, o.handed[0]);
    }
  }

  /** The first run that notices a rebuild leaves this state exactly when it stores nothing or finds no
      message still there. */
  lemma FirstRunSetsNoMarkIff(s: System, a: Announced, uids: seq<nat>, n: Network)
    requires Bookkeeping(s) && s.progress.lastFullSync && Enabled(s, Run(a, uids, n)) && ValidityChanged(s.progress, a)
    ensures FlagOutlivesMark(Take(true, s, Run(a, uids, n))) <==> SetsNoMark(s, Run(a, uids, n))
  {
    if Sync(true, s.progress, a, uids, n).stored {
      MarkIffHanded(true, s, a, uids, n);
    }
  }

  /** It lasts exactly until a rebuild or a stored run that hands over a message. */
  lemma FlagOutlivesMarkIff(s: System, step: Step)
    requires Bookkeeping(s) && Enabled(s, step) && FlagOutlivesMark(s)
    ensures FlagOutlivesMark(Take(true, s, step)) <==> SetsNoMark(s, step)
  {
    if step.Run? && Sync(true, s.progress, step.announced, step.uids, step.network).stored {
      MarkIffHanded(true, s, step.announced, step.uids, step.network);
    }
  }

  ghost predicate NeverSetsMark(s: System, steps: seq<Step>)
    decreases |steps|
  {
    steps == [] ||
    (Enabled(s, steps[0]) && SetsNoMark(s, steps[0]) && NeverSetsMark(Take(true, s, steps[0]), steps[1..]))
  }

  lemma {:induction false} FlagLasts(s: System, steps: seq<Step>, s': System)
    requires Bookkeeping(s) && FlagOutlivesMark(s) && Reaches(true, s, steps, s') && NeverSetsMark(s, steps)
    ensures Bookkeeping(s') && FlagOutlivesMark(s')
    decreases |steps|
  {
    if steps != [] {
      StepKeepsBooks(true, s, steps[0]);
      FlagOutlivesMarkIff(s, steps[0]);
      FlagLasts(Take(true, s, steps[0]), steps[1..], s');
    }
  }

  /** What the server announces about itself. */
  function Announces(server: Server): Announced {
    Announced(Some(server.validity), Some(server.uidNext))
  }

  /** The messages older than the last ten. */
  function BeforeLastTen(left: seq<nat>): seq<nat> {
    if |left| > 10 then left[..|left| - 10] else []
  }

  /** An undisturbed run. */
  function NextRun(s: System, left: seq<nat>): Step {
    Run(Announces(s.server), left, UNDISTURBED)
  }

  /** In this state an undisturbed run takes the last ten messages only. It leaves a mark and the flag, and
      covers the epoch exactly when every older message had been handed over before. */
  lemma LastTenCoverIff(s: System, left: seq<nat>)
    requires Bookkeeping(s) && FlagOutlivesMark(s) && Lists(left, s.server.existing) && left != []
    ensures Enabled(s, NextRun(s, left))
    ensures var s' := Take(true, s, NextRun(s, left));
            && InEpoch(s') && Mark(s'.progress) > 0 && s'.progress.lastFullSync
            && (Covered(s'.progress, s'.server, s'.handed) <==>
                AccountedFor(BeforeLastTen(left), {}, s.server.validity, s.handed))
  {
    assert s.server.existing - {} == s.server.existing;
    LastTenStore(s.progress, Announces(s.server), s.server, left);
    RecentRunCoversIff(s.progress, Announces(s.server), s.server, left, UNDISTURBED, s.handed);
  }

  /** A personal mailbox whose rebuild was noticed by a run that sets no mark, because its search fails, its
      fetch breaks off, it finds nothing or all it finds has vanished, loses mail: after any deliveries,
      deletions and runs that set no mark either, the next undisturbed run covers the epoch exactly when
      every message older than the last ten had been handed over before. */
  lemma RebuildLosesMailIff(s: System, first: Step, steps: seq<Step>, s': System, left: seq<nat>)
    requires Bookkeeping(s) && s.progress.lastFullSync
    requires first.Run? && ValidityChanged(s.progress, first.announced)
    requires Reaches(true, s, [first] + steps, s') && NeverSetsMark(s, [first] + steps)
    requires Lists(left, s'.server.existing) && left != []
    ensures Enabled(s', NextRun(s', left))
    ensures var after := Take(true, s', NextRun(s', left));
            && InEpoch(after) && Mark(after.progress) > 0 && after.progress.lastFullSync
            && (Covered(after.progress, after.server, after.handed) <==>
                AccountedFor(BeforeLastTen(left), {}, s'.server.validity, s'.handed))
  {
    assert ([first] + steps)[1..] == steps;
    StepKeepsBooks(true, s, first);
    FirstRunSetsNoMarkIff(s, first.announced, first.uids, first.network);
    FlagLasts(Take(true, s, first), steps, s');
    LastTenCoverIff(s', left);
  }

  // ----- Two ways to get there -----

  /** A delivery, a deletion or a run that hands over no message. */
  ghost predicate HandsNothing(s: System, step: Step) {
    && !step.Rebuild?
    && (step.Run? ==> Sync(true, s.progress, step.announced, step.uids, step.network).handed == [])
  }

  ghost predicate NeverHands(s: System, steps: seq<Step>)
    decreases |steps|
  {
    steps == [] ||
    (Enabled(s, steps[0]) && HandsNothing(s, steps[0]) && NeverHands(Take(true, s, steps[0]), steps[1..]))
  }

  lemma {:induction false} NeverHandsSetsNoMark(s: System, steps: seq<Step>, s': System)
    requires Reaches(true, s, steps, s') && NeverHands(s, steps)
    ensures NeverSetsMark(s, steps) && s'.handed == s.handed && s'.server.validity == s.server.validity
    decreases |steps|
  {
    if steps != [] {
      NeverHandsSetsNoMark(Take(true, s, steps[0]), steps[1..], s');
    }
  }

  /** When the run that notices the rebuild finds the mailbox empty, or hands over nothing for another
      reason, and the mailbox fills later, all but the last ten messages are lost. */
  lemma EmptyRebuildLosesMailIff(s: System, first: Step, steps: seq<Step>, s': System, left: seq<nat>)
    requires Bookkeeping(s) && s.progress.lastFullSync && NothingHanded(s.server.validity, s.handed)
    requires first.Run? && ValidityChanged(s.progress, first.announced)
    requires Reaches(true, s, [first] + steps, s') && NeverHands(s, [first] + steps)
    requires Lists(left, s'.server.existing) && left != []
    ensures Enabled(s', NextRun(s', left))
    ensures var after := Take(true, s', NextRun(s', left));
            Covered(after.progress, after.server, after.handed) <==> |left| <= 10
  {
    NeverHandsSetsNoMark(s, [first] + steps, s');
    RebuildLosesMailIff(s, first, steps, s', left);
    if |left| > 10 {
      assert left[0] == BeforeLastTen(left)[0] && left[0] in BeforeLastTen(left);
    }
  }

  /** When it breaks off and nothing happens before the next run, the epoch is covered exactly when it had
      handed over all messages but ten. */
  lemma BrokenFirstRunLosesMailIff(s: System, a: Announced, uids: seq<nat>, n: Network)
    requires Bookkeeping(s) && s.progress.lastFullSync && NothingHanded(s.server.validity, s.handed)
    requires a == Announces(s.server) && Enabled(s, Run(a, uids, n)) && ValidityChanged(s.progress, a)
    requires !Sync(true, s.progress, a, uids, n).stored && Present(uids, n.gone) != []
    ensures var o, left := Sync(true, s.progress, a, uids, n), Present(uids, n.gone);
            var s' := Take(true, s, Run(a, uids, n));
            && Enabled(s', NextRun(s', left))
            && var after := Take(true, s', NextRun(s', left));
            Covered(after.progress, after.server, after.handed) <==> |left| <= 10 + |o.handed|
  {
    var o, left := Sync(true, s.progress, a, uids, n), Present(uids, n.gone);
    var first := Run(a, uids, n);
    var s' := Take(true, s, first);
    assert [first] + [] == [first] && [first][1..] == [];
    PresentLists(uids, s.server.existing, n.gone);
    RebuildLosesMailIff(s, first, [], s', left);
    FirstRunHandsPrefix(s.progress, s.server, a, uids, n);
    if |left| > 10 {
      OlderAccountedForIff(left, |left| - 10, o.handed, s.server.validity, s'.handed);
    }
  }

  lemma FirstRunHandsPrefix(p: Progress, server: Server, a: Announced, uids: seq<nat>, n: Network)
    requires ValidServer(server) && Lists(uids, server.existing) && ValidityChanged(p, a)
    requires a == Announced(Some(server.validity), Some(server.uidNext)) && !Sync(true, p, a, uids, n).stored
    ensures Sync(true, p, a, uids, n).handed <= Present(uids, n.gone)
    ensures Sync(true, p, a, uids, n).progress == Reset(p, a)
  {
    EverythingInRange(uids, server);
  }

  /** The undisturbed recent-messages run stores a mark and wants some message. */
  lemma LastTenStore(p: Progress, a: Announced, server: Server, left: seq<nat>)
    requires ValidServer(server) && Mark(p) == 0 && p.lastFullSync && !ValidityChanged(p, a)
    requires a == Announced(Some(server.validity), Some(server.uidNext)) && Lists(left, server.existing) && left != []
    ensures InRange(left, 1, EndUid(a)) == left && StartUid(true, p, a) == 1 && server.uidNext > 1
    ensures var o, wanted := Sync(true, p, a, left, UNDISTURBED), Wanted(true, p, a, left);
            o.stored && Mark(o.progress) > 0 && wanted != [] && !AllGone(wanted, {})
  {
    var o, wanted := Sync(true, p, a, left, UNDISTURBED), Wanted(true, p, a, left);
    assert left[0] in left && server.uidNext > 1;
    EverythingInRange(left, server);
    PresentAll(wanted);
    StoredMark(true, p, a, left, UNDISTURBED);
    MaxExact(0, wanted);
    assert wanted[0] in wanted && wanted[0] in left;
  }

  lemma OlderAccountedForIff(left: seq<nat>, k: nat, first: seq<nat>, validity: nat, handed: set<(nat, nat)>)
    requires Ascending(left) && k <= |left| && first <= left
    requires forall u :: (validity, u) in handed <==> u in first
    ensures AccountedFor(left[..k], {}, validity, handed) <==> k <= |first|
  {
    if k > |first| {
      var u := left[|first|];
      assert u == left[..k][|first|] && u in left[..k];
      assert u !in first && (validity, u) !in handed;
    } else {
      forall u | u in left[..k]
        ensures (validity, u) in handed
      {
        assert left[..k] <= first;
      }
    }
  }

  lemma {:induction false} PresentAscends(uids: seq<nat>, gone: set<nat>)
    requires Ascending(uids)
    ensures Ascending(Present(uids, gone))
  {
    if uids != [] {
      var init := uids[..|uids| - 1];
      PresentAscends(init, gone);
      PresentExact(init, gone);
      LastIsLargest(uids);
      AppendAscends(Present(init, gone), uids[|uids| - 1]);
      assert Present(init, gone) + [] == Present(init, gone);
    }
  }

  lemma PresentLists(uids: seq<nat>, existing: set<nat>, gone: set<nat>)
    requires Lists(uids, existing)
    ensures Lists(Present(uids, gone), existing - gone)
  {
    PresentAscends(uids, gone);
    PresentExact(uids, gone);
  }

  lemma UidsBelowNext(uids: seq<nat>, server: Server)
    requires ValidServer(server) && Lists(uids, server.existing)
    ensures forall i :: 0 <= i < |uids| ==> 1 <= uids[i] < server.uidNext
  {
    forall i | 0 <= i < |uids|
      ensures 1 <= uids[i] < server.uidNext
    {
      assert uids[i] in uids;
    }
  }

  lemma {:induction false} FromAll(uids: seq<nat>, start: nat)
    requires forall i :: 0 <= i < |uids| ==> uids[i] >= start
    ensures From(uids, start) == uids
  {
    if uids != [] {
      assert uids == uids[..|uids| - 1] + [uids[|uids| - 1]];
      FromAll(uids[..|uids| - 1], start);
    }
  }

  lemma {:induction false} UpToAll(uids: seq<nat>, end: nat)
    requires forall i :: 0 <= i < |uids| ==> uids[i] <= end
    ensures UpTo(uids, end) == uids
  {
    if uids != [] {
      assert uids == uids[..|uids| - 1] + [uids[|uids| - 1]];
      UpToAll(uids[..|uids| - 1], end);
    }
  }

  lemma RangeAll(uids: seq<nat>, start: nat, end: nat)
    requires forall i :: 0 <= i < |uids| ==> start <= uids[i] <= end
    ensures InRange(uids, start, Some(end)) == uids
  {
    FromAll(uids, start);
    UpToAll(uids, end);
  }

  lemma EverythingInRange(uids: seq<nat>, server: Server)
    requires ValidServer(server) && Lists(uids, server.existing)
    ensures InRange(uids, 1, EndUid(Announced(Some(server.validity), Some(server.uidNext)))) == uids || uids == []
  {
    UidsBelowNext(uids, server);
    RangeAll(uids, 1, server.uidNext - 1);
  }

  /** A message at or below the mark that was never handed over, in a personal mailbox whose flag is set. */
  ghost predicate Skipped(s: System, uid: nat) {
    InEpoch(s) && s.progress.lastFullSync && 0 < uid <= Mark(s.progress) && (s.server.validity, uid) !in s.handed
  }

  lemma SkippedByStep(s: System, step: Step, uid: nat)
    requires Bookkeeping(s) && Enabled(s, step) && Skipped(s, uid)
    requires !step.Rebuild? && (step.Run? ==> EndUid(step.announced).Some?)
    ensures Skipped(Take(true, s, step), uid)
  {
    if step.Run? {
      var p, a, uids, n := s.progress, step.announced, step.uids, step.network;
      var start, end := StartUid(true, p, a), EndUid(a);
      RangeExact(uids, start, end);
      var wanted := Wanted(true, p, a, InRange(uids, start, end));
      PresentExact(wanted, n.gone);
      assert uid !in wanted;
      assert uid !in Sync(true, p, a, uids, n).handed;
      if Sync(true, p, a, uids, n).stored {
        StoredMark(true, p, a, uids, n);
      }
    }
  }

  /** A skipped message is never fetched again in its epoch, over any run of steps in which the server
      announces UIDNEXT. */
  lemma {:induction false} SkippedStaysSkipped(s: System, steps: seq<Step>, s': System, uid: nat)
    requires Bookkeeping(s) && Skipped(s, uid) && Reaches(true, s, steps, s')
    requires forall i :: 0 <= i < |steps| ==> !steps[i].Rebuild? && (steps[i].Run? ==> EndUid(steps[i].announced).Some?)
    ensures Skipped(s', uid)
    decreases |steps|
  {
    if steps != [] {
      StepKeepsBooks(true, s, steps[0]);
      SkippedByStep(s, steps[0], uid);
      forall i | 0 <= i < |steps[1..]|
        ensures !steps[1..][i].Rebuild? && (steps[1..][i].Run? ==> EndUid(steps[1..][i].announced).Some?)
      {
        assert steps[1..][i] == steps[i + 1];
      }
      SkippedStaysSkipped(Take(true, s, steps[0]), steps[1..], s', uid);
    }
  }
}
