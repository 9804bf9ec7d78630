/** What an undisturbed synchronisation hands over from each state, and that every message is handed over in
    the end. */
module UidCompleteness {
  import opened Sequences
  import opened UidCoverage
  import opened UidSync
  import opened Wrappers

  // ----- What an undisturbed run hands over -----

  /** The mark is from an older mailbox: the stored UIDVALIDITY is not the server's. */
  predicate IsRebuilt(p: Progress, server: Server) {
    p.lastUidValidity.Some? && p.lastUidValidity.value != server.validity
  }

  /** The mark, zero when there is none. */
  function LastSynced(p: Progress): nat {
    match p.lastSyncedUid
    case None => 0
    case Some(uid) => uid
  }

  /** The message is one of the last `n`. */
  predicate AmongLast(uids: seq<nat>, n: nat, u: nat) {
    exists i :: 0 <= i < |uids| && |uids| - n <= i && uids[i] == u
  }

  /** An undisturbed run is to hand over the message: every one of a rebuilt mailbox, the last ten of a
      personal mailbox without a mark, every one of a personal mailbox with a mark but no flag, and else
      those above the mark. */
  predicate Due(personal: bool, p: Progress, server: Server, uids: seq<nat>, u: nat) {
    u in uids &&
    if IsRebuilt(p, server) then true
    else if personal && LastSynced(p) == 0 then AmongLast(uids, 10, u)
    else if personal && !p.lastFullSync then true
    else u > LastSynced(p)
  }

  lemma AmongAll(uids: seq<nat>, u: nat)
    ensures |uids| <= 10 ==> (AmongLast(uids, 10, u) <==> u in uids)
    ensures |uids| > 10 ==> (AmongLast(uids, 10, u) <==> u in uids[|uids| - 10..])
  {
    if |uids| > 10 {
      var tail := uids[|uids| - 10..];
      if AmongLast(uids, 10, u) {
        var i :| 0 <= i < |uids| && |uids| - 10 <= i && uids[i] == u;
        assert tail[i - (|uids| - 10)] == u;
      }
      if u in tail {
        var i :| 0 <= i < |tail| && tail[i] == u;
        assert uids[i + (|uids| - 10)] == u;
      }
    }
  }

  lemma UndisturbedHandsWanted(personal: bool, p: Progress, a: Announced, uids: seq<nat>)
    ensures var found := InRange(uids, StartUid(personal, p, a), EndUid(a));
            var o := Sync(personal, p, a, uids, UNDISTURBED);
            o.handed == Wanted(personal, p, a, found) && (o.stored <==> o.handed != [])
  {
    var start := StartUid(personal, p, a);
    var found := InRange(uids, start, EndUid(a));
    RangeExact(uids, start, EndUid(a));
    PresentAll(Wanted(personal, p, a, found));
    if found != [] {
      assert found[0] in found;
    }
  }

  lemma RecentIffDue(p: Progress, a: Announced, server: Server, uids: seq<nat>, found: seq<nat>, u: nat)
    requires a.uidValidity == Some(server.validity) && ModeOf(true, p, a).InitialRecent? && found == uids
    ensures u in Wanted(true, p, a, found) <==> Due(true, p, server, uids, u)
  {
    AmongAll(uids, u);
  }

  lemma RestIffDue(personal: bool, p: Progress, a: Announced, server: Server, uids: seq<nat>, u: nat)
    requires a.uidValidity == Some(server.validity) && !ModeOf(personal, p, a).InitialRecent?
    requires u in uids ==> u >= 1
    ensures u in uids && u >= StartUid(personal, p, a) <==> Due(personal, p, server, uids, u)
  {
  }

  lemma RangeOfAll(server: Server, uids: seq<nat>)
    requires ValidServer(server) && Lists(uids, server.existing)
    ensures InRange(uids, 1, EndUid(Announces(server))) == uids
  {
    EverythingInRange(uids, server);
  }

  /** Without a mark: the last ten of all. */
  lemma RecentWantedIff(p: Progress, server: Server, uids: seq<nat>, u: nat)
    requires ValidServer(server) && Lists(uids, server.existing) && ModeOf(true, p, Announces(server)).InitialRecent?
    ensures u in Wanted(true, p, Announces(server), InRange(uids, 1, EndUid(Announces(server)))) <==>
            Due(true, p, server, uids, u)
  {
    RangeOfAll(server, uids);
    RecentIffDue(p, Announces(server), server, uids, uids, u);
  }

  /** In the other modes: the range that starts where the mode says. */
  lemma RestWantedIff(personal: bool, p: Progress, server: Server, uids: seq<nat>, u: nat)
    requires ValidServer(server) && Lists(uids, server.existing)
    requires !ModeOf(personal, p, Announces(server)).InitialRecent?
    ensures u in InRange(uids, StartUid(personal, p, Announces(server)), EndUid(Announces(server))) <==>
            Due(personal, p, server, uids, u)
  {
    RestIffDue(personal, p, Announces(server), server, uids, u);
    if uids != [] {
      assert uids[0] in uids;
      InRangeIff(uids, StartUid(personal, p, Announces(server)), server.uidNext - 1, u);
    }
  }

  lemma WantedIffDue(personal: bool, p: Progress, server: Server, uids: seq<nat>, u: nat)
    requires ValidServer(server) && Lists(uids, server.existing)
    ensures var a := Announces(server);
            u in Wanted(personal, p, a, InRange(uids, StartUid(personal, p, a), EndUid(a))) <==>
            Due(personal, p, server, uids, u)
  {
    if ModeOf(personal, p, Announces(server)).InitialRecent? {
      RecentWantedIff(p, server, uids, u);
    } else {
      RestWantedIff(personal, p, server, uids, u);
    }
  }

  /** From every state, an undisturbed run hands over exactly the messages that are due, in order. */
  lemma UndisturbedRunHands(personal: bool, p: Progress, server: Server, uids: seq<nat>)
    requires ValidServer(server) && Lists(uids, server.existing)
    ensures var handed := Sync(personal, p, Announces(server), uids, UNDISTURBED).handed;
            Ascending(handed) && forall u :: u in handed <==> Due(personal, p, server, uids, u)
  {
    var a := Announces(server);
    UndisturbedHandsWanted(personal, p, Announces(server), uids);
    RangeAscends(uids, StartUid(personal, p, a), EndUid(a));
    forall u
      ensures u in Sync(personal, p, a, uids, UNDISTURBED).handed <==> Due(personal, p, server, uids, u)
    {
      WantedIffDue(personal, p, server, uids, u);
    }
  }

  /** Without UIDNEXT the search is open: when no message lies above the mark, it finds the last one again. */
  lemma OpenRunHands(personal: bool, p: Progress, a: Announced, server: Server, uids: seq<nat>, u: nat)
    requires ValidServer(server) && Lists(uids, server.existing)
    requires (a.uidNext.None? || a.uidNext.value == 0) && a.uidValidity == Some(server.validity)
    ensures u in Sync(personal, p, a, uids, UNDISTURBED).handed <==>
            || Due(personal, p, server, uids, u)
            || (uids != [] && u == uids[|uids| - 1] && !IsRebuilt(p, server) && u <= LastSynced(p) &&
                (personal ==> LastSynced(p) > 0 && p.lastFullSync))
  {
    UndisturbedHandsWanted(personal, p, a, uids);
    if uids != [] {
      UidsBelowNext(uids, server);
      assert 1 <= uids[|uids| - 1];
      if ModeOf(personal, p, a).InitialRecent? {
        FromAll(uids, 1);
        RecentIffDue(p, a, server, uids, uids, u);
      } else {
        OpenRange(uids, StartUid(personal, p, a), u);
        RestIffDue(personal, p, a, server, uids, u);
      }
    }
  }

  /** When UIDNEXT is announced, no run, whatever disturbs it, hands over a message that does not lie below. */
  lemma RunsStayBelowNext(personal: bool, p: Progress, a: Announced, uids: seq<nat>, n: Network, u: nat)
    requires a.uidNext.Some? && a.uidNext.value > 0 && u in Sync(personal, p, a, uids, n).handed
    ensures u < a.uidNext.value && u in uids && u !in n.gone
  {
    var found := InRange(uids, StartUid(personal, p, a), EndUid(a));
    RangeExact(uids, StartUid(personal, p, a), EndUid(a));
    PresentExact(Wanted(personal, p, a, found), n.gone);
    assert u in Present(Wanted(personal, p, a, found), n.gone);
    assert u in Wanted(personal, p, a, found) ==> u in found;
  }

  lemma OpenRange(uids: seq<nat>, start: nat, u: nat)
    requires Ascending(uids) && uids != []
    ensures u in InRange(uids, start, None) <==>
            u in uids && (u >= start || (u == uids[|uids| - 1] && uids[|uids| - 1] < start))
  {
    FromExact(uids, start);
    var tail := From(uids, start);
    assert uids[|uids| - 1] in uids;
    if tail != [] {
      assert tail[0] in tail;
      LastIsLargest(uids);
      assert uids == uids[..|uids| - 1] + [uids[|uids| - 1]];
    }
  }

  lemma OutcomeProgress(personal: bool, p: Progress, a: Announced, uids: seq<nat>, n: Network)
    ensures var o := Sync(personal, p, a, uids, n);
            o.progress == if o.stored then
              Store(personal, p, a, MaxWith(if ValidityChanged(p, a) then 0 else Mark(p), o.handed))
            else Reset(p, a)
  {
  }

  /** What such a run stores: nothing new when it hands over nothing, except that a rebuild resets the mark;
      else the last message as the mark, unless the old mark is higher, and the flag unless it was the run
      without a mark. */
  lemma UndisturbedRunStores(personal: bool, p: Progress, server: Server, uids: seq<nat>)
    requires ValidServer(server) && Lists(uids, server.existing)
    ensures var o, rebuilt := Sync(personal, p, Announces(server), uids, UNDISTURBED), IsRebuilt(p, server);
            var before := if rebuilt then 0 else LastSynced(p);
            if o.handed == [] then
              o.progress == if rebuilt then Progress(None, Some(server.validity), p.lastFullSync) else p
            else
              && o.progress.lastUidValidity == Some(server.validity)
              && (o.progress.lastFullSync <==> p.lastFullSync || rebuilt || !personal || LastSynced(p) > 0)
              && (forall u :: u in o.handed ==> u <= LastSynced(o.progress))
              && (LastSynced(o.progress) == before || LastSynced(o.progress) in o.handed)
              && LastSynced(o.progress) >= before
  {
    UndisturbedHandsWanted(personal, p, Announces(server), uids);
    OutcomeProgress(personal, p, Announces(server), uids, UNDISTURBED);
    MaxExact(if IsRebuilt(p, server) then 0 else Mark(p),
      Sync(personal, p, Announces(server), uids, UNDISTURBED).handed);
  }

  // ----- Every message is handed over in the end -----

  ghost predicate AllHanded(s: System) {
    forall u :: u in s.server.existing ==> (s.server.validity, u) in s.handed
  }

  lemma DueAreHanded(personal: bool, s: System, uids: seq<nat>)
    requires ValidServer(s.server) && Lists(uids, s.server.existing) && Enabled(s, NextRun(s, uids))
    ensures var s' := Take(personal, s, NextRun(s, uids));
            && s'.server == s.server && s.handed <= s'.handed
            && forall u: nat :: Due(personal, s.progress, s.server, uids, u) ==> (s.server.validity, u) in s'.handed
  {
    UndisturbedRunHands(personal, s.progress, s.server, uids);
    assert s.server.existing - {} == s.server.existing;
  }

  /** Unless it is the run of a personal mailbox without a mark, an undisturbed run that starts from a
      covered mark, or meets a rebuild, leaves no message behind. */
  lemma UndisturbedRunCompletes(personal: bool, s: System, uids: seq<nat>)
    requires ValidServer(s.server) && Lists(uids, s.server.existing) && Enabled(s, NextRun(s, uids))
    requires IsRebuilt(s.progress, s.server) || Covered(s.progress, s.server, s.handed)
    requires personal ==> IsRebuilt(s.progress, s.server) || LastSynced(s.progress) > 0
    ensures AllHanded(Take(personal, s, NextRun(s, uids)))
  {
    DueAreHanded(personal, s, uids);
    var s' := Take(personal, s, NextRun(s, uids));
    forall u | u in s.server.existing
      ensures (s.server.validity, u) in s'.handed
    {
      assert Due(personal, s.progress, s.server, uids, u) || (s.server.validity, u) in s.handed;
    }
  }

  /** In every reachable state of a domain mailbox whose mark is of the current epoch, or whose rebuild
      shows, an undisturbed run leaves no message behind. */
  lemma DomainRunsComplete(server: Server, steps: seq<Step>, s: System, uids: seq<nat>)
    requires ValidServer(server) && Reaches(false, Start(server), steps, s) && AllPermitted(false, Start(server), steps)
    requires Lists(uids, s.server.existing) && (InEpoch(s) || IsRebuilt(s.progress, s.server))
    ensures Enabled(s, NextRun(s, uids)) && AllHanded(Take(false, s, NextRun(s, uids)))
  {
    RunsKeepInvariant(false, Start(server), steps, s);
    UndisturbedRunCompletes(false, s, uids);
  }

  /** So does one of a personal mailbox whose epoch a stored run has gone through completely. */
  lemma PersonalRunsComplete(server: Server, steps: seq<Step>, s: System, uids: seq<nat>)
    requires ValidServer(server) && Reaches(true, Start(server), steps, s) && AllPermitted(true, Start(server), steps)
    requires Lists(uids, s.server.existing) && s.fullPass == Some(s.server.validity)
    ensures Enabled(s, NextRun(s, uids)) && AllHanded(Take(true, s, NextRun(s, uids)))
  {
    RunsKeepInvariant(true, Start(server), steps, s);
    UndisturbedRunCompletes(true, s, uids);
  }

  /** In every mode, a message that is delivered is handed over by the next undisturbed run, as long as the mark
      does not lie beyond the messages the server has had. */
  lemma DeliveredMailArrives(personal: bool, s: System, uid: nat, uids: seq<nat>)
    requires Bookkeeping(s) && Enabled(s, Append(uid))
    requires IsRebuilt(s.progress, s.server) || LastSynced(s.progress) < s.server.uidNext
    requires Lists(uids, Take(personal, s, Append(uid)).server.existing)
    ensures var delivered := Take(personal, s, Append(uid));
            && uid in delivered.server.existing && s.server.existing <= delivered.server.existing
            && Enabled(delivered, NextRun(delivered, uids))
            && (s.server.validity, uid) in Take(personal, delivered, NextRun(delivered, uids)).handed
  {
    var delivered := Take(personal, s, Append(uid));
    assert uid in uids;
    assert uids[|uids| - 1] == uid by {
      assert uids[|uids| - 1] in uids;
      LastIsLargest(uids);
      assert uids == uids[..|uids| - 1] + [uids[|uids| - 1]];
    }
    assert AmongLast(uids, 10, uid);
    DueAreHanded(personal, delivered, uids);
  }

  ghost predicate OnlyMail(steps: seq<Step>) {
    forall i :: 0 <= i < |steps| ==> steps[i].Append? || steps[i].Expunge?
  }

  lemma {:induction false} MailKeepsProgress(personal: bool, s: System, steps: seq<Step>, s': System)
    requires Reaches(personal, s, steps, s') && OnlyMail(steps) && ValidServer(s.server)
    ensures s'.progress == s.progress && s'.server.validity == s.server.validity && s'.markEpoch == s.markEpoch
    ensures ValidServer(s'.server) && s.server.uidNext <= s'.server.uidNext && s'.handed == s.handed
    decreases |steps|
  {
    if steps != [] {
      assert forall i :: 0 <= i < |steps[1..]| ==> steps[1..][i] == steps[i + 1];
      MailKeepsProgress(personal, Take(personal, s, steps[0]), steps[1..], s');
    }
  }

  /** Two undisturbed runs of a fresh personal mailbox that is not empty hand over every message, whatever is
      delivered and deleted in between: the first the last ten, the second all that exist then. */
  lemma TwoRunsHandAll(server: Server, uids: seq<nat>, steps: seq<Step>, s: System, uids': seq<nat>)
    requires ValidServer(server) && Lists(uids, server.existing) && uids != []
    requires var first := Take(true, Start(server), NextRun(Start(server), uids)); Reaches(true, first, steps, s)
    requires OnlyMail(steps) && Lists(uids', s.server.existing)
    ensures var first := Take(true, Start(server), NextRun(Start(server), uids));
            forall u: nat :: AmongLast(uids, 10, u) <==> (server.validity, u) in first.handed
    ensures Enabled(s, NextRun(s, uids')) && AllHanded(Take(true, s, NextRun(s, uids')))
    ensures uids' != [] ==> Take(true, s, NextRun(s, uids')).progress.lastFullSync
    ensures uids' != [] ==> Take(true, s, NextRun(s, uids')).fullPass == Some(s.server.validity)
  {
    var first := Take(true, Start(server), NextRun(Start(server), uids));
    FirstRunLeavesMark(server, uids);
    MailKeepsProgress(true, first, steps, s);
    DueAreHanded(true, s, uids');
    UndisturbedRunStores(true, s.progress, s.server, uids');
    UndisturbedRunHands(true, s.progress, s.server, uids');
    if uids' != [] {
      assert uids'[0] in uids';
      FullPassIsReached(s, uids');
    }
  }

  /** An undisturbed run of a personal mailbox that meets a rebuild, or has a mark and no flag, goes through the
      whole history unless there is none. */
  lemma FullPassIsReached(s: System, uids: seq<nat>)
    requires ValidServer(s.server) && Lists(uids, s.server.existing) && uids != [] && Enabled(s, NextRun(s, uids))
    requires IsRebuilt(s.progress, s.server) || (LastSynced(s.progress) > 0 && !s.progress.lastFullSync)
    ensures Take(true, s, NextRun(s, uids)).fullPass == Some(s.server.validity)
  {
    UndisturbedRunHands(true, s.progress, s.server, uids);
    UndisturbedRunStores(true, s.progress, s.server, uids);
    UndisturbedHandsWanted(true, s.progress, Announces(s.server), uids);
    assert uids[0] in uids;
    assert Due(true, s.progress, s.server, uids, uids[0]);
  }

  lemma DueIffAmongLast(server: Server, uids: seq<nat>, u: nat)
    ensures Due(true, FRESH, server, uids, u) <==> AmongLast(uids, 10, u)
    ensures uids != [] && u == uids[|uids| - 1] ==> AmongLast(uids, 10, u)
  {
  }

  lemma FirstRunHands(server: Server, uids: seq<nat>)
    requires ValidServer(server) && Lists(uids, server.existing) && uids != []
    ensures var o := Sync(true, FRESH, Announces(server), uids, UNDISTURBED);
            && o.handed != [] && (forall u: nat :: u in o.handed <==> AmongLast(uids, 10, u))
            && (forall u :: u in o.handed ==> 1 <= u < server.uidNext)
  {
    var handed := Sync(true, FRESH, Announces(server), uids, UNDISTURBED).handed;
    UndisturbedRunHands(true, FRESH, server, uids);
    DueIffAmongLast(server, uids, uids[|uids| - 1]);
    assert uids[|uids| - 1] in handed;
    forall u: nat
      ensures u in handed <==> AmongLast(uids, 10, u)
    {
      DueIffAmongLast(server, uids, u);
    }
    forall u | u in handed
      ensures 1 <= u < server.uidNext
    {
      HandedExist(true, FRESH, Announces(server), uids, UNDISTURBED, u);
    }
  }

  lemma FirstRunMark(server: Server, uids: seq<nat>)
    requires ValidServer(server) && Lists(uids, server.existing) && uids != []
    ensures var p := Sync(true, FRESH, Announces(server), uids, UNDISTURBED).progress;
            0 < LastSynced(p) < server.uidNext && !p.lastFullSync && p.lastUidValidity == Some(server.validity)
  {
    FirstRunHands(server, uids);
    UndisturbedRunStores(true, FRESH, server, uids);
    var o := Sync(true, FRESH, Announces(server), uids, UNDISTURBED);
    assert o.handed[0] in o.handed;
  }

  lemma FirstRunLeavesMark(server: Server, uids: seq<nat>)
    requires ValidServer(server) && Lists(uids, server.existing) && uids != []
    ensures var first := Take(true, Start(server), NextRun(Start(server), uids));
            && (forall u: nat :: AmongLast(uids, 10, u) <==> (server.validity, u) in first.handed)
            && first.server == server && InEpoch(first)
            && 0 < LastSynced(first.progress) < server.uidNext && !first.progress.lastFullSync
            && first.progress.lastUidValidity == Some(server.validity)
  {
    FirstRunHands(server, uids);
    FirstRunMark(server, uids);
    UndisturbedHandsWanted(true, FRESH, Announces(server), uids);
    assert server.existing - {} == server.existing;
  }
}
