/** The retention job object: three stages that update the tables row by row and count what they do. */
module RetentionJob {
  import opened Retention
  import opened Sequences
  import opened Wrappers

  datatype Options = Options(dryRun: bool, now: int, only: Option<nat>, limit: Option<nat>)

  /** A limit that is missing, not finite or below one means no limit; larger ones are capped. */
  function ParseLimit(limit: Option<JsNumber>): Option<nat> {
    if limit.None? || limit.value.NotFinite? || limit.value.r < 1.0 then None
    else if limit.value.r.Floor > 10_000 then Some(10_000)
    else Some(limit.value.r.Floor)
  }

  /** A limit is applied exactly when a finite number of at least one is given, and then it is its whole
      part or the cap. */
  lemma ParsedLimit(limit: Option<JsNumber>)
    ensures ParseLimit(limit).Some? <==> limit.Some? && limit.value.Finite? && limit.value.r >= 1.0
    ensures ParseLimit(limit).Some? ==>
              var n := ParseLimit(limit).value;
              1 <= n <= 10_000 && n as real <= limit.value.r && (n < 10_000 ==> limit.value.r < (n + 1) as real)
  {
  }

  /** What a stage does with one row. */
  datatype Did = Rejected | LeftForever | LeftFresh | DidArchive | DidDelete | DidFail

  datatype StageStats = StageStats(
    scanned: nat, expired: nat, archived: nat, deleted: nat, skippedNever: nat, invalidPolicy: nat, failed: nat)

  datatype TrashStats = TrashStats(
    scannedUsers: nat, eligibleUsers: nat, scannedEmails: nat, purgedEmails: nat, skippedEmails: nat, failedEmails: nat)

  function Handle(fate: Fate, blocked: bool): Did {
    match fate
    case Invalid => Rejected
    case Never => LeftForever
    case Fresh => LeftFresh
    case ExpiredArchive => DidArchive
    case ExpiredDelete => if blocked then DidFail else DidDelete
  }

  /** What happens to a mailbox row; nothing blocks a dry run. */
  function HandleMailbox(db: Db, o: Options, broken: set<nat>, id: nat): Did {
    Handle(FateOfMailbox(db, id, o.now), !o.dryRun && IsBlocked(db.emails, id, broken))
  }

  function HandleEmail(db: Db, o: Options, e: nat): Did {
    Handle(FateOfEmail(db, e, o.now), false)
  }

  /** What the counters count for a policy of `days` from `base`: days other than minus one and the positive
      ones are invalid, minus one never expires, and the others do after so many whole days. */
  ghost predicate CountedAs(did: Did, days: int, base: int, now: int, goes: bool, stuck: bool) {
    match did
    case Rejected => days == 0 || days < -1
    case LeftForever => days == -1
    case LeftFresh => days > 0 && base + days * 86_400_000 > now
    case DidArchive => HavePassed(days, base, now) && !goes
    case DidDelete => HavePassed(days, base, now) && goes && !stuck
    case DidFail => HavePassed(days, base, now) && goes && stuck
  }

  lemma IsBlockedIff(emails: map<nat, Email>, id: nat, broken: set<nat>)
    ensures IsBlocked(emails, id, broken) <==> exists b :: b in broken && b in emails && emails[b].mailbox == id
  {
    if b :| b in broken && b in emails && emails[b].mailbox == id {
      assert b in MailIn(emails, id) * broken;
    }
  }

  /** Each scanned mailbox is counted under exactly one heading; its deletion fails exactly when it is no dry run
      and some email's files cannot be deleted. */
  lemma MailboxesAreCountedAs(db: Db, o: Options, broken: set<nat>, id: nat, did: Did)
    requires db.Valid() && id in db.mailboxes
    ensures var m := db.mailboxes[id];
            var user := db.users[m.user];
            HandleMailbox(db, o, broken, id) == did <==>
            CountedAs(did, match m.mailboxDays case Some(days) => days case None => user.mailboxExpireDays,
                      match m.lastEmailReceivedAt case Some(time) => time case None => m.createdAt, o.now,
                      MailboxGoes(user, m),
                      !o.dryRun && exists b :: b in broken && b in db.emails && db.emails[b].mailbox == id)
  {
    IsBlockedIff(db.emails, id, broken);
  }

  /** So is each scanned email; an email never fails. */
  lemma EmailsAreCountedAs(db: Db, o: Options, e: nat, did: Did)
    requires db.Valid() && e in db.emails
    ensures var m := db.mailboxes[db.emails[e].mailbox];
            var user := db.users[m.user];
            HandleEmail(db, o, e) == did <==>
            CountedAs(did, match m.emailDays case Some(days) => days case None => user.emailExpireDays,
                      db.emails[e].receivedAt, o.now, EmailGoes(user, m), false)
  {
  }

  /** How many of the rows are dealt with as `what`. */
  function Tally(rows: seq<nat>, did: nat -> Did, what: Did): nat {
    if rows == [] then 0
    else Tally(rows[..|rows| - 1], did, what) + if did(rows[|rows| - 1]) == what then 1 else 0
  }

  function StatsOf(rows: seq<nat>, did: nat -> Did): StageStats {
    var archived, deleted, failed := Tally(rows, did, DidArchive), Tally(rows, did, DidDelete),
      Tally(rows, did, DidFail);
    StageStats(|rows|, archived + deleted + failed, archived, deleted, Tally(rows, did, LeftForever),
      Tally(rows, did, Rejected), failed)
  }

  /** The counters add up over the rows scanned. */
  lemma {:induction false} CountersAddUp(rows: seq<nat>, did: nat -> Did)
    ensures var s := StatsOf(rows, did);
            s.scanned == s.expired + s.skippedNever + s.invalidPolicy + Tally(rows, did, LeftFresh)
  {
    if rows != [] {
      CountersAddUp(rows[..|rows| - 1], did);
    }
  }

  /** No expired row among the candidates means no expired row counted. */
  lemma {:induction false} NothingExpired(rows: seq<nat>, did: nat -> Did)
    requires forall i :: 0 <= i < |rows| ==>
               !did(rows[i]).DidArchive? && !did(rows[i]).DidDelete? && !did(rows[i]).DidFail?
    ensures StatsOf(rows, did).expired == 0
  {
    if rows != [] {
      NothingExpired(rows[..|rows| - 1], did);
    }
  }

  function Ids(rows: seq<nat>): set<nat> {
    set i | 0 <= i < |rows| :: rows[i]
  }

  /** The result of a query: distinct matching rows, all of them unless the limit cuts them off. */
  ghost predicate IsQueryResult(rows: seq<nat>, matching: set<nat>, limit: Option<nat>) {
    && Distinct(rows) && Ids(rows) <= matching
    && (limit.None? ==> Ids(rows) == matching)
    && (limit.Some? ==> |rows| <= limit.value && (|rows| == limit.value || Ids(rows) == matching))
  }

  method Smallest(ids: set<nat>) returns (least: nat)
    requires ids != {}
    ensures least in ids && forall i :: i in ids ==> least <= i
  {
    least :| least in ids;
    var rest := ids - {least};
    while rest != {}
      invariant least in ids && rest <= ids && forall i :: i in ids && i !in rest ==> least <= i
      decreases rest
    {
      var i :| i in rest;
      rest := rest - {i};
      if i < least {
        least := i;
      }
    }
  }

  /** The matching rows in id order, at most `limit` of them. */
  method FindMany(matching: set<nat>, limit: Option<nat>) returns (rows: seq<nat>)
    ensures IsQueryResult(rows, matching, limit)
    ensures forall i, j :: 0 <= i < j < |rows| ==> rows[i] < rows[j]
    ensures forall k, i :: k in matching && k !in Ids(rows) && 0 <= i < |rows| ==> rows[i] < k
    ensures rows == [] ==> matching == {} || limit == Some(0)
  {
    rows := [];
    var rest := matching;
    while rest != {} && (limit.None? || |rows| < limit.value)
      invariant rest <= matching && Ids(rows) == matching - rest
      invariant forall i, j :: 0 <= i < j < |rows| ==> rows[i] < rows[j]
      invariant forall i, k :: 0 <= i < |rows| && k in rest ==> rows[i] < k
      invariant limit.Some? ==> |rows| <= limit.value
      decreases rest
    {
      var least := Smallest(rest);
      IdsSnoc(rows, least);
      rows := rows + [least];
      rest := rest - {least};
    }
  }

  lemma IdsSnoc(rows: seq<nat>, id: nat)
    ensures Ids(rows + [id]) == Ids(rows) + {id}
  {
    var all := rows + [id];
    assert all[|rows|] == id;
    forall i | 0 <= i < |rows|
      ensures rows[i] in Ids(all)
    {
      assert all[i] == rows[i];
    }
  }

  lemma IdsNext(rows: seq<nat>, i: nat)
    requires i < |rows|
    ensures Ids(rows[..i + 1]) == Ids(rows[..i]) + {rows[i]}
    ensures Distinct(rows) ==> rows[i] !in Ids(rows[..i])
  {
    assert rows[..i + 1] == rows[..i] + [rows[i]];
    IdsSnoc(rows[..i], rows[i]);
  }

  function Without(emails: map<nat, Email>, gone: set<nat>): map<nat, Email> {
    map e | e in emails && e !in gone :: emails[e]
  }

  /** The purge of a mailbox has removed `gone`: the first of its emails, none of them broken. */
  ghost predicate PurgedFirst(before: map<nat, Email>, emails: map<nat, Email>, mailbox: nat, broken: set<nat>,
          gone: set<nat>) {
    && gone <= MailIn(before, mailbox) && gone !! broken
    && emails == Without(before, gone)
    && forall g, k :: g in gone && k in MailIn(before, mailbox) && k !in gone ==> g < k
  }

  lemma PurgedRest(before: map<nat, Email>, emails: map<nat, Email>, mailbox: nat, broken: set<nat>, gone: set<nat>)
    requires PurgedFirst(before, emails, mailbox, broken, gone)
    ensures MailIn(emails, mailbox) == MailIn(before, mailbox) - gone
  {
  }

  lemma PurgedAll(before: map<nat, Email>, emails: map<nat, Email>, mailbox: nat, broken: set<nat>, gone: set<nat>)
    requires PurgedFirst(before, emails, mailbox, broken, gone) && MailIn(emails, mailbox) == {}
    ensures !IsBlocked(before, mailbox, broken) && gone == Doomed(before, mailbox, broken)
  {
    PurgedRest(before, emails, mailbox, broken, gone);
    assert MailIn(before, mailbox) * broken == {};
  }

  /** The first email left in the mailbox is a broken one. */
  ghost predicate StopsAt(emails: map<nat, Email>, mailbox: nat, broken: set<nat>) {
    exists b :: b in MailIn(emails, mailbox) && b in broken && forall k :: k in MailIn(emails, mailbox) ==> b <= k
  }

  lemma PurgeStopped(before: map<nat, Email>, emails: map<nat, Email>, mailbox: nat, broken: set<nat>, gone: set<nat>)
    requires PurgedFirst(before, emails, mailbox, broken, gone) && StopsAt(emails, mailbox, broken)
    ensures IsBlocked(before, mailbox, broken) && gone == Doomed(before, mailbox, broken)
  {
    var b :| b in MailIn(emails, mailbox) && b in broken && forall k :: k in MailIn(emails, mailbox) ==> b <= k;
    PurgedRest(before, emails, mailbox, broken, gone);
    assert b in MailIn(before, mailbox) * broken;
    forall e | e in gone
      ensures e in Doomed(before, mailbox, broken)
    {
      forall k | k in MailIn(before, mailbox) * broken
        ensures e < k
      {
        assert k !in gone;
      }
    }
    forall e | e in Doomed(before, mailbox, broken)
      ensures e in gone
    {
      assert e < b;
      assert e !in MailIn(emails, mailbox) && e in MailIn(before, mailbox);
    }
  }

  lemma PurgeOneMore(before: map<nat, Email>, emails: map<nat, Email>, mailbox: nat, broken: set<nat>, gone: set<nat>,
          e: nat)
    requires PurgedFirst(before, emails, mailbox, broken, gone)
    requires e in MailIn(emails, mailbox) && e !in broken && forall k :: k in MailIn(emails, mailbox) ==> e <= k
    ensures PurgedFirst(before, emails - {e}, mailbox, broken, gone + {e})
    ensures MailIn(emails - {e}, mailbox) == MailIn(emails, mailbox) - {e}
  {
    PurgedRest(before, emails, mailbox, broken, gone);
    assert emails - {e} == Without(before, gone + {e});
    forall g, k | g in gone + {e} && k in MailIn(before, mailbox) && k !in gone + {e}
      ensures g < k
    {
      assert k in MailIn(emails, mailbox) && k != e;
    }
  }

  lemma TakeOne(all: set<nat>, rest: set<nat>, done: set<nat>, user: nat)
    requires rest !! done && rest + done == all && user in rest
    ensures rest - {user} !! done + {user} && (rest - {user}) + (done + {user}) == all
    ensures user !in done && |done + {user}| == |done| + 1
  {
  }

  class Job {
    const users: map<nat, User>
    var mailboxes: map<nat, Mailbox>
    var emails: map<nat, Email>

    function Snapshot(): Db
      reads this
    {
      Db(users, mailboxes, emails)
    }

    constructor (db: Db)
      ensures Snapshot() == db
    {
      users, mailboxes, emails := db.users, db.mailboxes, db.emails;
    }

    /** Deletes an email and its files; a broken file makes it throw before the row is deleted. */
    method PurgeEmailById(id: nat, broken: set<nat>) returns (purged: bool, threw: bool)
      modifies `emails
      ensures threw == (id in old(emails) && id in broken) && purged == (id in old(emails) && id !in broken)
      ensures emails == if purged then old(emails) - {id} else old(emails)
    {
      if id !in emails {
        return false, false;
      }
      if id in broken {
        return false, true;
      }
      emails := emails - {id};
      return true, false;
    }

    /** Purges one batch of the mailbox's emails, in order, until one of them throws. */
    method PurgeBatch(mailbox: nat, batch: seq<nat>, broken: set<nat>, ghost before: map<nat, Email>,
            ghost gone: set<nat>)
      returns (purged: nat, threw: bool, ghost gone': set<nat>)
      requires PurgedFirst(before, emails, mailbox, broken, gone)
      requires IsQueryResult(batch, MailIn(emails, mailbox), Some(BATCH))
      requires forall i, j :: 0 <= i < j < |batch| ==> batch[i] < batch[j]
      requires forall k, i :: k in MailIn(emails, mailbox) && k !in Ids(batch) && 0 <= i < |batch| ==> batch[i] < k
      modifies `emails
      ensures PurgedFirst(before, emails, mailbox, broken, gone') && gone <= gone' && purged == |gone' - gone|
      ensures threw ==> StopsAt(emails, mailbox, broken)
      ensures !threw ==> MailIn(emails, mailbox) == old(MailIn(emails, mailbox)) - Ids(batch)
    {
      purged, threw, gone' := 0, false, gone;
      ghost var mail := MailIn(emails, mailbox);
      PurgedRest(before, emails, mailbox, broken, gone);
      for i := 0 to |batch|
        invariant PurgedFirst(before, emails, mailbox, broken, gone') && gone <= gone' && purged == |gone' - gone|
        invariant MailIn(emails, mailbox) == mail - Ids(batch[..i])
      {
        IdsNext(batch, i);
        assert batch[i] in Ids(batch);
        PurgedRest(before, emails, mailbox, broken, gone');
        FrontOfRest(mail, batch, i);
        ghost var current := emails;
        var done, failed := PurgeEmailById(batch[i], broken);
        if failed {
          return purged, true, gone';
        }
        PurgeOneMore(before, current, mailbox, broken, gone', batch[i]);
        assert (gone' + {batch[i]}) - gone == (gone' - gone) + {batch[i]};
        gone' := gone' + {batch[i]};
        if done {
          purged := purged + 1;
        }
      }
      assert batch[..|batch|] == batch;
    }

    /** Purges the mailbox's emails batch by batch until none is left, then deletes its row; a broken
        file ends the deletion early. */
    method DeleteMailboxPermanently(mailbox: nat, broken: set<nat>) returns (purged: nat, threw: bool)
      modifies `emails, `mailboxes
      ensures threw == IsBlocked(old(emails), mailbox, broken)
      ensures emails == Without(old(emails), Doomed(old(emails), mailbox, broken))
      ensures purged == |Doomed(old(emails), mailbox, broken)|
      ensures mailboxes == if threw then old(mailboxes) else old(mailboxes) - {mailbox}
    {
      ghost var before, gone: set<nat> := emails, {};
      purged, threw := 0, false;
      assert emails == Without(before, gone);
      while true
        invariant PurgedFirst(before, emails, mailbox, broken, gone) && purged == |gone|
        invariant mailboxes == old(mailboxes)
        decreases MailIn(emails, mailbox)
      {
        var batch := FindMany(MailIn(emails, mailbox), Some(BATCH));
        if batch == [] {
          break;
        }
        assert batch[0] in Ids(batch);
        ghost var was := gone;
        var count, failed: bool;
        count, failed, gone := PurgeBatch(mailbox, batch, broken, before, gone);
        GrownBy(was, gone);
        purged := purged + count;
        if failed {
          PurgeStopped(before, emails, mailbox, broken, gone);
          return purged, true;
        }
      }
      PurgedAll(before, emails, mailbox, broken, gone);
      mailboxes := mailboxes - {mailbox};
    }

    /** One candidate of the mailbox stage. */
    method RetainMailbox(id: nat, o: Options, broken: set<nat>) returns (did: Did, purged: nat)
      requires id in mailboxes && mailboxes[id].user in users
      modifies this
      ensures did == HandleMailbox(old(Snapshot()), o, broken, id)
      ensures Snapshot() == if o.dryRun then old(Snapshot()) else AfterMailboxes(old(Snapshot()), {id}, o.now, broken)
      ensures purged == PurgedBy(did, o, old(emails), id)
    {
      var mailbox := mailboxes[id];
      var user := users[mailbox.user];
      var days := UnwrapOr(mailbox.mailboxDays, user.mailboxExpireDays);
      var action := UnwrapOr(mailbox.mailboxAction, user.mailboxExpireAction);
      OneMailbox(Snapshot(), id, o.now, broken);
      if !IsValidPolicyDays(days) {
        return Rejected, 0;
      }
      if days == -1 {
        return LeftForever, 0;
      }
      var baseline := UnwrapOr(mailbox.lastEmailReceivedAt, mailbox.createdAt);
      if !IsExpired(baseline, days, o.now) {
        return LeftFresh, 0;
      }
      if o.dryRun {
        return if action.Archive? then DidArchive else DidDelete, 0;
      }
      if action.Archive? {
        mailboxes := mailboxes[id := mailbox.(archivedAt := Some(o.now))];
        return DidArchive, 0;
      }
      ghost var before := emails;
      var count, threw := DeleteMailboxPermanently(id, broken);
      if threw {
        return DidFail, 0;
      }
      UnblockedIsDoomed(before, id, broken);
      return DidDelete, count;
    }

    /** The mailbox stage. `rows` are the rows its query returned. */
    method RunMailboxRetention(o: Options, broken: set<nat>)
      returns (stats: StageStats, purgedEmails: nat, ghost rows: seq<nat>)
      requires Snapshot().Valid()
      modifies this
      ensures IsQueryResult(rows, MailboxCandidates(old(Snapshot()), o.only), o.limit)
      ensures Snapshot() == if o.dryRun then old(Snapshot())
              else AfterMailboxes(old(Snapshot()), Ids(rows), o.now, broken)
      ensures stats == StatsOf(rows, MailboxHandler(old(Snapshot()), o, broken))
      ensures purgedEmails == PurgedWith(old(Snapshot()), o, broken, rows)
      ensures Snapshot().Valid()
    {
      ghost var db := Snapshot();
      var candidates := FindMany(MailboxCandidates(Snapshot(), o.only), o.limit);
      rows := candidates;
      stats, purgedEmails := StageStats(0, 0, 0, 0, 0, 0, 0), 0;
      ghost var did := MailboxHandler(db, o, broken);
      NoMailboxes(db, o.now, broken);
      assert candidates[..0] == [];
      for i := 0 to |candidates|
        invariant Snapshot() == if o.dryRun then db else AfterMailboxes(db, Ids(candidates[..i]), o.now, broken)
        invariant stats == StatsOf(candidates[..i], did)
        invariant purgedEmails == PurgedWith(db, o, broken, candidates[..i])
      {
        IdsNext(candidates, i);
        assert candidates[i] in Ids(candidates);
        PurgedNext(db, o, broken, candidates, i);
        MailboxesCompose(db, Ids(candidates[..i]), o, broken, candidates[i]);
        var what, purged := RetainMailbox(candidates[i], o, broken);
        StatsNext(candidates, i, did);
        stats := Count(stats, what);
        purgedEmails := purgedEmails + purged;
      }
      assert candidates[..|candidates|] == candidates;
      AfterMailboxesValid(db, Ids(candidates), o.now, broken);
    }

    /** One candidate of the email stage; its database updates always find the row unchanged. */
    method RetainEmail(id: nat, o: Options) returns (did: Did)
      requires id in emails && emails[id].mailbox in mailboxes && mailboxes[emails[id].mailbox].user in users
      modifies `emails
      ensures did == HandleEmail(old(Snapshot()), o, id)
      ensures Snapshot() == if o.dryRun then old(Snapshot()) else AfterEmails(old(Snapshot()), {id}, o.now)
    {
      var email := emails[id];
      var mailbox := mailboxes[email.mailbox];
      var user := users[mailbox.user];
      var days := UnwrapOr(mailbox.emailDays, user.emailExpireDays);
      var action := UnwrapOr(mailbox.emailAction, user.emailExpireAction);
      OneEmail(Snapshot(), id, o.now);
      if !IsValidPolicyDays(days) {
        return Rejected;
      }
      if days == -1 {
        return LeftForever;
      }
      if !IsExpired(email.receivedAt, days, o.now) {
        return LeftFresh;
      }
      if o.dryRun {
        return if action.Archive? then DidArchive else DidDelete;
      }
      if action.Archive? {
        emails := emails[id := email.(status := Archived)];
        return DidArchive;
      }
      var restoreStatus := if email.status.Unread? then Unread else Read;
      emails := emails[id := email.(status := Deleted, deletedAt := Some(o.now), restoreStatus := Some(restoreStatus))];
      return DidDelete;
    }

    /** The email stage. `rows` are the rows its query returned. */
    method RunEmailRetention(o: Options) returns (stats: StageStats, ghost rows: seq<nat>)
      requires Snapshot().Valid()
      modifies `emails
      ensures IsQueryResult(rows, EmailCandidates(old(Snapshot()), o.only), o.limit)
      ensures Snapshot() == if o.dryRun then old(Snapshot()) else AfterEmails(old(Snapshot()), Ids(rows), o.now)
      ensures stats == StatsOf(rows, EmailHandler(old(Snapshot()), o))
    {
      ghost var db := Snapshot();
      var candidates := FindMany(EmailCandidates(Snapshot(), o.only), o.limit);
      rows := candidates;
      stats := StageStats(0, 0, 0, 0, 0, 0, 0);
      ghost var did := EmailHandler(db, o);
      NoEmails(db, o.now);
      assert candidates[..0] == [];
      for i := 0 to |candidates|
        invariant Snapshot() == if o.dryRun then db else AfterEmails(db, Ids(candidates[..i]), o.now)
        invariant stats == StatsOf(candidates[..i], did)
      {
        IdsNext(candidates, i);
        assert candidates[i] in Ids(candidates);
        EmailsCompose(db, Ids(candidates[..i]), o, candidates[i]);
        var what := RetainEmail(candidates[i], o);
        StatsNext(candidates, i, did);
        stats := Count(stats, what);
      }
      assert candidates[..|candidates|] == candidates;
    }

    /** Purges the rows one after the other; broken ones stay. */
    method PurgeRows(rows: seq<nat>, broken: set<nat>) returns (purged: nat, failed: nat)
      requires Distinct(rows) && forall i :: 0 <= i < |rows| ==> rows[i] in emails
      modifies `emails
      ensures emails == Without(old(emails), Ids(rows) - broken)
      ensures purged == |Ids(rows) - broken| && purged + failed == |rows|
    {
      purged, failed := 0, 0;
      ghost var before := emails;
      assert rows[..0] == [];
      assert Ids([]) - broken == {} && Without(before, {}) == before;
      for i := 0 to |rows|
        invariant emails == Without(before, Ids(rows[..i]) - broken)
        invariant purged == |Ids(rows[..i]) - broken| && purged + failed == i
      {
        IdsNext(rows, i);
        DropNext(Ids(rows[..i]), rows[i], broken);
        var done, threw := PurgeEmailById(rows[i], broken);
        if done {
          purged := purged + 1;
          assert emails == Without(before, (Ids(rows[..i]) - broken) + {rows[i]});
        }
        if threw {
          failed := failed + 1;
        }
      }
      assert rows[..|rows|] == rows;
    }

    /** Deals with the rows of one query: a dry run skips them all. */
    method PurgeScanned(rows: seq<nat>, o: Options, broken: set<nat>, stats0: TrashStats) returns (stats: TrashStats)
      requires Distinct(rows) && Ids(rows) <= emails.Keys
      modifies `emails
      ensures emails == if o.dryRun then old(emails) else Without(old(emails), Ids(rows) - broken)
      ensures stats == Added(stats0, 0, 0, o.dryRun, Ids(rows), broken)
    {
      IdsSize(rows);
      stats := stats0.(scannedEmails := stats0.scannedEmails + |rows|);
      if o.dryRun {
        stats := stats.(skippedEmails := stats.skippedEmails + |rows|);
        return;
      }
      forall i | 0 <= i < |rows|
        ensures rows[i] in emails
      {
        assert rows[i] in Ids(rows);
      }
      var purged, failed := PurgeRows(rows, broken);
      SplitByBroken(Ids(rows), broken);
      stats := stats.(purgedEmails := stats.purgedEmails + purged, failedEmails := stats.failedEmails + failed);
    }

    /** The trash of one user. */
    method PurgeTrashOf(user: nat, o: Options, broken: set<nat>, stats0: TrashStats)
      returns (stats: TrashStats, ghost picked: set<nat>)
      requires user in users
      modifies `emails
      ensures IsPick(picked, Purgeable(old(Snapshot()), user, o.now), o.limit)
      ensures emails == if o.dryRun then old(emails) else Without(old(emails), picked - broken)
      ensures stats == Added(stats0, 1, if users[user].trashRetentionDays > 0 then 1 else 0, o.dryRun, picked, broken)
    {
      stats, picked := stats0.(scannedUsers := stats0.scannedUsers + 1), {};
      if users[user].trashRetentionDays <= 0 {
        WithoutNothing(emails);
        NothingWithoutRetention(Snapshot(), user, o, broken);
        return;
      }
      stats := stats.(eligibleUsers := stats.eligibleUsers + 1);
      var trash := Purgeable(Snapshot(), user, o.now);
      var rows := FindMany(trash, o.limit);
      picked := Ids(rows);
      QueryIsPick(rows, trash, o.limit);
      CountsUser(stats0, o, picked, broken);
      stats := PurgeScanned(rows, o, broken, stats);
    }

    /** The trash of the users `done` has been dealt with. */
    ghost predicate TrashDone(db: Db, o: Options, broken: set<nat>, done: set<nat>, picked: set<nat>,
            stats: TrashStats)
      reads this
    {
      users == db.users && mailboxes == db.mailboxes && IsTrashDone(db, o, broken, done, picked, emails, stats)
    }

    method PurgeNext(user: nat, o: Options, broken: set<nat>, stats0: TrashStats, ghost db: Db, ghost done: set<nat>,
            ghost picked0: set<nat>)
      returns (stats: TrashStats, ghost picked: set<nat>)
      requires TrashDone(db, o, broken, done, picked0, stats0) && user in users && user !in done
      modifies `emails
      ensures TrashDone(db, o, broken, done + {user}, picked, stats)
    {
      ghost var more, before := {}, emails;
      assert Snapshot() == db.(emails := before);
      stats, more := PurgeTrashOf(user, o, broken, stats0);
      picked := picked0 + more;
      TrashNext(db, o, broken, done, picked0, before, stats0, user, more, emails, stats);
    }

    /** The trash stage, user by user. `picked` are the emails its queries returned. */
    method RunTrashPurge(o: Options, broken: set<nat>) returns (stats: TrashStats, ghost picked: set<nat>)
      modifies `emails
      ensures TrashDone(old(Snapshot()), o, broken, UsersInScope(old(Snapshot()), o.only), picked, stats)
    {
      stats, picked := TrashStats(0, 0, 0, 0, 0, 0), {};
      ghost var db, done: set<nat> := Snapshot(), {};
      var rest := UsersInScope(Snapshot(), o.only);
      ghost var all := rest;
      NoTrashYet(db, o, broken);
      while rest != {}
        invariant rest !! done && rest + done == all && rest <= users.Keys
        invariant TrashDone(db, o, broken, done, picked, stats)
        decreases rest
      {
        var user :| user in rest;
        TakeOne(all, rest, done, user);
        rest := rest - {user};
        stats, picked := PurgeNext(user, o, broken, stats, db, done, picked);
        done := done + {user};
      }
      assert {} + done == done;
    }

    /** A whole run. `rows`, `rows'` and `picked` are what the queries of the three stages returned. */
    method RunRetentionJob(dryRun: bool, now: int, only: Option<nat>, limit: Option<JsNumber>, broken: set<nat>)
      returns (mailbox: StageStats, purgedWithMailboxes: nat, email: StageStats, trash: TrashStats,
            ghost rows: seq<nat>, ghost rows': seq<nat>, ghost picked: set<nat>)
      requires Snapshot().Valid()
      modifies this
      ensures var o, db := Options(dryRun, now, only, ParseLimit(limit)), old(Snapshot());
              var db1 := if dryRun then db else AfterMailboxes(db, Ids(rows), now, broken);
              var db2 := if dryRun then db else AfterEmails(db1, Ids(rows'), now);
              && IsQueryResult(rows, MailboxCandidates(db, only), o.limit)
              && IsQueryResult(rows', EmailCandidates(db1, only), o.limit)
              && PicksTrash(db2, o, UsersInScope(db2, only), picked)
              && Snapshot() == (if dryRun then db else db2.(emails := Without(db2.emails, picked - broken)))
              && mailbox == StatsOf(rows, MailboxHandler(db, o, broken))
              && purgedWithMailboxes == PurgedWith(db, o, broken, rows)
              && email == StatsOf(rows', EmailHandler(db1, o))
              && trash == TrashStatsOf(db2, o, UsersInScope(db2, only), picked, broken)
    {
      var o := Options(dryRun, now, only, ParseLimit(limit));
      mailbox, purgedWithMailboxes, rows := RunMailboxRetention(o, broken);
      email, rows' := RunEmailRetention(o);
      trash, picked := RunTrashPurge(o, broken);
    }
  }

  // ----- The trash stage -----

  /** Some of `all`: as many as the limit lets through. */
  ghost predicate IsPick(picked: set<nat>, all: set<nat>, limit: Option<nat>) {
    picked <= all && |picked| == if limit.Some? && limit.value < |all| then limit.value else |all|
  }

  lemma QueryIsPick(rows: seq<nat>, all: set<nat>, limit: Option<nat>)
    requires IsQueryResult(rows, all, limit)
    ensures IsPick(Ids(rows), all, limit) && |Ids(rows)| == |rows|
  {
    IdsSize(rows);
    SubsetSize(Ids(rows), all);
  }

  lemma {:induction false} IdsSize(rows: seq<nat>)
    requires Distinct(rows)
    ensures |Ids(rows)| == |rows|
  {
    if rows != [] {
      var n := |rows| - 1;
      IdsSize(rows[..n]);
      IdsNext(rows, n);
      assert rows[..n + 1] == rows;
    } else {
      assert Ids(rows) == {};
    }
  }

  lemma SplitByBroken(picked: set<nat>, broken: set<nat>)
    ensures |picked - broken| + |picked * broken| == |picked|
  {
    assert picked == (picked - broken) + (picked * broken);
  }

  /** The emails `picked` are, for each of the users, as many of the user's purgeable ones as the limit lets
      through, and nothing else. */
  ghost predicate PicksTrash(db: Db, o: Options, users: set<nat>, picked: set<nat>) {
    && (forall u :: u in users ==> IsPick(picked * Purgeable(db, u, o.now), Purgeable(db, u, o.now), o.limit))
    && forall e :: e in picked ==> exists u :: u in users && e in Purgeable(db, u, o.now)
  }

  /** Counters after so many users, so many of them with a retention, and the emails `picked`. */
  function Added(stats: TrashStats, users: nat, eligible: nat, dryRun: bool, picked: set<nat>, broken: set<nat>)
    : TrashStats
  {
    TrashStats(stats.scannedUsers + users, stats.eligibleUsers + eligible, stats.scannedEmails + |picked|,
      stats.purgedEmails + (if dryRun then 0 else |picked - broken|),
      stats.skippedEmails + (if dryRun then |picked| else 0),
      stats.failedEmails + (if dryRun then 0 else |picked * broken|))
  }

  function WithRetention(db: Db, users: set<nat>): set<nat> {
    set u | u in users && u in db.users && db.users[u].trashRetentionDays > 0
  }

  /** Every user counts as scanned and those with a retention as eligible; every email picked counts as scanned,
      and as skipped in a dry run, else as failed when its files cannot be deleted and as purged when they can. */
  function TrashStatsOf(db: Db, o: Options, users: set<nat>, picked: set<nat>, broken: set<nat>): TrashStats {
    Added(TrashStats(0, 0, 0, 0, 0, 0), |users|, |WithRetention(db, users)|, o.dryRun, picked, broken)
  }

  /** An email belongs to one user only, so what is purged for others leaves a user's trash alone. */
  lemma PurgeableOfNext(db: Db, o: Options, done: set<nat>, picked: set<nat>, broken: set<nat>, user: nat)
    requires user !in done && PicksTrash(db, o, done, picked)
    ensures picked !! Purgeable(db, user, o.now)
    ensures var emails := if o.dryRun then db.emails else Without(db.emails, picked - broken);
            Purgeable(db.(emails := emails), user, o.now) == Purgeable(db, user, o.now)
  {
    forall e | e in picked
      ensures e !in Purgeable(db, user, o.now)
    {
      var u :| u in done && e in Purgeable(db, u, o.now);
    }
  }

  /** Of the users `done` the emails `picked` have been dealt with, which has left `emails` and `stats`. */
  ghost predicate IsTrashDone(db: Db, o: Options, broken: set<nat>, done: set<nat>, picked: set<nat>,
          emails: map<nat, Email>, stats: TrashStats)
  {
    && done <= db.users.Keys && PicksTrash(db, o, done, picked)
    && emails == (if o.dryRun then db.emails else Without(db.emails, picked - broken))
    && stats == TrashStatsOf(db, o, done, picked, broken)
  }

  /** One more user. */
  lemma TrashNext(db: Db, o: Options, broken: set<nat>, done: set<nat>, picked: set<nat>, emails: map<nat, Email>,
          stats: TrashStats, user: nat, more: set<nat>, emails': map<nat, Email>, stats': TrashStats)
    requires IsTrashDone(db, o, broken, done, picked, emails, stats) && user !in done && user in db.users
    requires IsPick(more, Purgeable(db.(emails := emails), user, o.now), o.limit)
    requires emails' == if o.dryRun then emails else Without(emails, more - broken)
    requires stats' ==
             Added(stats, 1, if db.users[user].trashRetentionDays > 0 then 1 else 0, o.dryRun, more, broken)
    ensures IsTrashDone(db, o, broken, done + {user}, picked + more, emails', stats')
  {
    PurgeableOfNext(db, o, done, picked, broken, user);
    PicksNext(db, o, done, picked, emails, user, more);
    CountsOneMore(db, o, done, picked, broken, user, more);
    PurgedMore(db.emails, picked, more, broken);
  }

  lemma PicksNext(db: Db, o: Options, done: set<nat>, picked: set<nat>, emails: map<nat, Email>, user: nat,
          more: set<nat>)
    requires PicksTrash(db, o, done, picked) && user !in done && picked !! Purgeable(db, user, o.now)
    requires Purgeable(db.(emails := emails), user, o.now) == Purgeable(db, user, o.now)
    requires IsPick(more, Purgeable(db.(emails := emails), user, o.now), o.limit)
    ensures PicksTrash(db, o, done + {user}, picked + more) && picked !! more
  {
    PicksOneMore(db, o, done, picked, user, more);
  }

  lemma PurgedMore(emails: map<nat, Email>, picked: set<nat>, more: set<nat>, broken: set<nat>)
    ensures Without(Without(emails, picked - broken), more - broken) == Without(emails, (picked + more) - broken)
  {
    assert (picked + more) - broken == (picked - broken) + (more - broken);
    WithoutMore(emails, picked - broken, more - broken);
  }

  lemma NoTrashYet(db: Db, o: Options, broken: set<nat>)
    ensures PicksTrash(db, o, {}, {}) && Without(db.emails, {} - broken) == db.emails
    ensures TrashStatsOf(db, o, {}, {}, broken) == TrashStats(0, 0, 0, 0, 0, 0)
  {
    WithoutNothing(db.emails);
    var none: set<nat> := {};
    assert none - broken == {} && none * broken == {} && WithRetention(db, {}) == {};
  }

  lemma CountsUser(stats: TrashStats, o: Options, picked: set<nat>, broken: set<nat>)
    ensures Added(stats.(scannedUsers := stats.scannedUsers + 1, eligibleUsers := stats.eligibleUsers + 1), 0, 0,
                  o.dryRun, picked, broken) ==
            Added(stats, 1, 1, o.dryRun, picked, broken)
  {
  }

  lemma NothingWithoutRetention(db: Db, user: nat, o: Options, broken: set<nat>)
    requires user in db.users && db.users[user].trashRetentionDays <= 0
    ensures IsPick({}, Purgeable(db, user, o.now), o.limit)
    ensures var none: set<nat> := {}; |none - broken| == |none * broken| == 0 && none - broken == none
  {
    assert Purgeable(db, user, o.now) == {};
    var none: set<nat> := {};
    assert none - broken == {} && none * broken == {};
  }

  lemma OthersKeepTheirPick(db: Db, o: Options, picked: set<nat>, user: nat, more: set<nat>, u: nat)
    requires more <= Purgeable(db, user, o.now) && u != user
    ensures (picked + more) * Purgeable(db, u, o.now) == picked * Purgeable(db, u, o.now)
  {
    assert more !! Purgeable(db, u, o.now);
  }

  lemma PicksOneMore(db: Db, o: Options, done: set<nat>, picked: set<nat>, user: nat, more: set<nat>)
    requires PicksTrash(db, o, done, picked) && user !in done
    requires IsPick(more, Purgeable(db, user, o.now), o.limit) && picked !! Purgeable(db, user, o.now)
    ensures PicksTrash(db, o, done + {user}, picked + more)
  {
    assert (picked + more) * Purgeable(db, user, o.now) == more;
    forall u | u in done
      ensures IsPick((picked + more) * Purgeable(db, u, o.now), Purgeable(db, u, o.now), o.limit)
    {
      OthersKeepTheirPick(db, o, picked, user, more, u);
    }
    forall e | e in picked + more
      ensures exists u :: u in done + {user} && e in Purgeable(db, u, o.now)
    {
      if e in more {
        assert user in done + {user} && e in Purgeable(db, user, o.now);
      } else {
        var u :| u in done && e in Purgeable(db, u, o.now);
        assert u in done + {user};
      }
    }
  }

  lemma OneMoreEligible(db: Db, done: set<nat>, user: nat)
    requires user !in done && user in db.users
    ensures |WithRetention(db, done + {user})| ==
            |WithRetention(db, done)| + if db.users[user].trashRetentionDays > 0 then 1 else 0
  {
    assert WithRetention(db, done + {user}) ==
           WithRetention(db, done) + if db.users[user].trashRetentionDays > 0 then {user} else {};
  }

  lemma CountsOneMore(db: Db, o: Options, done: set<nat>, picked: set<nat>, broken: set<nat>, user: nat,
          more: set<nat>)
    requires user !in done && user in db.users && picked !! more
    ensures Added(TrashStatsOf(db, o, done, picked, broken), 1,
                  if db.users[user].trashRetentionDays > 0 then 1 else 0, o.dryRun, more, broken) ==
            TrashStatsOf(db, o, done + {user}, picked + more, broken)
  {
    MoreCounts(picked, more, broken);
    OneMoreEligible(db, done, user);
    assert |done + {user}| == |done| + 1;
  }

  lemma MoreCounts(picked: set<nat>, more: set<nat>, broken: set<nat>)
    requires picked !! more
    ensures |picked + more| == |picked| + |more|
    ensures |(picked + more) - broken| == |picked - broken| + |more - broken|
    ensures |(picked + more) * broken| == |picked * broken| + |more * broken|
    ensures (picked + more) - broken == (picked - broken) + (more - broken)
  {
    assert (picked + more) - broken == (picked - broken) + (more - broken);
    assert (picked + more) * broken == (picked * broken) + (more * broken);
  }

  lemma WithoutMore(emails: map<nat, Email>, gone: set<nat>, more: set<nat>)
    ensures Without(Without(emails, gone), more) == Without(emails, gone + more)
  {
  }

  /** Without a limit the stage leaves exactly the specified tables. */
  lemma UnlimitedTrash(db: Db, o: Options, picked: set<nat>, broken: set<nat>)
    requires o.limit.None? && PicksTrash(db, o, UsersInScope(db, o.only), picked)
    ensures db.(emails := Without(db.emails, picked - broken)) ==
            AfterTrash(db, UsersInScope(db, o.only), o.now, broken)
  {
    var users := UsersInScope(db, o.only);
    forall u | u in users
      ensures Purgeable(db, u, o.now) <= picked
    {
      SameSize(picked * Purgeable(db, u, o.now), Purgeable(db, u, o.now));
    }
    assert Without(db.emails, picked - broken) == AfterTrash(db, users, o.now, broken).emails;
  }

  lemma SameSize(a: set<nat>, b: set<nat>)
    requires a <= b && |a| == |b|
    ensures a == b
  {
    GrownBy(a, b);
  }

  /** Without a limit a run that is no dry run leaves exactly the specified tables. */
  lemma UnlimitedRun(db: Db, o: Options, broken: set<nat>, rows: seq<nat>, rows': seq<nat>, picked: set<nat>)
    requires o.limit.None? && IsQueryResult(rows, MailboxCandidates(db, o.only), None)
    requires IsQueryResult(rows', EmailCandidates(AfterMailboxes(db, Ids(rows), o.now, broken), o.only), None)
    requires var db2 := AfterEmails(AfterMailboxes(db, Ids(rows), o.now, broken), Ids(rows'), o.now);
             PicksTrash(db2, o, UsersInScope(db2, o.only), picked)
    ensures var db2 := AfterEmails(AfterMailboxes(db, Ids(rows), o.now, broken), Ids(rows'), o.now);
            db2.(emails := Without(db2.emails, picked - broken)) == AfterRun(db, o.only, o.now, broken)
  {
    UnlimitedTrash(AfterEmails(AfterMailboxes(db, Ids(rows), o.now, broken), Ids(rows'), o.now), o, picked, broken);
  }

  /** The counters add up: in the mailbox and the email stage over the expired rows, and no email ever fails; in
      the trash stage over the rows scanned. */
  lemma RunCountersAddUp(db: Db, o: Options, broken: set<nat>, rows: seq<nat>, users: set<nat>, picked: set<nat>)
    ensures var m, e, t := StatsOf(rows, MailboxHandler(db, o, broken)), StatsOf(rows, EmailHandler(db, o)),
              TrashStatsOf(db, o, users, picked, broken);
            && m.expired == m.archived + m.deleted + m.failed
            && e.expired == e.archived + e.deleted && e.failed == 0
            && t.scannedEmails == t.purgedEmails + t.skippedEmails + t.failedEmails
  {
    EmailsNeverFail(db, o);
    NoEmailFails(rows, EmailHandler(db, o));
    SplitByBroken(picked, broken);
  }

  /** On tables where nothing has expired and nothing is to be purged, a run counts no row as expired, scans no
      trash and changes nothing. */
  lemma QuietRunCountsNothing(db: Db, o: Options, broken: set<nat>, rows: seq<nat>, rows': seq<nat>,
          picked: set<nat>)
    requires Quiet(db, o.only, o.now) && PicksTrash(db, o, UsersInScope(db, o.only), picked)
    requires Ids(rows) <= MailboxCandidates(db, o.only) && Ids(rows') <= EmailCandidates(db, o.only)
    ensures StatsOf(rows, MailboxHandler(db, o, broken)).expired == 0
    ensures StatsOf(rows', EmailHandler(db, o)).expired == 0
    ensures TrashStatsOf(db, o, UsersInScope(db, o.only), picked, broken).scannedEmails == 0
    ensures AfterMailboxes(db, Ids(rows), o.now, broken) == db && AfterEmails(db, Ids(rows'), o.now) == db
    ensures Without(db.emails, picked - broken) == db.emails
  {
    QuietRun(db, o, broken, rows, rows');
    assert picked == {};
    WithoutNothing(db.emails);
  }

  lemma GrownBy(a: set<nat>, b: set<nat>)
    requires a <= b
    ensures |b| == |a| + |b - a|
  {
    assert b == a + (b - a);
  }

  lemma FrontOfRest(mail: set<nat>, batch: seq<nat>, i: nat)
    requires i < |batch| && Ids(batch) <= mail
    requires forall i, j :: 0 <= i < j < |batch| ==> batch[i] < batch[j]
    requires forall k, i :: k in mail && k !in Ids(batch) && 0 <= i < |batch| ==> batch[i] < k
    ensures batch[i] in mail - Ids(batch[..i]) && forall k :: k in mail - Ids(batch[..i]) ==> batch[i] <= k
  {
    assert batch[i] in Ids(batch);
    forall j | 0 <= j < i
      ensures batch[j] in Ids(batch[..i])
    {
      assert batch[..i][j] == batch[j];
    }
    forall k | k in mail - Ids(batch[..i])
      ensures batch[i] <= k
    {
      if k in Ids(batch) {
        var j :| 0 <= j < |batch| && batch[j] == k;
      }
    }
  }

  // ----- The emails purged with mailboxes -----

  /** The emails counted as purged with one mailbox. */
  function PurgedBy(did: Did, o: Options, emails: map<nat, Email>, id: nat): nat {
    if did.DidDelete? && !o.dryRun then |MailIn(emails, id)| else 0
  }

  /** The emails counted as purged with the mailboxes of `rows`: a deletion that fails counts none. */
  ghost function PurgedWith(db: Db, o: Options, broken: set<nat>, rows: seq<nat>): nat {
    if rows == [] then 0
    else
      var id := rows[|rows| - 1];
      PurgedWith(db, o, broken, rows[..|rows| - 1]) +
      PurgedBy(HandleMailbox(db, o, broken, id), o, db.emails, id)
  }

  /** The emails that failed deletions had purged before they met a broken file. */
  ghost function LostWith(db: Db, o: Options, broken: set<nat>, rows: seq<nat>): nat {
    if rows == [] then 0
    else
      var id := rows[|rows| - 1];
      LostWith(db, o, broken, rows[..|rows| - 1]) +
      if HandleMailbox(db, o, broken, id).DidFail? then |Doomed(db.emails, id, broken)| else 0
  }

  lemma PurgedNext(db: Db, o: Options, broken: set<nat>, rows: seq<nat>, i: nat)
    requires i < |rows|
    ensures PurgedWith(db, o, broken, rows[..i + 1]) ==
            PurgedWith(db, o, broken, rows[..i]) +
            PurgedBy(HandleMailbox(db, o, broken, rows[i]), o, db.emails, rows[i])
  {
    assert rows[..i + 1][..i] == rows[..i];
  }

  lemma UnblockedIsDoomed(emails: map<nat, Email>, id: nat, broken: set<nat>)
    ensures !IsBlocked(emails, id, broken) ==> Doomed(emails, id, broken) == MailIn(emails, id)
  {
  }

  /** One more row takes away the mail of a deleted mailbox, or the mail before the first broken file. */
  lemma OneRowGone(db: Db, rows: set<nat>, o: Options, broken: set<nat>, id: nat)
    requires id !in rows && db.Valid() && id in db.mailboxes && !o.dryRun
    ensures |AfterMailboxes(db, rows, o.now, broken).emails.Keys| ==
            |AfterMailboxes(db, rows + {id}, o.now, broken).emails.Keys| +
              match HandleMailbox(db, o, broken, id)
              case DidDelete => |MailIn(db.emails, id)|
              case DidFail => |Doomed(db.emails, id, broken)|
              case _ => 0
  {
    var db' := AfterMailboxes(db, rows, o.now, broken);
    MailboxUntouched(db, rows, o.now, broken, id);
    MailboxesCompose(db, rows, o, broken, id);
    OneMailbox(db', id, o.now, broken);
    if FateOfMailbox(db, id, o.now).ExpiredDelete? {
      WithoutSize(db'.emails, Doomed(db'.emails, id, broken));
      UnblockedIsDoomed(db.emails, id, broken);
    }
  }

  /** The rows gone after the mailbox stage are those counted and those lost. */
  lemma {:induction false} GoneWithMailboxes(db: Db, o: Options, broken: set<nat>, rows: seq<nat>)
    requires db.Valid() && Distinct(rows) && Ids(rows) <= db.mailboxes.Keys && !o.dryRun
    ensures |AfterMailboxes(db, Ids(rows), o.now, broken).emails.Keys| +
            PurgedWith(db, o, broken, rows) + LostWith(db, o, broken, rows)
         == |db.emails.Keys|
  {
    if rows == [] {
      NoMailboxes(db, o.now, broken);
    } else {
      var n := |rows| - 1;
      IdsNext(rows, n);
      assert rows[..n + 1] == rows && rows[n] in Ids(rows);
      GoneWithMailboxes(db, o, broken, rows[..n]);
      OneRowGone(db, Ids(rows[..n]), o, broken, rows[n]);
    }
  }

  lemma {:induction false} NothingLostIff(db: Db, o: Options, broken: set<nat>, rows: seq<nat>)
    ensures LostWith(db, o, broken, rows) == 0 <==>
            forall i :: 0 <= i < |rows| && HandleMailbox(db, o, broken, rows[i]).DidFail? ==>
              Doomed(db.emails, rows[i], broken) == {}
  {
    if rows != [] {
      var n := |rows| - 1;
      var init := rows[..n];
      NothingLostIff(db, o, broken, init);
      assert forall i :: 0 <= i < n ==> init[i] == rows[i];
      assert |Doomed(db.emails, rows[n], broken)| == 0 <==> Doomed(db.emails, rows[n], broken) == {};
    }
  }

  /** The counter of emails purged with mailboxes is the number of rows gone exactly when no failed
      deletion had purged any email before it failed. */
  lemma PurgedCounterIsExactIff(db: Db, o: Options, broken: set<nat>, rows: seq<nat>)
    requires db.Valid() && Distinct(rows) && Ids(rows) <= db.mailboxes.Keys && !o.dryRun
    ensures PurgedWith(db, o, broken, rows) ==
            |db.emails.Keys| - |AfterMailboxes(db, Ids(rows), o.now, broken).emails.Keys| <==>
            forall i :: 0 <= i < |rows| && HandleMailbox(db, o, broken, rows[i]).DidFail? ==>
              Doomed(db.emails, rows[i], broken) == {}
  {
    GoneWithMailboxes(db, o, broken, rows);
    NothingLostIff(db, o, broken, rows);
  }

  ghost function MailboxHandler(db: Db, o: Options, broken: set<nat>): nat -> Did {
    (id: nat) => HandleMailbox(db, o, broken, id)
  }

  function Count(stats: StageStats, did: Did): StageStats {
    var s := stats.(scanned := stats.scanned + 1);
    match did
    case Rejected => s.(invalidPolicy := s.invalidPolicy + 1)
    case LeftForever => s.(skippedNever := s.skippedNever + 1)
    case LeftFresh => s
    case DidArchive => s.(expired := s.expired + 1, archived := s.archived + 1)
    case DidDelete => s.(expired := s.expired + 1, deleted := s.deleted + 1)
    case DidFail => s.(expired := s.expired + 1, failed := s.failed + 1)
  }

  lemma StatsNext(rows: seq<nat>, i: nat, did: nat -> Did)
    requires i < |rows|
    ensures StatsOf(rows[..i + 1], did) == Count(StatsOf(rows[..i], did), did(rows[i]))
  {
    assert rows[..i + 1][..i] == rows[..i];
  }

  lemma NoMailboxes(db: Db, now: int, broken: set<nat>)
    ensures AfterMailboxes(db, Ids([]), now, broken) == db
  {
    var db' := AfterMailboxes(db, Ids([]), now, broken);
    assert db'.mailboxes == db.mailboxes && db'.emails == db.emails;
  }

  /** The stage's effect on one row, case by case. */
  lemma OneMailbox(db: Db, id: nat, now: int, broken: set<nat>)
    requires id in db.mailboxes
    ensures var db' := AfterMailboxes(db, {id}, now, broken);
            match FateOfMailbox(db, id, now)
            case ExpiredArchive => db' ==
              db.(mailboxes := db.mailboxes[id := db.mailboxes[id].(archivedAt := Some(now))])
            case ExpiredDelete =>
              && db'.emails == Without(db.emails, Doomed(db.emails, id, broken))
              && db'.mailboxes == if IsBlocked(db.emails, id, broken) then db.mailboxes else db.mailboxes - {id}
            case _ => db' == db
  {
    var db' := AfterMailboxes(db, {id}, now, broken);
    match FateOfMailbox(db, id, now)
    case ExpiredArchive =>
      assert db'.mailboxes == db.mailboxes[id := db.mailboxes[id].(archivedAt := Some(now))];
      assert db'.emails == db.emails;
    case ExpiredDelete =>
      assert db'.emails == Without(db.emails, Doomed(db.emails, id, broken));
      assert db'.mailboxes == if IsBlocked(db.emails, id, broken) then db.mailboxes else db.mailboxes - {id};
    case _ =>
      assert db'.mailboxes == db.mailboxes && db'.emails == db.emails;
  }

  /** Dealing with other rows leaves a row, its fate and its mail as they were. */
  lemma MailboxUntouched(db: Db, rows: set<nat>, now: int, broken: set<nat>, id: nat)
    requires id !in rows && db.Valid() && id in db.mailboxes
    ensures var db' := AfterMailboxes(db, rows, now, broken);
            && id in db'.mailboxes && db'.mailboxes[id] == db.mailboxes[id]
            && MailIn(db'.emails, id) == MailIn(db.emails, id)
            && FateOfMailbox(db', id, now) == FateOfMailbox(db, id, now)
            && IsBlocked(db'.emails, id, broken) == IsBlocked(db.emails, id, broken)
            && Doomed(db'.emails, id, broken) == Doomed(db.emails, id, broken)
  {
  }

  lemma MailboxRowsCompose(db: Db, rows: set<nat>, now: int, broken: set<nat>, id: nat)
    requires id !in rows && db.Valid() && id in db.mailboxes
    ensures AfterMailboxes(AfterMailboxes(db, rows, now, broken), {id}, now, broken).mailboxes
         == AfterMailboxes(db, rows + {id}, now, broken).mailboxes
  {
    MailboxUntouched(db, rows, now, broken, id);
  }

  lemma MailboxMailComposes(db: Db, rows: set<nat>, now: int, broken: set<nat>, id: nat)
    requires id !in rows && db.Valid() && id in db.mailboxes
    ensures AfterMailboxes(AfterMailboxes(db, rows, now, broken), {id}, now, broken).emails
         == AfterMailboxes(db, rows + {id}, now, broken).emails
  {
    MailboxUntouched(db, rows, now, broken, id);
  }

  /** Rows can be dealt with one at a time. */
  lemma MailboxesCompose(db: Db, rows: set<nat>, o: Options, broken: set<nat>, id: nat)
    requires id !in rows && db.Valid() && id in db.mailboxes
    ensures var db' := AfterMailboxes(db, rows, o.now, broken);
            && id in db'.mailboxes && db'.mailboxes[id].user in db'.users &&
              MailIn(db'.emails, id) == MailIn(db.emails, id)
            && HandleMailbox(db', o, broken, id) == HandleMailbox(db, o, broken, id)
            && AfterMailboxes(db', {id}, o.now, broken) == AfterMailboxes(db, rows + {id}, o.now, broken)
  {
    MailboxUntouched(db, rows, o.now, broken, id);
    MailboxRowsCompose(db, rows, o.now, broken, id);
    MailboxMailComposes(db, rows, o.now, broken, id);
  }

  ghost function EmailHandler(db: Db, o: Options): nat -> Did {
    (id: nat) => HandleEmail(db, o, id)
  }

  lemma NoEmails(db: Db, now: int)
    ensures AfterEmails(db, Ids([]), now) == db
  {
    assert AfterEmails(db, Ids([]), now).emails == db.emails;
  }

  lemma OneEmail(db: Db, e: nat, now: int)
    requires e in db.emails
    ensures AfterEmails(db, {e}, now) ==
            db.(emails := db.emails[e := EmailAfter(FateOfEmail(db, e, now), db.emails[e], now)])
  {
    assert AfterEmails(db, {e}, now).emails == db.emails[e := EmailAfter(FateOfEmail(db, e, now), db.emails[e], now)];
  }

  lemma EmailsCompose(db: Db, rows: set<nat>, o: Options, e: nat)
    requires e !in rows && db.Valid() && e in db.emails
    ensures var db' := AfterEmails(db, rows, o.now);
            && e in db'.emails && db'.emails[e].mailbox in db'.mailboxes &&
              db'.mailboxes[db'.emails[e].mailbox].user in db'.users
            && HandleEmail(db', o, e) == HandleEmail(db, o, e)
            && AfterEmails(db', {e}, o.now) == AfterEmails(db, rows + {e}, o.now)
  {
    assert AfterEmails(AfterEmails(db, rows, o.now), {e}, o.now).emails == AfterEmails(db, rows + {e}, o.now).emails;
  }

  lemma DropNext(ids: set<nat>, id: nat, broken: set<nat>)
    requires id !in ids
    ensures id in broken ==> (ids + {id}) - broken == ids - broken
    ensures id !in broken ==> (ids + {id}) - broken == (ids - broken) + {id}
  {
  }

  lemma WithoutNothing(emails: map<nat, Email>)
    ensures Without(emails, {}) == emails
  {
  }

  lemma WithoutSize(emails: map<nat, Email>, gone: set<nat>)
    requires gone <= emails.Keys
    ensures |Without(emails, gone).Keys| + |gone| == |emails.Keys|
  {
    assert Without(emails, gone).Keys == emails.Keys - gone;
    GrownBy(gone, emails.Keys);
  }

  lemma EmailsNeverFail(db: Db, o: Options)
    ensures forall e: nat :: !EmailHandler(db, o)(e).DidFail?
  {
  }

  lemma {:induction false} NoEmailFails(rows: seq<nat>, did: nat -> Did)
    requires forall e: nat :: !did(e).DidFail?
    ensures Tally(rows, did, DidFail) == 0
  {
    if rows != [] {
      NoEmailFails(rows[..|rows| - 1], did);
    }
  }

  /** A run over tables in which nothing has expired counts nothing. */
  lemma QuietRun(db: Db, o: Options, broken: set<nat>, rows: seq<nat>, rows': seq<nat>)
    requires Quiet(db, o.only, o.now)
    requires Ids(rows) <= MailboxCandidates(db, o.only) && Ids(rows') <= EmailCandidates(db, o.only)
    ensures StatsOf(rows, MailboxHandler(db, o, broken)).expired == 0
    ensures StatsOf(rows', EmailHandler(db, o)).expired == 0
    ensures AfterMailboxes(db, Ids(rows), o.now, broken) == db && AfterEmails(db, Ids(rows'), o.now) == db
  {
    forall i | 0 <= i < |rows|
      ensures !FateOfMailbox(db, rows[i], o.now).Expired()
    {
      assert rows[i] in Ids(rows);
    }
    forall i | 0 <= i < |rows'|
      ensures !FateOfEmail(db, rows'[i], o.now).Expired()
    {
      assert rows'[i] in Ids(rows');
    }
    NothingExpired(rows, MailboxHandler(db, o, broken));
    NothingExpired(rows', EmailHandler(db, o));
    var db1 := AfterMailboxes(db, Ids(rows), o.now, broken);
    assert db1.mailboxes == db.mailboxes && db1.emails == db.emails;
    assert AfterEmails(db, Ids(rows'), o.now).emails == db.emails;
  }
}
