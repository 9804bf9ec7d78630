/** The retention job: expiring mailboxes, expiring emails and purging the trash. */
module Retention {
  import opened Wrappers

  const DAY_MS := 24 * 60 * 60 * 1000
  const BATCH := 200

  datatype Action = Archive | Delete

  datatype User = User(
    trashRetentionDays: int,
    mailboxExpireDays: int, mailboxExpireAction: Action,
    emailExpireDays: int, emailExpireAction: Action)

  datatype Mailbox = Mailbox(
    user: nat, active: bool, archivedAt: Option<int>, createdAt: int, lastEmailReceivedAt: Option<int>,
    mailboxDays: Option<int>, mailboxAction: Option<Action>, emailDays: Option<int>, emailAction: Option<Action>)

  datatype EmailStatus = Unread | Read | Archived | Deleted

  datatype Email = Email(mailbox: nat, status: EmailStatus, receivedAt: int, deletedAt: Option<int>,
      restoreStatus: Option<EmailStatus>)

  /** The tables, by row id. */
  datatype Db = Db(users: map<nat, User>, mailboxes: map<nat, Mailbox>, emails: map<nat, Email>) {
    /** Every foreign key points to a row. */
    ghost predicate Valid() {
      && (forall id :: id in mailboxes ==> mailboxes[id].user in users)
      && (forall id :: id in emails ==> emails[id].mailbox in mailboxes)
    }
  }

  // ----- Policies -----

  datatype Fate = Invalid | Never | Fresh | ExpiredArchive | ExpiredDelete {
    predicate Expired() {
      ExpiredArchive? || ExpiredDelete?
    }
  }

  predicate IsValidPolicyDays(days: int) {
    days == -1 || days > 0
  }

  predicate IsExpired(baseTime: int, days: int, now: int) {
    baseTime + days * DAY_MS <= now
  }

  function FateOf(days: int, action: Action, baseTime: int, now: int): Fate {
    if !IsValidPolicyDays(days) then Invalid
    else if days == -1 then Never
    else if !IsExpired(baseTime, days, now) then Fresh
    else if action.Archive? then ExpiredArchive
    else ExpiredDelete
  }

  function MailboxFate(user: User, m: Mailbox, now: int): Fate {
    FateOf(UnwrapOr(m.mailboxDays, user.mailboxExpireDays), UnwrapOr(m.mailboxAction, user.mailboxExpireAction),
           UnwrapOr(m.lastEmailReceivedAt, m.createdAt), now)
  }

  function EmailFate(user: User, m: Mailbox, e: Email, now: int): Fate {
    FateOf(UnwrapOr(m.emailDays, user.emailExpireDays), UnwrapOr(m.emailAction, user.emailExpireAction), e.receivedAt,
      now)
  }

  predicate InScope(only: Option<nat>, user: nat) {
    only.None? || only.value == user
  }

  // ----- The three stages as functions of the tables -----

  function MailboxCandidates(db: Db, only: Option<nat>): set<nat> {
    set id | id in db.mailboxes && db.mailboxes[id].active && db.mailboxes[id].archivedAt.None? &&
      InScope(only, db.mailboxes[id].user)
  }

  function FateOfMailbox(db: Db, id: nat, now: int): Fate {
    if id in db.mailboxes && db.mailboxes[id].user in db.users
    then MailboxFate(db.users[db.mailboxes[id].user], db.mailboxes[id], now) else Invalid
  }

  function MailIn(emails: map<nat, Email>, mailbox: nat): set<nat> {
    set e | e in emails && emails[e].mailbox == mailbox
  }

  /** Some file of a mailbox's email cannot be deleted from storage. */
  predicate IsBlocked(emails: map<nat, Email>, mailbox: nat, broken: set<nat>) {
    MailIn(emails, mailbox) * broken != {}
  }

  /** The emails a mailbox deletion purges, in id order, before it meets a broken one. */
  function Doomed(emails: map<nat, Email>, mailbox: nat, broken: set<nat>): set<nat> {
    set e | e in MailIn(emails, mailbox) && forall b :: b in MailIn(emails, mailbox) * broken ==> e < b
  }

  /** The tables after the mailbox stage has dealt with `rows`. */
  function AfterMailboxes(db: Db, rows: set<nat>, now: int, broken: set<nat>): Db {
    Db(db.users,
       map id | id in db.mailboxes &&
         !(id in rows && FateOfMailbox(db, id, now).ExpiredDelete? && !IsBlocked(db.emails, id, broken)) ::
         if id in rows && FateOfMailbox(db, id, now).ExpiredArchive? then db.mailboxes[id].(archivedAt := Some(now))
         else db.mailboxes[id],
       map e | e in db.emails &&
         !(db.emails[e].mailbox in rows && FateOfMailbox(db, db.emails[e].mailbox, now).ExpiredDelete? &&
                                   e in Doomed(db.emails, db.emails[e].mailbox, broken)) :: db.emails[e])
  }

  function EmailCandidates(db: Db, only: Option<nat>): set<nat> {
    set e | e in db.emails && (db.emails[e].status.Unread? || db.emails[e].status.Read?) &&
            db.emails[e].mailbox in db.mailboxes && InScope(only, db.mailboxes[db.emails[e].mailbox].user)
  }

  function FateOfEmail(db: Db, e: nat, now: int): Fate {
    if e in db.emails && db.emails[e].mailbox in db.mailboxes && db.mailboxes[db.emails[e].mailbox].user in db.users
    then EmailFate(db.users[db.mailboxes[db.emails[e].mailbox].user], db.mailboxes[db.emails[e].mailbox],
      db.emails[e], now)
    else Invalid
  }

  function Trashed(e: Email, now: int): Email {
    e.(status := Deleted, deletedAt := Some(now), restoreStatus := Some(if e.status.Unread? then Unread else Read))
  }

  function EmailAfter(fate: Fate, e: Email, now: int): Email {
    match fate
    case ExpiredArchive => e.(status := Archived)
    case ExpiredDelete => Trashed(e, now)
    case _ => e
  }

  function AfterEmails(db: Db, rows: set<nat>, now: int): Db {
    db.(emails := map e | e in db.emails ::
          if e in rows then EmailAfter(FateOfEmail(db, e, now), db.emails[e], now) else db.emails[e])
  }

  /** The emails of `user` that have lain in the trash longer than the user's retention. */
  function Purgeable(db: Db, user: nat, now: int): set<nat> {
    set e | e in db.emails && user in db.users && db.users[user].trashRetentionDays > 0 &&
            db.emails[e].mailbox in db.mailboxes && db.mailboxes[db.emails[e].mailbox].user == user &&
            db.emails[e].status.Deleted? && db.emails[e].deletedAt.Some? &&
            db.emails[e].deletedAt.value < now - db.users[user].trashRetentionDays * DAY_MS
  }

  function UsersInScope(db: Db, only: Option<nat>): set<nat> {
    set u | u in db.users && InScope(only, u)
  }

  /** The tables after the trash of `users` has been purged, except for broken emails. */
  function AfterTrash(db: Db, users: set<nat>, now: int, broken: set<nat>): Db {
    db.(emails := map e | e in db.emails && !(e !in broken && exists u :: u in users && e in Purgeable(db, u, now)) ::
      db.emails[e])
  }

  /** The tables after a full run without a limit. */
  function AfterRun(db: Db, only: Option<nat>, now: int, broken: set<nat>): Db {
    AfterRest(AfterMailboxes(db, MailboxCandidates(db, only), now, broken), only, now, broken)
  }

  /** The email stage and the trash stage. */
  function AfterRest(db: Db, only: Option<nat>, now: int, broken: set<nat>): Db {
    var db2 := AfterEmails(db, EmailCandidates(db, only), now);
    AfterTrash(db2, UsersInScope(db2, only), now, broken)
  }

  // ----- What a run achieves -----

  lemma AfterMailboxesValid(db: Db, rows: set<nat>, now: int, broken: set<nat>)
    requires db.Valid()
    ensures AfterMailboxes(db, rows, now, broken).Valid()
  {
    var db' := AfterMailboxes(db, rows, now, broken);
    forall e | e in db'.emails
      ensures db'.emails[e].mailbox in db'.mailboxes
    {
      assert e in MailIn(db.emails, db.emails[e].mailbox);
    }
  }

  /** After the mailbox stage the only expired candidates are deletions a broken file blocks, and
      nothing more of them can be purged. */
  ghost predicate MailboxesSettled(db: Db, only: Option<nat>, now: int, broken: set<nat>) {
    forall id :: id in MailboxCandidates(db, only) && FateOfMailbox(db, id, now).Expired() ==>
      FateOfMailbox(db, id, now).ExpiredDelete? && IsBlocked(db.emails, id, broken) &&
        Doomed(db.emails, id, broken) == {}
  }

  ghost predicate EmailsSettled(db: Db, only: Option<nat>, now: int) {
    forall e :: e in EmailCandidates(db, only) ==> !FateOfEmail(db, e, now).Expired()
  }

  ghost predicate TrashSettled(db: Db, only: Option<nat>, now: int, broken: set<nat>) {
    forall u :: u in UsersInScope(db, only) ==> Purgeable(db, u, now) <= broken
  }

  ghost predicate Settled(db: Db, only: Option<nat>, now: int, broken: set<nat>) {
    MailboxesSettled(db, only, now, broken) && EmailsSettled(db, only, now) && TrashSettled(db, only, now, broken)
  }

  /** Nothing has expired and nothing is to be purged. */
  ghost predicate Quiet(db: Db, only: Option<nat>, now: int) {
    && (forall id :: id in MailboxCandidates(db, only) ==> !FateOfMailbox(db, id, now).Expired())
    && EmailsSettled(db, only, now)
    && (forall u :: u in UsersInScope(db, only) ==> Purgeable(db, u, now) == {})
  }

  lemma MailboxStageSettles(db: Db, only: Option<nat>, now: int, broken: set<nat>)
    requires db.Valid()
    ensures MailboxesSettled(AfterMailboxes(db, MailboxCandidates(db, only), now, broken), only, now, broken)
  {
    var db' := AfterMailboxes(db, MailboxCandidates(db, only), now, broken);
    forall id | id in MailboxCandidates(db', only) && FateOfMailbox(db', id, now).Expired()
      ensures FateOfMailbox(db', id, now).ExpiredDelete? && IsBlocked(db'.emails, id, broken) &&
              Doomed(db'.emails, id, broken) == {}
    {
      assert id in MailboxCandidates(db, only);
      BlockedStays(db, MailboxCandidates(db, only), now, broken, id);
    }
  }

  /** A blocked deletion purges the emails before the first broken one and keeps the others. */
  lemma BlockedStays(db: Db, rows: set<nat>, now: int, broken: set<nat>, id: nat)
    requires id in rows && FateOfMailbox(db, id, now).ExpiredDelete? && IsBlocked(db.emails, id, broken)
    ensures var db' := AfterMailboxes(db, rows, now, broken);
            MailIn(db'.emails, id) * broken == MailIn(db.emails, id) * broken &&
            IsBlocked(db'.emails, id, broken) && Doomed(db'.emails, id, broken) == {}
  {
    var db' := AfterMailboxes(db, rows, now, broken);
    forall b | b in MailIn(db.emails, id) * broken
      ensures b in MailIn(db'.emails, id) * broken
    {
      assert b !in Doomed(db.emails, id, broken);
    }
    assert MailIn(db'.emails, id) * broken == MailIn(db.emails, id) * broken;
    forall e
      ensures e !in Doomed(db'.emails, id, broken)
    {
    }
  }

  /** After the email stage no candidate has expired. */
  lemma EmailStageSettles(db: Db, only: Option<nat>, now: int)
    ensures var db' := AfterEmails(db, EmailCandidates(db, only), now);
            EmailsSettled(db', only, now) && EmailCandidates(db', only) <= EmailCandidates(db, only)
  {
    var db' := AfterEmails(db, EmailCandidates(db, only), now);
    forall e | e in EmailCandidates(db', only)
      ensures e in EmailCandidates(db, only) && !FateOfEmail(db', e, now).Expired()
    {
      assert e in EmailCandidates(db, only) <==>
             (db.emails[e].status.Unread? || db.emails[e].status.Read?) &&
               InScope(only, db.mailboxes[db.emails[e].mailbox].user);
    }
  }

  /** The email stage moves emails within their mailboxes only. */
  lemma EmailStageKeepsMailboxes(db: Db, only: Option<nat>, now: int, broken: set<nat>)
    requires MailboxesSettled(db, only, now, broken)
    ensures MailboxesSettled(AfterEmails(db, EmailCandidates(db, only), now), only, now, broken)
  {
    var db' := AfterEmails(db, EmailCandidates(db, only), now);
    forall id
      ensures MailIn(db'.emails, id) == MailIn(db.emails, id)
      ensures Doomed(db'.emails, id, broken) == Doomed(db.emails, id, broken)
    {
    }
    assert MailboxCandidates(db', only) == MailboxCandidates(db, only);
  }

  lemma TrashStageSettles(db: Db, only: Option<nat>, now: int, broken: set<nat>)
    requires MailboxesSettled(db, only, now, broken) && EmailsSettled(db, only, now)
    ensures Settled(AfterTrash(db, UsersInScope(db, only), now, broken), only, now, broken)
  {
    var db' := AfterTrash(db, UsersInScope(db, only), now, broken);
    forall id
      ensures MailIn(db'.emails, id) * broken == MailIn(db.emails, id) * broken &&
              MailIn(db'.emails, id) <= MailIn(db.emails, id)
    {
    }
    forall id | id in MailboxCandidates(db', only) && FateOfMailbox(db', id, now).Expired()
      ensures Doomed(db'.emails, id, broken) <= Doomed(db.emails, id, broken)
    {
    }
    forall e | e in EmailCandidates(db', only)
      ensures !FateOfEmail(db', e, now).Expired()
    {
      assert e in EmailCandidates(db, only);
    }
    forall u, e | u in UsersInScope(db', only) && e in Purgeable(db', u, now)
      ensures e in broken
    {
      assert e in Purgeable(db, u, now) && u in UsersInScope(db, only);
    }
  }

  lemma SettledRunChangesNothing(db: Db, only: Option<nat>, now: int, broken: set<nat>)
    requires Settled(db, only, now, broken)
    ensures AfterRun(db, only, now, broken) == db
  {
    var db1 := AfterMailboxes(db, MailboxCandidates(db, only), now, broken);
    assert db1.mailboxes == db.mailboxes;
    assert db1.emails == db.emails;
    var db2 := AfterEmails(db1, EmailCandidates(db1, only), now);
    assert db2.emails == db.emails;
    var db3 := AfterTrash(db2, UsersInScope(db2, only), now, broken);
    assert db3.emails == db.emails;
  }

  /** At one time a second run changes no row, even when the same files cannot be deleted. */
  lemma RetentionIsIdempotent(db: Db, only: Option<nat>, now: int, broken: set<nat>)
    requires db.Valid()
    ensures AfterRun(AfterRun(db, only, now, broken), only, now, broken) == AfterRun(db, only, now, broken)
  {
    RunSettles(db, only, now, broken);
    SettledRunChangesNothing(AfterRun(db, only, now, broken), only, now, broken);
  }

  lemma RunSettles(db: Db, only: Option<nat>, now: int, broken: set<nat>)
    requires db.Valid()
    ensures Settled(AfterRun(db, only, now, broken), only, now, broken)
  {
    var db1 := AfterMailboxes(db, MailboxCandidates(db, only), now, broken);
    var db2 := AfterEmails(db1, EmailCandidates(db1, only), now);
    MailboxStageSettles(db, only, now, broken);
    EmailStageSettles(db1, only, now);
    EmailStageKeepsMailboxes(db1, only, now, broken);
    TrashStageSettles(db2, only, now, broken);
  }

  /** After a run without failures nothing has expired and nothing is to be purged at that time. */
  lemma FullRunLeavesQuiet(db: Db, only: Option<nat>, now: int)
    requires db.Valid()
    ensures Quiet(AfterRun(db, only, now, {}), only, now)
  {
    RunSettles(db, only, now, {});
  }

  /** An email that the email stage of a run moves to the trash is still there when the run ends. */
  lemma FreshTrashIsKept(db: Db, only: Option<nat>, now: int, broken: set<nat>, e: nat)
    requires db.Valid()
    requires var db1 := AfterMailboxes(db, MailboxCandidates(db, only), now, broken);
             e in EmailCandidates(db1, only) && FateOfEmail(db1, e, now).ExpiredDelete?
    ensures var db1 := AfterMailboxes(db, MailboxCandidates(db, only), now, broken);
            e in AfterRun(db, only, now, broken).emails &&
            AfterRun(db, only, now, broken).emails[e] == Trashed(db1.emails[e], now)
  {
    var db1 := AfterMailboxes(db, MailboxCandidates(db, only), now, broken);
    var db2 := AfterEmails(db1, EmailCandidates(db1, only), now);
    forall u | u in UsersInScope(db2, only)
      ensures e !in Purgeable(db2, u, now)
    {
      if db2.users[u].trashRetentionDays > 0 {
        assert now - db2.users[u].trashRetentionDays * DAY_MS < now;
      }
    }
  }

  // ----- What happens to each row -----

  /** `days` whole days have passed since `base`; only positive days ever pass. */
  predicate HavePassed(days: int, base: int, now: int) {
    days > 0 && base + days * 86_400_000 <= now
  }

  /** The mailbox is active, not archived, in scope, and its own days, or else its user's, have passed since
      its last email or else its creation. */
  predicate MailboxIsDue(user: User, m: Mailbox, only: Option<nat>, now: int) {
    && m.active && m.archivedAt == None && (only == None || only == Some(m.user))
    && HavePassed(match m.mailboxDays case Some(days) => days case None => user.mailboxExpireDays,
                  match m.lastEmailReceivedAt case Some(time) => time case None => m.createdAt, now)
  }

  /** A due mailbox is deleted rather than archived. */
  predicate MailboxGoes(user: User, m: Mailbox) {
    match m.mailboxAction
    case Some(action) => action == Delete
    case None => user.mailboxExpireAction == Delete
  }

  /** The email is unread or read, in scope, and its mailbox's days for emails, or else its user's, have
      passed since it arrived. */
  predicate EmailIsDue(user: User, m: Mailbox, e: Email, only: Option<nat>, now: int) {
    && (e.status == Unread || e.status == Read) && (only == None || only == Some(m.user))
    && HavePassed(match m.emailDays case Some(days) => days case None => user.emailExpireDays, e.receivedAt, now)
  }

  predicate EmailGoes(user: User, m: Mailbox) {
    match m.emailAction
    case Some(action) => action == Delete
    case None => user.emailExpireAction == Delete
  }

  /** The email lies in the trash of a user in scope for longer than that user keeps trash. */
  predicate TrashIsDue(user: User, m: Mailbox, e: Email, only: Option<nat>, now: int) {
    && e.status == Deleted && (only == None || only == Some(m.user)) && user.trashRetentionDays > 0
    && match e.deletedAt
       case None => false
       case Some(time) => time + user.trashRetentionDays * 86_400_000 < now
  }

  function DueEmail(user: User, m: Mailbox, e: Email, only: Option<nat>, now: int): Email {
    if !EmailIsDue(user, m, e, only, now) then e
    else if EmailGoes(user, m) then
      Email(e.mailbox, Deleted, e.receivedAt, Some(now), Some(if e.status == Unread then Unread else Read))
    else Email(e.mailbox, Archived, e.receivedAt, e.deletedAt, e.restoreStatus)
  }

  lemma MailboxFateIff(db: Db, only: Option<nat>, now: int, id: nat)
    requires db.Valid() && id in db.mailboxes
    ensures var m, user := db.mailboxes[id], db.users[db.mailboxes[id].user];
            && (id in MailboxCandidates(db, only) && FateOfMailbox(db, id, now).Expired() <==>
                MailboxIsDue(user, m, only, now))
            && (FateOfMailbox(db, id, now).ExpiredDelete? <==>
                FateOfMailbox(db, id, now).Expired() && MailboxGoes(user, m))
  {
  }

  lemma EmailFateIff(db: Db, only: Option<nat>, now: int, e: nat)
    requires db.Valid() && e in db.emails
    ensures var mail := db.emails[e];
            var m := db.mailboxes[mail.mailbox];
            AfterEmails(db, EmailCandidates(db, only), now).emails[e] == DueEmail(db.users[m.user], m, mail, only, now)
  {
  }

  /** A run deletes a mailbox exactly when it is due, to be deleted, and holds no email whose files cannot be
      deleted; it archives it exactly when it is due and not to be deleted; else the row stays as it is. */
  lemma MailboxAfterRun(db: Db, only: Option<nat>, now: int, broken: set<nat>, id: nat)
    requires db.Valid() && id in db.mailboxes
    ensures var m, user := db.mailboxes[id], db.users[db.mailboxes[id].user];
            var after := AfterRun(db, only, now, broken).mailboxes;
            var due := MailboxIsDue(user, m, only, now);
            && (id !in after <==>
                due && MailboxGoes(user, m) && forall e :: e in broken && e in db.emails ==> db.emails[e].mailbox != id)
            && (id in after ==>
                  after[id] == if due && !MailboxGoes(user, m) then m.(archivedAt := Some(now)) else m)
  {
    MailboxFateIff(db, only, now, id);
    if IsBlocked(db.emails, id, broken) {
      var e :| e in MailIn(db.emails, id) * broken;
    } else {
      forall e | e in db.emails && db.emails[e].mailbox == id
        ensures e !in broken
      {
        assert e in broken ==> e in MailIn(db.emails, id) * broken;
      }
    }
  }

  /** The email goes with its mailbox: the mailbox is due and to be deleted, and every email of it whose files
      cannot be deleted comes later. */
  ghost predicate GoesWithMailbox(db: Db, only: Option<nat>, now: int, broken: set<nat>, e: nat)
    requires db.Valid() && e in db.emails
  {
    var id := db.emails[e].mailbox;
    var m := db.mailboxes[id];
    && MailboxIsDue(db.users[m.user], m, only, now) && MailboxGoes(db.users[m.user], m)
    && forall b :: b in broken && b in db.emails && db.emails[b].mailbox == id ==> e < b
  }

  lemma EmailAfterMailboxes(db: Db, only: Option<nat>, now: int, broken: set<nat>, e: nat)
    requires db.Valid() && e in db.emails
    ensures var db1 := AfterMailboxes(db, MailboxCandidates(db, only), now, broken);
            && (e in db1.emails <==> !GoesWithMailbox(db, only, now, broken, e))
            && (e in db1.emails ==> db1.emails[e] == db.emails[e])
  {
    var id := db.emails[e].mailbox;
    MailboxFateIff(db, only, now, id);
    assert e in MailIn(db.emails, id);
    forall b
      ensures b in MailIn(db.emails, id) * broken <==> b in broken && b in db.emails && db.emails[b].mailbox == id
    {
    }
    assert e in Doomed(db.emails, id, broken) <==>
           forall b :: b in broken && b in db.emails && db.emails[b].mailbox == id ==> e < b;
    if e in Doomed(db.emails, id, broken) && !IsBlocked(db.emails, id, broken) {
      assert MailIn(db.emails, id) * broken == {};
    }
  }

  /** The mailbox stage only archives mailboxes, which changes nothing for their emails. */
  lemma ArchivingKeepsDue(db: Db, only: Option<nat>, now: int, broken: set<nat>, id: nat, e: Email)
    requires id in db.mailboxes && db.mailboxes[id].user in db.users
    requires id in AfterMailboxes(db, MailboxCandidates(db, only), now, broken).mailboxes
    ensures var m, m1 := db.mailboxes[id], AfterMailboxes(db, MailboxCandidates(db, only), now, broken).mailboxes[id];
            && m1.user == m.user
            && DueEmail(db.users[m.user], m1, e, only, now) == DueEmail(db.users[m.user], m, e, only, now)
            && (TrashIsDue(db.users[m.user], m1, e, only, now) <==> TrashIsDue(db.users[m.user], m, e, only, now))
  {
  }

  /** A run purges an email exactly when it goes with its mailbox, or has been in the trash for too long and
      its files can be deleted. It moves an email to the trash, or archives it, exactly when it is due; any
      other email stays as it is. */
  lemma EmailAfterRun(db: Db, only: Option<nat>, now: int, broken: set<nat>, e: nat)
    requires db.Valid() && e in db.emails
    ensures var mail, m := db.emails[e], db.mailboxes[db.emails[e].mailbox];
            var user, after := db.users[m.user], AfterRun(db, only, now, broken).emails;
            && (e !in after <==>
                GoesWithMailbox(db, only, now, broken, e) || (TrashIsDue(user, m, mail, only, now) && e !in broken))
            && (e in after ==> after[e] == DueEmail(user, m, mail, only, now))
  {
    var db1 := AfterMailboxes(db, MailboxCandidates(db, only), now, broken);
    AfterMailboxesValid(db, MailboxCandidates(db, only), now, broken);
    EmailAfterMailboxes(db, only, now, broken, e);
    if e in db1.emails {
      ArchivingKeepsDue(db, only, now, broken, db.emails[e].mailbox, db.emails[e]);
      EmailAfterRest(db1, only, now, broken, e);
    }
  }

  /** The email stage and the trash stage together: what the former moves to the trash the latter leaves. */
  lemma EmailAfterRest(db: Db, only: Option<nat>, now: int, broken: set<nat>, e: nat)
    requires db.Valid() && e in db.emails
    ensures var mail, m := db.emails[e], db.mailboxes[db.emails[e].mailbox];
            var after := AfterRest(db, only, now, broken).emails;
            && (e !in after <==> TrashIsDue(db.users[m.user], m, mail, only, now) && e !in broken)
            && (e in after ==> after[e] == DueEmail(db.users[m.user], m, mail, only, now))
  {
    EmailFateIff(db, only, now, e);
    var db2 := AfterEmails(db, EmailCandidates(db, only), now);
    assert db2.Valid() by {
      forall k | k in db2.emails
        ensures db2.emails[k].mailbox in db2.mailboxes
      {
        assert k in db.emails;
      }
    }
    EmailAfterTrash(db2, only, now, broken, e);
  }

  lemma EmailAfterTrash(db: Db, only: Option<nat>, now: int, broken: set<nat>, e: nat)
    requires db.Valid() && e in db.emails
    ensures var m, after := db.mailboxes[db.emails[e].mailbox],
              AfterTrash(db, UsersInScope(db, only), now, broken).emails;
            && (e !in after <==> TrashIsDue(db.users[m.user], m, db.emails[e], only, now) && e !in broken)
            && (e in after ==> after[e] == db.emails[e])
  {
    var user := db.mailboxes[db.emails[e].mailbox].user;
    assert e in Purgeable(db, user, now) && user in UsersInScope(db, only) <==>
           TrashIsDue(db.users[user], db.mailboxes[db.emails[e].mailbox], db.emails[e], only, now);
    assert forall u :: e in Purgeable(db, u, now) ==> u == user;
  }
}
