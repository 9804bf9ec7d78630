/** Moving one email to the trash, restoring it and purging it. */
module EmailTrash {
  import opened Retention
  import opened Wrappers

  /** The row of an email the user owns. */
  function Owned(db: Db, id: nat, user: nat): Option<Email> {
    if id in db.emails && db.emails[id].mailbox in db.mailboxes && db.mailboxes[db.emails[id].mailbox].user == user
    then Some(db.emails[id]) else None
  }

  /** An email is owned exactly by the user of its mailbox. */
  lemma OwnedIff(db: Db, id: nat, user: nat, e: Email)
    requires db.Valid()
    ensures Owned(db, id, user) == Some(e) <==>
            id in db.emails && db.emails[id] == e && db.mailboxes[e.mailbox].user == user
  {
  }

  function RestoreStatusForTrash(status: EmailStatus): EmailStatus {
    if status.Unread? then Unread else Read
  }

  /** An email already in the trash stays as it is; a deletion time left from earlier is kept. */
  function ToTrash(e: Email, now: int): Email {
    if e.status.Deleted? then e
    else e.(status := Deleted, deletedAt := Some(UnwrapOr(e.deletedAt, now)),
      restoreStatus := Some(RestoreStatusForTrash(e.status)))
  }

  function FromTrash(e: Email): Email {
    if !e.status.Deleted? then e
    else
      e.(status := if e.restoreStatus == Some(Unread) then Unread else Read,
         deletedAt := None,
         restoreStatus := None)
  }

  class TrashBin {
    const users: map<nat, User>
    const mailboxes: map<nat, Mailbox>
    var emails: map<nat, Email>

    function Snapshot(): Db
      reads this
    {
      Db(users, mailboxes, emails)
    }

    constructor (db: Db)
      ensures Snapshot() == db
    {
      users, mailboxes, emails := db.users, db.mailboxes, db.emails;
    }

    method MoveOwnedEmailToTrash(id: nat, user: nat, now: int) returns (status: Option<EmailStatus>)
      modifies this
      ensures match Owned(old(Snapshot()), id, user)
              case None => status == None && emails == old(emails)
              case Some(e) => status == Some(Deleted) && emails == old(emails)[id := ToTrash(e, now)]
    {
      var existing := Owned(Snapshot(), id, user);
      if existing.None? {
        return None;
      }
      var e := existing.value;
      if e.status.Deleted? {
        assert emails == emails[id := e];
        return Some(e.status);
      }
      emails := emails[id := e.(status := Deleted, deletedAt := Some(UnwrapOr(e.deletedAt, now)),
                                restoreStatus := Some(RestoreStatusForTrash(e.status)))];
      return Some(Deleted);
    }

    method RestoreOwnedEmailFromTrash(id: nat, user: nat) returns (status: Option<EmailStatus>)
      modifies this
      ensures match Owned(old(Snapshot()), id, user)
              case None => status == None && emails == old(emails)
              case Some(e) => status == Some(FromTrash(e).status) && emails == old(emails)[id := FromTrash(e)]
    {
      var existing := Owned(Snapshot(), id, user);
      if existing.None? {
        return None;
      }
      var e := existing.value;
      if !e.status.Deleted? {
        assert emails == emails[id := e];
        return Some(e.status);
      }
      var restored := if e.restoreStatus == Some(Unread) then Unread else Read;
      emails := emails[id := e.(status := restored, deletedAt := None, restoreStatus := None)];
      return Some(restored);
    }
  }

  /** Restoring undoes the move to the trash exactly for an email that was unread or read and
      carried no trash fields; an archived email comes back as read. */
  lemma RestoreUndoesIff(e: Email, now: int)
    requires !e.status.Deleted?
    ensures FromTrash(ToTrash(e, now)) == e <==> !e.status.Archived? && e.deletedAt.None? && e.restoreStatus.None?
  {
  }

  predicate KeptAt(db: Db, id: nat, user: nat, time: int) {
    id !in Purgeable(db, user, time)
  }

  /** An email moved to the trash is kept for the user's whole retention exactly when it carried no
      earlier deletion time. Marking a trashed email read, or archiving it, leaves that time on the
      row, so a later deletion can be purged at once. */
  lemma FullRetentionIff(db: Db, id: nat, user: nat, now: int)
    requires db.Valid() && Owned(db, id, user).Some? && !db.emails[id].status.Deleted? &&
             db.users[user].trashRetentionDays > 0
    ensures var db' := db.(emails := db.emails[id := ToTrash(db.emails[id], now)]);
            (forall t :: t <= now + db.users[user].trashRetentionDays * DAY_MS ==> KeptAt(db', id, user, t))
            <==> db.emails[id].deletedAt.None? || db.emails[id].deletedAt.value >= now
  {
    var db' := db.(emails := db.emails[id := ToTrash(db.emails[id], now)]);
    var keep := db.users[user].trashRetentionDays * DAY_MS;
    forall t
      ensures KeptAt(db', id, user, t) <==> UnwrapOr(db.emails[id].deletedAt, now) >= t - keep
    {
    }
    assert KeptAt(db', id, user, now + keep) <==> UnwrapOr(db.emails[id].deletedAt, now) >= now;
  }
}
