/** A user's storage quota, the usage counted against it and the check before storing. */
module StorageQuota {
  import opened Wrappers

  datatype Group = Group(maxStorageMb: Option<int>, maxStorageFiles: Option<int>)

  datatype Account = Account(isAdmin: bool, maxStorageMb: Option<int>, maxStorageFiles: Option<int>,
      group: Option<Group>)

  datatype Quota = Quota(maxBytes: Option<int>, maxFiles: Option<int>)

  datatype Usage = Usage(bytes: int, files: int)

  /** A stored email; `mailbox` determines its owner. */
  datatype EmailRow = EmailRow(mailbox: string, messageId: Option<string>, storageBytes: int, storageFiles: int)

  function ToBytes(mb: Option<int>): Option<int> {
    if mb.None? || mb.value < 0 then None else Some(mb.value * 1024 * 1024)
  }

  /** The user's own limit overrides the group's. */
  function EffectiveMb(user: Account): Option<int> {
    OrElse(user.maxStorageMb, if user.group.Some? then user.group.value.maxStorageMb else None)
  }

  function EffectiveFiles(user: Account): Option<int> {
    OrElse(user.maxStorageFiles, if user.group.Some? then user.group.value.maxStorageFiles else None)
  }

  /** Administrators and unknown users have no limit. */
  function ResolveQuota(user: Option<Account>): Quota {
    if user.None? || user.value.isAdmin then Quota(None, None)
    else Quota(ToBytes(EffectiveMb(user.value)), EffectiveFiles(user.value))
  }

  /** The usage aggregated over the rows of a user's mailboxes. */
  function UsageOf(rows: seq<EmailRow>, owner: string -> string, user: string): Usage {
    if rows == [] then Usage(0, 0)
    else
      var rest, last := UsageOf(rows[..|rows| - 1], owner, user), rows[|rows| - 1];
      if owner(last.mailbox) == user then Usage(rest.bytes + last.storageBytes, rest.files + last.storageFiles)
      else rest
  }

  predicate WithinLimit(value: int, limit: Option<int>) {
    limit.None? || value <= limit.value
  }

  predicate Allows(quota: Quota, usage: Usage) {
    WithinLimit(usage.bytes, quota.maxBytes) && WithinLimit(usage.files, quota.maxFiles)
  }

  function CanStore(quota: Quota, usage: Usage, additional: Usage): bool {
    Allows(quota, Usage(usage.bytes + if additional.bytes > 0 then additional.bytes else 0,
                        usage.files + if additional.files > 0 then additional.files else 0))
  }

  /** A user with a negative file limit can never store anything, while a negative megabyte limit
      never stands in the way. */
  lemma NegativeLimits(user: Account, usage: Usage, additional: Usage)
    requires !user.isAdmin && usage.files >= 0
    ensures EffectiveFiles(user).Some? && EffectiveFiles(user).value < 0 ==>
              !CanStore(ResolveQuota(Some(user)), usage, additional)
    ensures EffectiveMb(user).Some? && EffectiveMb(user).value < 0 ==>
              forall more: int :: CanStore(ResolveQuota(Some(user)), usage, additional) ==>
                CanStore(ResolveQuota(Some(user)), usage, additional.(bytes := more))
  {
  }

  /** A limit of the user's own, or else the group's. */
  function OwnOrGroup(own: Option<int>, group: Option<int>): Option<int> {
    match own
    case Some(limit) => Some(limit)
    case None => group
  }

  function GroupMb(user: Account): Option<int> {
    match user.group
    case Some(group) => group.maxStorageMb
    case None => None
  }

  function GroupFiles(user: Account): Option<int> {
    match user.group
    case Some(group) => group.maxStorageFiles
    case None => None
  }

  /** Bytes within so many megabytes; a negative limit is none. */
  predicate FitsMb(limit: Option<int>, bytes: int) {
    match limit
    case None => true
    case Some(mb) => mb < 0 || bytes <= mb * 1_048_576
  }

  predicate FitsFiles(limit: Option<int>, files: int) {
    match limit
    case None => true
    case Some(n) => files <= n
  }

  function NonNegative(n: int): int {
    if n >= 0 then n else 0
  }

  /** A user who is no administrator can store exactly what keeps the bytes within the megabytes and the files
      within the number of the user's own limits, or else the group's; a negative addition counts as none.
      Anybody else can store everything. */
  lemma CanStoreIff(user: Option<Account>, usage: Usage, additional: Usage)
    ensures CanStore(ResolveQuota(user), usage, additional) <==>
            match user
            case None => true
            case Some(account) =>
              || account.isAdmin
              || (FitsMb(OwnOrGroup(account.maxStorageMb, GroupMb(account)),
                         usage.bytes + NonNegative(additional.bytes)) &&
                  FitsFiles(OwnOrGroup(account.maxStorageFiles, GroupFiles(account)),
                            usage.files + NonNegative(additional.files)))
  {
  }

  /** A user's usage is the sum over the rows of the user's mailboxes: nothing without rows, a single row
      counts for the owner of its mailbox only, and the rows of two tables add up. */
  lemma {:induction false} UsageAddsUp(a: seq<EmailRow>, b: seq<EmailRow>, row: EmailRow, owner: string -> string,
          user: string)
    ensures UsageOf([], owner, user) == Usage(0, 0)
    ensures UsageOf([row], owner, user) ==
            if owner(row.mailbox) == user then Usage(row.storageBytes, row.storageFiles) else Usage(0, 0)
    ensures UsageOf(a + b, owner, user) ==
            Usage(UsageOf(a, owner, user).bytes + UsageOf(b, owner, user).bytes,
                  UsageOf(a, owner, user).files + UsageOf(b, owner, user).files)
  {
    assert UsageOf([row], owner, user) == UsageOf([row][..0] + [row], owner, user);
    if b == [] {
      assert a + b == a;
    } else {
      var init := b[..|b| - 1];
      assert (a + b)[..|a + b| - 1] == a + init;
      UsageAddsUp(a, init, row, owner, user);
    }
  }
}
