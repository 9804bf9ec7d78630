/** Storing one incoming message for its recipients: predicted and actual storage, duplicate
    suppression and the quota check. */
module MailIngestion {
  import opened StorageQuota
  import opened Wrappers

  /** A parsed attachment: its declared size, if any, and the length of its content, if any. */
  datatype Attachment = Attachment(size: Option<int>, content: Option<nat>)

  /** A message with the length of its raw text; zero means no raw text. */
  datatype Message = Message(rawBytes: nat, messageId: Option<string>, attachments: seq<Attachment>)

  /** The outcome of each storage write and each inbound record of one message, by recipient. */
  datatype Store = Store(rawOk: nat -> bool, attachmentOk: (nat, nat) -> bool, inboundOk: nat -> bool)

  function AttachmentWrites(store: Store, k: nat): nat -> bool {
    (i: nat) => store.attachmentOk(k, i)
  }

  /** The settings a message meets; with `knownOnly` the domain ignores addresses without a
      mailbox, otherwise it still records the message for them. */
  datatype Settings = Settings(
    owner: string -> string, quota: string -> Quota, keepsContent: string -> bool, maxAttachment: nat, knownOnly: bool)

  function Max0(n: int): int {
    if n < 0 then 0 else n
  }

  /** JavaScript's `size || length`. */
  function SizeOr(a: Attachment, length: nat): int {
    if a.size.Some? && a.size.value != 0 then a.size.value else length
  }

  // ----- Prediction -----

  function Predicted(attachments: seq<Attachment>, max: nat): Usage {
    if attachments == [] then Usage(0, 0)
    else
      var acc, a := Predicted(attachments[..|attachments| - 1], max), attachments[|attachments| - 1];
      if a.content.None? then acc
      else
        var size := Max0(SizeOr(a, a.content.value));
        if size > max then acc else Usage(acc.bytes + size, acc.files + 1)
  }

  // ----- What is really written -----

  /** The sizes recorded for the attachments that were written. */
  function Records(attachments: seq<Attachment>, max: nat, writes: nat -> bool): seq<int> {
    if attachments == [] then []
    else
      var n := |attachments| - 1;
      var records, a := Records(attachments[..n], max, writes), attachments[n];
      if (a.size.Some? && a.size.value > max) || a.content.None? || !writes(n) then records
      else records + [SizeOr(a, a.content.value)]
  }

  function Total(sizes: seq<int>): int {
    if sizes == [] then 0 else Total(sizes[..|sizes| - 1]) + Max0(sizes[|sizes| - 1])
  }

  method ProcessAttachments(attachments: seq<Attachment>, max: nat, writes: nat -> bool) returns (records: seq<int>)
    ensures records == Records(attachments, max, writes)
  {
    records := [];
    for i := 0 to |attachments|
      invariant records == Records(attachments[..i], max, writes)
    {
      var a := attachments[i];
      assert attachments[..i + 1][..i] == attachments[..i];
      if a.size.Some? && a.size.value > max {
        continue;
      }
      if a.content.None? {
        continue;
      }
      if writes(i) {
        records := records + [SizeOr(a, a.content.value)];
      }
    }
    assert attachments[..|attachments|] == attachments;
  }

  /** An attachment the prediction leaves out but the writer takes: it declares no size and its
      content is longer than the maximum. */
  predicate Unpredicted(a: Attachment, max: nat) {
    a.content.Some? && (a.size.None? || a.size.value == 0) && a.content.value > max
  }

  ghost predicate AllPredicted(attachments: seq<Attachment>, max: nat) {
    forall i :: 0 <= i < |attachments| ==> !Unpredicted(attachments[i], max)
  }

  ghost predicate NeverMoreThanPredicted(attachments: seq<Attachment>, max: nat) {
    forall writes: nat -> bool :: Fits(Records(attachments, max, writes), Predicted(attachments, max))
  }

  ghost predicate Fits(records: seq<int>, predicted: Usage) {
    Total(records) <= predicted.bytes && |records| <= predicted.files
  }

  lemma TotalSnoc(sizes: seq<int>, size: int)
    ensures Total(sizes + [size]) == Total(sizes) + Max0(size)
  {
    assert (sizes + [size])[..|sizes|] == sizes;
  }

  lemma {:induction false} RecordsFit(attachments: seq<Attachment>, max: nat, writes: nat -> bool)
    requires AllPredicted(attachments, max)
    ensures Fits(Records(attachments, max, writes), Predicted(attachments, max))
  {
    if attachments != [] {
      var n := |attachments| - 1;
      RecordsFit(attachments[..n], max, writes);
      var a := attachments[n];
      assert !Unpredicted(a, max);
      if a.content.Some? {
        TotalSnoc(Records(attachments[..n], max, writes), SizeOr(a, a.content.value));
      }
    }
  }

  lemma {:induction false} AllWrittenIsMore(attachments: seq<Attachment>, max: nat, writes: nat -> bool)
    requires forall i :: writes(i)
    ensures Total(Records(attachments, max, writes)) >= Predicted(attachments, max).bytes
    ensures !AllPredicted(attachments, max) ==>
            Total(Records(attachments, max, writes)) > Predicted(attachments, max).bytes
  {
    if attachments != [] {
      var n := |attachments| - 1;
      AllWrittenIsMore(attachments[..n], max, writes);
      var a := attachments[n];
      if a.content.Some? {
        TotalSnoc(Records(attachments[..n], max, writes), SizeOr(a, a.content.value));
      }
      if AllPredicted(attachments[..n], max) && !Unpredicted(a, max) {
        assert AllPredicted(attachments, max);
      }
    }
  }

  /** The sizes recorded never exceed the prediction, whichever writes succeed, exactly when every
      attachment with content longer than the maximum declares its size. */
  lemma PredictionIsSafeIff(attachments: seq<Attachment>, max: nat)
    ensures NeverMoreThanPredicted(attachments, max) <==> AllPredicted(attachments, max)
  {
    if AllPredicted(attachments, max) {
      forall writes: nat -> bool
        ensures Fits(Records(attachments, max, writes), Predicted(attachments, max))
      {
        RecordsFit(attachments, max, writes);
      }
    } else {
      AllWrittenIsMore(attachments, max, _ => true);
      assert !Fits(Records(attachments, max, _ => true), Predicted(attachments, max));
    }
  }

  /** When all writes succeed and nothing is left out, what is recorded is exactly what was predicted. */
  lemma {:induction false} PredictionIsReached(attachments: seq<Attachment>, max: nat)
    requires AllPredicted(attachments, max)
    ensures var records := Records(attachments, max, _ => true);
            Total(records) == Predicted(attachments, max).bytes && |records| == Predicted(attachments, max).files
  {
    if attachments != [] {
      var n := |attachments| - 1;
      PredictionIsReached(attachments[..n], max);
      var a := attachments[n];
      assert !Unpredicted(a, max);
      if a.content.Some? {
        TotalSnoc(Records(attachments[..n], max, _ => true), SizeOr(a, a.content.value));
      }
    }
  }

  /** A written attachment is recorded with its declared size, or its length when it declares none or zero; one
      without content, or declared too large, is not written. A negative size counts as nothing. */
  lemma OneRecord(a: Attachment, max: nat)
    ensures Records([a], max, _ => true) ==
            match a
            case Attachment(_, None) => []
            case Attachment(None, Some(length)) => [length]
            case Attachment(Some(size), Some(length)) =>
              if size > max then [] else if size == 0 then [length] else [size]
    ensures forall size: int :: Total([size]) == if size >= 0 then size else 0
  {
    assert [a][..0] == [];
    forall size: int
      ensures Total([size]) == if size >= 0 then size else 0
    {
      TotalSnoc([], size);
      assert [] + [size] == [size];
    }
  }

  // ----- Recorded sizes and content -----

  /** The writer takes the attachment. */
  predicate Accepted(a: Attachment, max: nat) {
    a.content.Some? && (a.size.Some? ==> a.size.value <= max)
  }

  /** The content bytes of the attachments that were written. */
  function ContentBytes(attachments: seq<Attachment>, max: nat, writes: nat -> bool): nat {
    if attachments == [] then 0
    else
      var n := |attachments| - 1;
      ContentBytes(attachments[..n], max, writes) +
      if Accepted(attachments[n], max) && writes(n) then attachments[n].content.value else 0
  }

  /** An accepted attachment is recorded with the length of its content. */
  predicate RecordsLength(a: Attachment, max: nat) {
    Accepted(a, max) ==> Max0(SizeOr(a, a.content.value)) == a.content.value
  }

  ghost predicate AllRecordLength(attachments: seq<Attachment>, max: nat) {
    forall i :: 0 <= i < |attachments| ==> RecordsLength(attachments[i], max)
  }

  ghost predicate RecordsAreContent(attachments: seq<Attachment>, max: nat) {
    forall writes: nat -> bool :: ContentBytes(attachments, max, writes) == Total(Records(attachments, max, writes))
  }

  lemma {:induction false} LengthsAddUp(attachments: seq<Attachment>, max: nat, writes: nat -> bool)
    requires AllRecordLength(attachments, max)
    ensures ContentBytes(attachments, max, writes) == Total(Records(attachments, max, writes))
  {
    if attachments != [] {
      LengthsAddUp(attachments[..|attachments| - 1], max, writes);
      assert RecordsLength(attachments[|attachments| - 1], max);
    }
  }

  /** When only attachment `k` is written, both totals are those of `k`. */
  lemma {:induction false} OnlyOneWritten(attachments: seq<Attachment>, max: nat, k: nat)
    ensures var writes := (i: nat) => i == k;
            var taken := k < |attachments| && Accepted(attachments[k], max);
            && ContentBytes(attachments, max, writes) == (if taken then attachments[k].content.value else 0)
            && Total(Records(attachments, max, writes)) ==
                 (if taken then Max0(SizeOr(attachments[k], attachments[k].content.value)) else 0)
  {
    if attachments != [] {
      OnlyOneWritten(attachments[..|attachments| - 1], max, k);
    }
  }

  /** The bytes of content written are the bytes recorded, whichever writes succeed, exactly when every
      accepted attachment is recorded with the length of its content. */
  lemma RecordsAreContentIff(attachments: seq<Attachment>, max: nat)
    ensures RecordsAreContent(attachments, max) <==> AllRecordLength(attachments, max)
  {
    if AllRecordLength(attachments, max) {
      forall writes: nat -> bool
        ensures ContentBytes(attachments, max, writes) == Total(Records(attachments, max, writes))
      {
        LengthsAddUp(attachments, max, writes);
      }
    } else {
      var k :| 0 <= k < |attachments| && !RecordsLength(attachments[k], max);
      OnlyOneWritten(attachments, max, k);
    }
  }

  /** When sizes are declared truthfully, or not at all for short attachments, the content written stays
      within the prediction, whichever writes succeed. */
  lemma ContentIsPredicted(attachments: seq<Attachment>, max: nat, writes: nat -> bool)
    requires AllRecordLength(attachments, max) && AllPredicted(attachments, max)
    ensures ContentBytes(attachments, max, writes) <= Predicted(attachments, max).bytes
  {
    LengthsAddUp(attachments, max, writes);
    RecordsFit(attachments, max, writes);
  }

  // ----- One recipient -----

  predicate IsDuplicate(rows: seq<EmailRow>, mailbox: string, messageId: Option<string>) {
    messageId.Some? && exists i :: 0 <= i < |rows| && rows[i].mailbox == mailbox && rows[i].messageId == messageId
  }

  /** The storage decision for one mailbox: whether the content is kept. */
  function KeepsContent(rows: seq<EmailRow>, s: Settings, m: Message, mailbox: string): bool {
    var user := s.owner(mailbox);
    s.keepsContent(user) &&
    var predicted := Predicted(m.attachments, s.maxAttachment);
    if m.rawBytes > 0 || predicted.files > 0 then
      CanStore(s.quota(user), UsageOf(rows, s.owner, user),
               Usage(m.rawBytes + predicted.bytes, (if m.rawBytes > 0 then 1 else 0) + predicted.files))
    else true
  }

  function StoredRow(s: Settings, m: Message, mailbox: string, kept: bool, rawOk: bool, writes: nat -> bool): EmailRow {
    var raw := kept && m.rawBytes > 0 && rawOk;
    var records := if kept then Records(m.attachments, s.maxAttachment, writes) else [];
    EmailRow(mailbox, m.messageId, (if raw then m.rawBytes else 0) + Total(records), (if raw then 1 else 0) + |records|)
  }

  /** The rows after recipient number `k`; an address without a mailbox, and a message the mailbox
      already has, add none. */
  function AfterRecipient(rows: seq<EmailRow>, s: Settings, m: Message, store: Store, k: nat,
          target: Option<string>): seq<EmailRow> {
    if target.None? || IsDuplicate(rows, target.value, m.messageId) then rows
    else
      var kept := KeepsContent(rows, s, m, target.value);
      rows + [StoredRow(s, m, target.value, kept, store.rawOk(k), AttachmentWrites(store, k))]
  }

  /** The inbound record of recipient number `k` is attempted and fails. */
  predicate InboundFails(s: Settings, store: Store, k: nat, target: Option<string>) {
    !(target.None? && s.knownOnly) && !store.inboundOk(k)
  }

  /** The rows after the first recipients in turn; a recipient whose inbound record fails ends the
      message. */
  function AfterRecipients(rows: seq<EmailRow>, s: Settings, m: Message, store: Store,
          targets: seq<Option<string>>): (seq<EmailRow>, bool) {
    if targets == [] then (rows, true)
    else
      var n := |targets| - 1;
      var (rows', ok) := AfterRecipients(rows, s, m, store, targets[..n]);
      if !ok || InboundFails(s, store, n, targets[n]) then (rows', false)
      else (AfterRecipient(rows', s, m, store, n, targets[n]), true)
  }

  class MailStore {
    const settings: Settings
    var emails: seq<EmailRow>

    constructor (settings: Settings)
      ensures this.settings == settings && emails == []
    {
      this.settings, emails := settings, [];
    }

    /** Stores the message for one mailbox unless the mailbox already has it. */
    method StoreFor(m: Message, mailbox: string, rawOk: bool, writes: nat -> bool)
      modifies this
      ensures emails == if IsDuplicate(old(emails), mailbox, m.messageId) then old(emails)
                        else old(emails) + [StoredRow(settings, m, mailbox,
                          KeepsContent(old(emails), settings, m, mailbox), rawOk, writes)]
    {
      var user := settings.owner(mailbox);
      var wanted := settings.keepsContent(user);
      var predictedRaw := if wanted then m.rawBytes else 0;
      var predicted := if wanted then Predicted(m.attachments, settings.maxAttachment) else Usage(0, 0);
      var storageAllowed := true;
      if wanted && (predictedRaw > 0 || predicted.files > 0) {
        storageAllowed := CanStore(settings.quota(user), UsageOf(emails, settings.owner, user),
                                   Usage(predictedRaw + predicted.bytes,
                                         (if predictedRaw > 0 then 1 else 0) + predicted.files));
      }
      var kept := wanted && storageAllowed;
      var rawStored := kept && m.rawBytes > 0 && rawOk;
      if IsDuplicate(emails, mailbox, m.messageId) {
        return;
      }
      var records: seq<int> := [];
      if kept {
        records := ProcessAttachments(m.attachments, settings.maxAttachment, writes);
      }
      var row := EmailRow(mailbox, m.messageId,
        (if rawStored then predictedRaw else 0) + Total(records), (if rawStored then 1 else 0) + |records|);
      emails := emails + [row];
    }

    method ProcessMessage(m: Message, targets: seq<Option<string>>, store: Store) returns (ok: bool)
      modifies this
      ensures (emails, ok) == AfterRecipients(old(emails), settings, m, store, targets)
    {
      ok := true;
      for k := 0 to |targets|
        invariant ok && (emails, ok) == AfterRecipients(old(emails), settings, m, store, targets[..k])
      {
        assert targets[..k + 1][..k] == targets[..k];
        if targets[k].None? && settings.knownOnly {
          continue;
        }
        if !store.inboundOk(k) {
          StopsHere(old(emails), settings, m, store, targets, k);
          return false;
        }
        if targets[k].Some? {
          StoreFor(m, targets[k].value, store.rawOk(k), AttachmentWrites(store, k));
        }
      }
      assert targets[..|targets|] == targets;
    }
  }

  lemma {:induction false} StopsHere(rows: seq<EmailRow>, s: Settings, m: Message, store: Store,
          targets: seq<Option<string>>, k: nat)
    requires k < |targets| && InboundFails(s, store, k, targets[k])
    ensures AfterRecipients(rows, s, m, store, targets) == (AfterRecipients(rows, s, m, store, targets[..k]).0, false)
  {
    var n := |targets| - 1;
    if k < n {
      StopsHere(rows, s, m, store, targets[..n], k);
      assert targets[..n][..k] == targets[..k];
    }
  }

  // ----- The quota is an invariant -----

  /** From `before` to `after` the user's usage grows only to a value the quota allows. */
  ghost predicate GrowsWithin(quota: Quota, before: Usage, after: Usage) {
    after == before || (before.bytes <= after.bytes && before.files <= after.files &&
      (after.bytes > before.bytes || after.files > before.files ==> Allows(quota, after)))
  }

  lemma {:induction false} TotalNonNegative(sizes: seq<int>)
    ensures Total(sizes) >= 0
  {
    if sizes != [] {
      TotalNonNegative(sizes[..|sizes| - 1]);
    }
  }

  lemma {:induction false} PredictedNonNegative(attachments: seq<Attachment>, max: nat)
    ensures Predicted(attachments, max).bytes >= 0 && Predicted(attachments, max).files >= 0
    ensures Predicted(attachments, max).files == 0 ==> Predicted(attachments, max).bytes == 0
  {
    if attachments != [] {
      PredictedNonNegative(attachments[..|attachments| - 1], max);
    }
  }

  /** A row that takes storage is within the quota check made before it was written. */
  lemma RowIsAllowed(rows: seq<EmailRow>, s: Settings, m: Message, mailbox: string, rawOk: bool, writes: nat -> bool)
    requires AllPredicted(m.attachments, s.maxAttachment)
    ensures var row := StoredRow(s, m, mailbox, KeepsContent(rows, s, m, mailbox), rawOk, writes);
            var usage := UsageOf(rows, s.owner, s.owner(mailbox));
            && row.storageBytes >= 0 && row.storageFiles >= 0
            && (row.storageBytes > 0 || row.storageFiles > 0 ==>
                  Allows(s.quota(s.owner(mailbox)),
                    Usage(usage.bytes + row.storageBytes, usage.files + row.storageFiles)))
  {
    RecordsFit(m.attachments, s.maxAttachment, writes);
    TotalNonNegative(Records(m.attachments, s.maxAttachment, writes));
    PredictedNonNegative(m.attachments, s.maxAttachment);
  }

  lemma RecipientGrowsWithin(rows: seq<EmailRow>, s: Settings, m: Message, store: Store, k: nat, target: Option<string>,
          user: string)
    requires AllPredicted(m.attachments, s.maxAttachment)
    ensures GrowsWithin(s.quota(user), UsageOf(rows, s.owner, user),
                        UsageOf(AfterRecipient(rows, s, m, store, k, target), s.owner, user))
  {
    if target.Some? && !IsDuplicate(rows, target.value, m.messageId) {
      var writes := AttachmentWrites(store, k);
      RowIsAllowed(rows, s, m, target.value, store.rawOk(k), writes);
      var row := StoredRow(s, m, target.value, KeepsContent(rows, s, m, target.value), store.rawOk(k), writes);
    }
  }

  lemma GrowsWithinTransitive(quota: Quota, a: Usage, b: Usage, c: Usage)
    requires GrowsWithin(quota, a, b) && GrowsWithin(quota, b, c)
    ensures GrowsWithin(quota, a, c)
  {
  }

  lemma {:induction false} MessageGrowsWithin(rows: seq<EmailRow>, s: Settings, m: Message, store: Store,
          targets: seq<Option<string>>, user: string)
    requires AllPredicted(m.attachments, s.maxAttachment)
    ensures GrowsWithin(s.quota(user), UsageOf(rows, s.owner, user),
                        UsageOf(AfterRecipients(rows, s, m, store, targets).0, s.owner, user))
  {
    if targets != [] {
      var n := |targets| - 1;
      MessageGrowsWithin(rows, s, m, store, targets[..n], user);
      var (rows', ok) := AfterRecipients(rows, s, m, store, targets[..n]);
      if ok && !InboundFails(s, store, n, targets[n]) {
        RecipientGrowsWithin(rows', s, m, store, n, targets[n], user);
        GrowsWithinTransitive(s.quota(user), UsageOf(rows, s.owner, user), UsageOf(rows', s.owner, user),
                              UsageOf(AfterRecipients(rows, s, m, store, targets).0, s.owner, user));
      }
    }
  }

  /** One incoming message with the settings in force and the outcome of its writes. */
  datatype Delivery = Delivery(settings: Settings, message: Message, targets: seq<Option<string>>, store: Store)

  function AfterAll(rows: seq<EmailRow>, deliveries: seq<Delivery>): seq<EmailRow> {
    if deliveries == [] then rows
    else
      var d := deliveries[|deliveries| - 1];
      AfterRecipients(AfterAll(rows, deliveries[..|deliveries| - 1]), d.settings, d.message, d.store, d.targets).0
  }

  /** The delivery's attachments are all predicted; mailboxes keep their owners and the user keeps
      the quota. */
  ghost predicate Regular(d: Delivery, owner: string -> string, user: string, quota: Quota) {
    AllPredicted(d.message.attachments, d.settings.maxAttachment) && d.settings.owner == owner &&
      d.settings.quota(user) == quota
  }

  /** Over any sequence of messages and recipients, whichever writes fail, a user within quota stays
      within quota and a user over it never grows. */
  lemma {:induction false} QuotaIsInvariant(rows: seq<EmailRow>, deliveries: seq<Delivery>, owner: string -> string,
          user: string, quota: Quota)
    requires forall i :: 0 <= i < |deliveries| ==> Regular(deliveries[i], owner, user, quota)
    ensures var before, after := UsageOf(rows, owner, user), UsageOf(AfterAll(rows, deliveries), owner, user);
            && GrowsWithin(quota, before, after)
            && (Allows(quota, before) ==> Allows(quota, after))
            && (!Allows(quota, before) ==> after == before)
  {
    if deliveries != [] {
      var n := |deliveries| - 1;
      var d := deliveries[n];
      assert Regular(d, owner, user, quota);
      QuotaIsInvariant(rows, deliveries[..n], owner, user, quota);
      var rows' := AfterAll(rows, deliveries[..n]);
      MessageGrowsWithin(rows', d.settings, d.message, d.store, d.targets, user);
      GrowsWithinTransitive(quota, UsageOf(rows, owner, user), UsageOf(rows', owner, user),
                            UsageOf(AfterAll(rows, deliveries), owner, user));
    }
  }

  /** So with the quota of an account, over any sequence of messages, the bytes of its user grow only up to
      the megabytes and the files only up to the number of the account's own limits, or else its group's. */
  lemma AccountStaysWithin(rows: seq<EmailRow>, deliveries: seq<Delivery>, owner: string -> string, user: string,
          account: Account)
    requires forall i :: 0 <= i < |deliveries| ==> Regular(deliveries[i], owner, user, ResolveQuota(Some(account)))
    requires !account.isAdmin
    ensures var before, after := UsageOf(rows, owner, user), UsageOf(AfterAll(rows, deliveries), owner, user);
            && (after == before ||
                (FitsMb(OwnOrGroup(account.maxStorageMb, GroupMb(account)), after.bytes) &&
                 FitsFiles(OwnOrGroup(account.maxStorageFiles, GroupFiles(account)), after.files)))
            && before.bytes <= after.bytes && before.files <= after.files
  {
    QuotaIsInvariant(rows, deliveries, owner, user, ResolveQuota(Some(account)));
    CanStoreIff(Some(account), UsageOf(AfterAll(rows, deliveries), owner, user), Usage(0, 0));
  }

  /** Whatever is stored already and whatever the settings, the message lets no user's usage grow beyond
      the quota. */
  ghost predicate NeverBreaksQuota(m: Message, max: nat) {
    forall d: Delivery, rows: seq<EmailRow>, user: string :: d.message == m && d.settings.maxAttachment == max ==>
      GrowsWithin(d.settings.quota(user), UsageOf(rows, d.settings.owner, user),
                  UsageOf(AfterRecipients(rows, d.settings, m, d.store, d.targets).0, d.settings.owner, user))
  }

  /** A delivery whose writes all succeed, to one mailbox of a user whose quota is just what is predicted. */
  function TightDelivery(m: Message, max: nat): Delivery {
    var predicted := Predicted(m.attachments, max);
    Delivery(Settings(_ => "user", _ => Quota(Some(m.rawBytes + predicted.bytes), None), _ => true, max, true),
             m, [Some("mailbox")], Store(_ => true, (_, _) => true, _ => true))
  }

  lemma TightDeliveryBreaks(m: Message, max: nat)
    requires !AllPredicted(m.attachments, max)
    ensures var d := TightDelivery(m, max);
            !GrowsWithin(d.settings.quota("user"), UsageOf([], d.settings.owner, "user"),
                         UsageOf(AfterRecipients([], d.settings, m, d.store, d.targets).0, d.settings.owner, "user"))
  {
    var d := TightDelivery(m, max);
    var row := StoredRow(d.settings, m, "mailbox", true, true, AttachmentWrites(d.store, 0));
    AllWrittenIsMore(m.attachments, max, AttachmentWrites(d.store, 0));
    PredictedNonNegative(m.attachments, max);
    assert KeepsContent([], d.settings, m, "mailbox");
    assert d.targets[..0] == [];
    assert AfterRecipients([], d.settings, m, d.store, []) == ([], true);
    assert AfterRecipients([], d.settings, m, d.store, d.targets).0 == [] + [row];
  }

  /** The quota check is safe for a message exactly when its attachments are all predicted: otherwise even
      a first message can break the quota it was checked against. */
  lemma QuotaIsSafeIff(m: Message, max: nat)
    ensures NeverBreaksQuota(m, max) <==> AllPredicted(m.attachments, max)
  {
    if AllPredicted(m.attachments, max) {
      forall d: Delivery, rows: seq<EmailRow>, user: string | d.message == m && d.settings.maxAttachment == max
        ensures GrowsWithin(d.settings.quota(user), UsageOf(rows, d.settings.owner, user),
                            UsageOf(AfterRecipients(rows, d.settings, m, d.store, d.targets).0, d.settings.owner, user))
      {
        MessageGrowsWithin(rows, d.settings, m, d.store, d.targets, user);
      }
    } else {
      TightDeliveryBreaks(m, max);
      assert TightDelivery(m, max).message == m && TightDelivery(m, max).settings.maxAttachment == max;
    }
  }

  // ----- Duplicates -----

  predicate HasMessage(rows: seq<EmailRow>, mailbox: string, messageId: Option<string>) {
    exists row :: row in rows && row.mailbox == mailbox && row.messageId == messageId
  }

  /** A message is stored for a mailbox exactly when the mailbox holds no row with its message id, or it has
      none; then exactly one row is added, with that id. */
  lemma StoredUnlessThere(rows: seq<EmailRow>, s: Settings, m: Message, store: Store, k: nat, target: Option<string>)
    ensures var after := AfterRecipient(rows, s, m, store, k, target);
            if target.Some? && (m.messageId.None? || !HasMessage(rows, target.value, m.messageId)) then
              && |after| == |rows| + 1 && after[..|rows|] == rows
              && after[|rows|].mailbox == target.value && after[|rows|].messageId == m.messageId
            else after == rows
  {
    if target.Some? && m.messageId.Some? {
      if row :| row in rows && row.mailbox == target.value && row.messageId == m.messageId {
        var i :| 0 <= i < |rows| && rows[i] == row;
      }
      assert IsDuplicate(rows, target.value, m.messageId) <==> HasMessage(rows, target.value, m.messageId);
    }
  }

  predicate SameMessage(a: EmailRow, b: EmailRow) {
    a.mailbox == b.mailbox && a.messageId == b.messageId
  }

  /** No mailbox holds two rows with the same message id. */
  ghost predicate NoTwins(rows: seq<EmailRow>) {
    forall i, j :: 0 <= i < j < |rows| && SameMessage(rows[i], rows[j]) ==> rows[i].messageId.None?
  }

  lemma {:induction false} RecipientsKeepOne(rows: seq<EmailRow>, s: Settings, m: Message, store: Store,
          targets: seq<Option<string>>)
    requires NoTwins(rows)
    ensures NoTwins(AfterRecipients(rows, s, m, store, targets).0)
  {
    if targets != [] {
      RecipientsKeepOne(rows, s, m, store, targets[..|targets| - 1]);
    }
  }

  /** Over every sequence of deliveries, however often a message arrives and for however many addresses of
      one mailbox, the mailbox holds at most one row for its message id. */
  lemma {:induction false} MessagesAreStoredOnce(rows: seq<EmailRow>, deliveries: seq<Delivery>)
    requires NoTwins(rows)
    ensures NoTwins(AfterAll(rows, deliveries))
  {
    if deliveries != [] {
      var n := |deliveries| - 1;
      var d := deliveries[n];
      MessagesAreStoredOnce(rows, deliveries[..n]);
      RecipientsKeepOne(AfterAll(rows, deliveries[..n]), d.settings, d.message, d.store, d.targets);
    }
  }
}
