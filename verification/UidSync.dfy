/** One synchronisation of a mailbox by UID range: what it fetches and what it stores. */
module UidSync {
  import opened Wrappers

  const PERSONAL_INITIAL_SYNC_LIMIT := 10
  const BATCH := 200

  /** The stored progress of a domain. */
  datatype Progress = Progress(lastSyncedUid: Option<nat>, lastUidValidity: Option<nat>, lastFullSync: bool)

  /** What the server announced when the mailbox was selected. */
  datatype Announced = Announced(uidValidity: Option<nat>, uidNext: Option<nat>)

  /** How the connection behaves during one run: whether the search fails, which messages vanish
      before they are fetched, and after how many messages, if ever, the fetch breaks off. */
  datatype Network = Network(searchFails: bool, gone: set<nat>, breaksAfter: Option<nat>)

  datatype Mode = Incremental | InitialRecent | BackfillAll

  function Mark(p: Progress): nat {
    if p.lastSyncedUid.Some? then p.lastSyncedUid.value else 0
  }

  predicate ValidityChanged(p: Progress, a: Announced) {
    a.uidValidity.Some? && p.lastUidValidity.Some? && a.uidValidity != p.lastUidValidity
  }

  function ModeOf(personal: bool, p: Progress, a: Announced): Mode {
    if !personal || ValidityChanged(p, a) then Incremental
    else if Mark(p) == 0 then InitialRecent
    else if !p.lastFullSync then BackfillAll
    else Incremental
  }

  function StartUid(personal: bool, p: Progress, a: Announced): nat {
    if ValidityChanged(p, a) || !ModeOf(personal, p, a).Incremental? then 1 else Mark(p) + 1
  }

  function EndUid(a: Announced): Option<nat> {
    if a.uidNext.Some? && a.uidNext.value > 0 then Some(a.uidNext.value - 1) else None
  }

  /** The UIDs of the range, ascending. An open range ends at the largest UID in use, and includes
      it even when that lies below the start. */
  function InRange(uids: seq<nat>, start: nat, end: Option<nat>): seq<nat> {
    if uids == [] then []
    else if end.None? then
      var tail := From(uids, start);
      if tail == [] then [uids[|uids| - 1]] else tail
    else UpTo(From(uids, start), end.value)
  }

  function From(uids: seq<nat>, start: nat): seq<nat> {
    if uids == [] then []
    else From(uids[..|uids| - 1], start) + if uids[|uids| - 1] >= start then [uids[|uids| - 1]] else []
  }

  function UpTo(uids: seq<nat>, end: nat): seq<nat> {
    if uids == [] then []
    else UpTo(uids[..|uids| - 1], end) + if uids[|uids| - 1] <= end then [uids[|uids| - 1]] else []
  }

  function Wanted(personal: bool, p: Progress, a: Announced, found: seq<nat>): seq<nat> {
    if ModeOf(personal, p, a).InitialRecent? && |found| > PERSONAL_INITIAL_SYNC_LIMIT
    then found[|found| - PERSONAL_INITIAL_SYNC_LIMIT..] else found
  }

  /** The messages of `uids` the server still has when they are fetched. */
  function Present(uids: seq<nat>, gone: set<nat>): seq<nat> {
    if uids == [] then []
    else Present(uids[..|uids| - 1], gone) + if uids[|uids| - 1] in gone then [] else [uids[|uids| - 1]]
  }

  function MaxWith(highest: nat, uids: seq<nat>): nat {
    if uids == [] then highest
    else
      var m := MaxWith(highest, uids[..|uids| - 1]);
      if uids[|uids| - 1] > m then uids[|uids| - 1] else m
  }

  /** The outcome of a run: the new progress, the messages handed to processing in order, whether
      the fetch broke off, and whether the run stored its progress at the end. */
  datatype Outcome = Outcome(progress: Progress, handed: seq<nat>, failed: bool, stored: bool)

  /** After a changed UIDVALIDITY the mark is reset at once, before anything is fetched. */
  function Reset(p: Progress, a: Announced): Progress {
    if ValidityChanged(p, a) then p.(lastSyncedUid := None, lastUidValidity := a.uidValidity) else p
  }

  function Store(personal: bool, p: Progress, a: Announced, highest: nat): Progress {
    Progress(
      if highest > 0 then Some(highest) else Reset(p, a).lastSyncedUid,
      a.uidValidity,
      p.lastFullSync || !ModeOf(personal, p, a).InitialRecent?)
  }

  /** One run over a server whose messages are `uids`, ascending. */
  function Sync(personal: bool, p: Progress, a: Announced, uids: seq<nat>, n: Network): Outcome {
    var start, end := StartUid(personal, p, a), EndUid(a);
    var idle := Outcome(Reset(p, a), [], false, false);
    if (end.Some? && start > end.value) || n.searchFails then idle
    else
      var found := InRange(uids, start, end);
      if found == [] then idle
      else
        var delivered := Present(Wanted(personal, p, a, found), n.gone);
        if n.breaksAfter.Some? && n.breaksAfter.value < |delivered| then
          Outcome(Reset(p, a), delivered[..n.breaksAfter.value], true, false)
        else
          var highest := MaxWith(if ValidityChanged(p, a) then 0 else Mark(p), delivered);
          Outcome(Store(personal, p, a, highest), delivered, false, true)
  }

  // ----- The batches -----

  function Flatten(chunks: seq<seq<nat>>): seq<nat> {
    if chunks == [] then [] else Flatten(chunks[..|chunks| - 1]) + chunks[|chunks| - 1]
  }

  /** Splits into consecutive chunks: together they are the values in order, each is within the
      size, and all but the last are full. A size of zero or less means one chunk. */
  method ChunkArray(values: seq<nat>, chunkSize: int) returns (chunks: seq<seq<nat>>)
    ensures Flatten(chunks) == values
    ensures chunkSize > 0 ==> forall k :: 0 <= k < |chunks| ==> 0 < |chunks[k]| <= chunkSize
    ensures chunkSize > 0 ==> forall k :: 0 <= k < |chunks| - 1 ==> |chunks[k]| == chunkSize
    ensures chunkSize <= 0 ==> chunks == [values]
  {
    if chunkSize <= 0 {
      assert Flatten([values]) == Flatten([]) + values;
      return [values];
    }
    chunks := [];
    var i := 0;
    while i < |values|
      invariant i <= |values| ==> Flatten(chunks) == values[..i]
      invariant i > |values| ==> Flatten(chunks) == values
      invariant forall k :: 0 <= k < |chunks| ==> 0 < |chunks[k]| <= chunkSize
      invariant i <= |values| ==> forall k :: 0 <= k < |chunks| ==> |chunks[k]| == chunkSize
      invariant forall k :: 0 <= k < |chunks| - 1 ==> |chunks[k]| == chunkSize
    {
      var next := if i + chunkSize < |values| then i + chunkSize else |values|;
      var chunk := values[i..next];
      assert (chunks + [chunk])[..|chunks|] == chunks;
      assert values[..i] + chunk == values[..next];
      assert values[..|values|] == values;
      chunks := chunks + [chunk];
      i := i + chunkSize;
    }
    assert values[..|values|] == values;
  }

  lemma {:induction false} FlattenPrefix(chunks: seq<seq<nat>>, k: nat)
    requires k <= |chunks|
    ensures Flatten(chunks[..k]) <= Flatten(chunks)
    decreases |chunks| - k
  {
    if k == |chunks| {
      assert chunks[..k] == chunks;
    } else {
      FlattenPrefix(chunks, k + 1);
      FlattenNext(chunks, k);
    }
  }

  lemma FlattenNext(chunks: seq<seq<nat>>, k: nat)
    requires k < |chunks|
    ensures Flatten(chunks[..k + 1]) == Flatten(chunks[..k]) + chunks[k]
  {
    assert chunks[..k + 1][..k] == chunks[..k];
  }

  lemma PresentNext(uids: seq<nat>, i: nat, gone: set<nat>)
    requires i < |uids|
    ensures Present(uids[..i + 1], gone) == Present(uids[..i], gone) + if uids[i] in gone then [] else [uids[i]]
  {
    assert uids[..i + 1][..i] == uids[..i];
  }

  lemma {:induction false} PresentPrefix(uids: seq<nat>, i: nat, gone: set<nat>)
    requires i <= |uids|
    ensures Present(uids[..i], gone) <= Present(uids, gone)
    decreases |uids| - i
  {
    if i == |uids| {
      assert uids[..i] == uids;
    } else {
      PresentPrefix(uids, i + 1, gone);
      PresentNext(uids, i, gone);
    }
  }

  // ----- The synchroniser -----

  class Synchroniser {
    const personal: bool
    var progress: Progress
    /** Every UID handed to message processing, in order. */
    ghost var handed: seq<nat>

    constructor (personal: bool)
      ensures this.personal == personal && progress == Progress(None, None, false) && handed == []
    {
      this.personal, progress, handed := personal, Progress(None, None, false), [];
    }

    /** The next message of the fetch: it may have vanished, or the connection may break before it. */
    method FetchOne(uid: nat, n: Network, count: nat, highest: nat, ghost wanted: seq<nat>, ghost position: nat,
            ghost start: nat, ghost before: seq<nat>)
      returns (broken: bool, count': nat, highest': nat)
      requires position < |wanted| && wanted[position] == uid
      requires FetchedUpTo(wanted, position, n, start, before, handed, count, highest)
      modifies `handed
      ensures !broken ==> FetchedUpTo(wanted, position + 1, n, start, before, handed, count', highest')
      ensures broken ==> BrokenOff(wanted, n, before, handed)
    {
      broken, count', highest' := false, count, highest;
      FetchedNext(wanted, position, n, start, before, handed, count, highest);
      if uid !in n.gone {
        if n.breaksAfter == Some(count) {
          BreaksHere(wanted, position, n, start, before, handed, count, highest);
          return true, count, highest;
        }
        if uid > highest {
          highest' := uid;
        }
        handed := handed + [uid];
        count' := count + 1;
      }
    }

    /** The messages of one batch, which starts at `position` among the wanted ones. */
    method FetchBatch(batch: seq<nat>, n: Network, count: nat, highest: nat, ghost wanted: seq<nat>,
            ghost position: nat, ghost start: nat, ghost before: seq<nat>)
      returns (broken: bool, count': nat, highest': nat)
      requires position + |batch| <= |wanted| && wanted[position..position + |batch|] == batch
      requires FetchedUpTo(wanted, position, n, start, before, handed, count, highest)
      modifies `handed
      ensures !broken ==> FetchedUpTo(wanted, position + |batch|, n, start, before, handed, count', highest')
      ensures broken ==> BrokenOff(wanted, n, before, handed)
    {
      broken, count', highest' := false, count, highest;
      for i := 0 to |batch|
        invariant !broken && FetchedUpTo(wanted, position + i, n, start, before, handed, count', highest')
      {
        assert batch[i] == wanted[position..position + |batch|][i];
        broken, count', highest' := FetchOne(batch[i], n, count', highest', wanted, position + i, start, before);
        if broken {
          return;
        }
      }
    }

    /** Fetches the wanted UIDs batch by batch. `before` is the history when the fetch began. */
    method FetchAll(wanted: seq<nat>, n: Network, start: nat, ghost before: seq<nat>)
      returns (broken: bool, highest: nat)
      requires handed == before
      modifies `handed
      ensures broken ==> BrokenOff(wanted, n, before, handed)
      ensures !broken ==> FetchedUpTo(wanted, |wanted|, n, start, before, handed, |Present(wanted, n.gone)|, highest)
    {
      var batches := ChunkArray(wanted, BATCH);
      highest, broken := start, false;
      var count := 0;
      for b := 0 to |batches|
        invariant !broken && FetchedUpTo(wanted, |Flatten(batches[..b])|, n, start, before, handed, count, highest)
      {
        BatchPlaced(batches, b);
        broken, count, highest := FetchBatch(batches[b], n, count, highest, wanted, |Flatten(batches[..b])|, start,
          before);
        if broken {
          return;
        }
      }
      assert batches[..|batches|] == batches;
      assert wanted[..|wanted|] == wanted;
    }

    /** Fetches what was found and stores the progress, unless the fetch breaks off. */
    method FetchAndStore(p: Progress, a: Announced, found: seq<nat>, n: Network) returns (failed: bool)
      requires progress == Reset(p, a)
      modifies this
      ensures var delivered := Present(Wanted(personal, p, a, found), n.gone);
              && failed == (n.breaksAfter.Some? && n.breaksAfter.value < |delivered|)
              && handed == old(handed) + (if failed then delivered[..n.breaksAfter.value] else delivered)
              && progress == if failed then Reset(p, a)
                             else Store(personal, p, a,
                               MaxWith(if ValidityChanged(p, a) then 0 else Mark(p), delivered))
    {
      var mode := ModeOf(personal, p, a);
      var uids := found;
      if mode.InitialRecent? && |uids| > PERSONAL_INITIAL_SYNC_LIMIT {
        uids := uids[|uids| - PERSONAL_INITIAL_SYNC_LIMIT..];
      }
      var broken, highestUid := FetchAll(uids, n, if ValidityChanged(p, a) then 0 else Mark(p), handed);
      assert uids[..|uids|] == uids;
      if broken {
        return true;
      }
      progress := Progress(
        if highestUid > 0 then Some(highestUid) else progress.lastSyncedUid,
        a.uidValidity,
        progress.lastFullSync || !mode.InitialRecent?);
      return false;
    }

    method SyncByUidRange(a: Announced, uids: seq<nat>, n: Network) returns (failed: bool)
      modifies this
      ensures var outcome := Sync(personal, old(progress), a, uids, n);
              progress == outcome.progress && failed == outcome.failed && handed == old(handed) + outcome.handed
    {
      var p := progress;
      var startUid, endUid := StartUid(personal, p, a), EndUid(a);
      if ValidityChanged(p, a) {
        progress := progress.(lastSyncedUid := None, lastUidValidity := a.uidValidity);
      }
      if (endUid.Some? && startUid > endUid.value) || n.searchFails {
        return false;
      }
      var found := InRange(uids, startUid, endUid);
      if found == [] {
        return false;
      }
      failed := FetchAndStore(p, a, found, n);
    }
  }

  /** The fetch has dealt with the first `position` wanted UIDs without breaking off. */
  ghost predicate FetchedUpTo(wanted: seq<nat>, position: nat, n: Network, start: nat, before: seq<nat>,
          handed: seq<nat>, count: nat, highest: nat)
  {
    position <= |wanted| &&
    var delivered := Present(wanted[..position], n.gone);
    && handed == before + delivered && count == |delivered|
    && highest == MaxWith(start, delivered)
    && (n.breaksAfter.Some? ==> count <= n.breaksAfter.value)
  }

  /** The fetch broke off after the announced number of messages. */
  ghost predicate BrokenOff(wanted: seq<nat>, n: Network, before: seq<nat>, handed: seq<nat>) {
    var delivered := Present(wanted, n.gone);
    n.breaksAfter.Some? && n.breaksAfter.value < |delivered| && handed == before + delivered[..n.breaksAfter.value]
  }

  /** One more wanted message is dealt with: a vanished one leaves all as it was, another one is handed over. */
  lemma FetchedNext(wanted: seq<nat>, position: nat, n: Network, start: nat, before: seq<nat>, handed: seq<nat>,
          count: nat, highest: nat)
    requires position < |wanted| && FetchedUpTo(wanted, position, n, start, before, handed, count, highest)
    ensures wanted[position] in n.gone ==>
              FetchedUpTo(wanted, position + 1, n, start, before, handed, count, highest)
    ensures wanted[position] !in n.gone && n.breaksAfter != Some(count) ==>
              FetchedUpTo(wanted, position + 1, n, start, before, handed + [wanted[position]], count + 1,
                          if wanted[position] > highest then wanted[position] else highest)
  {
    var delivered := Present(wanted[..position], n.gone);
    PresentNext(wanted, position, n.gone);
    assert delivered + [] == delivered;
    assert (delivered + [wanted[position]])[..|delivered|] == delivered;
    assert before + (delivered + [wanted[position]]) == (before + delivered) + [wanted[position]];
  }

  lemma BreaksHere(wanted: seq<nat>, position: nat, n: Network, start: nat, before: seq<nat>, handed: seq<nat>,
          count: nat, highest: nat)
    requires position < |wanted| && FetchedUpTo(wanted, position, n, start, before, handed, count, highest)
    requires wanted[position] !in n.gone && n.breaksAfter == Some(count)
    ensures BrokenOff(wanted, n, before, handed)
  {
    var delivered := Present(wanted[..position], n.gone);
    PresentNext(wanted, position, n.gone);
    PresentPrefix(wanted, position + 1, n.gone);
    assert Present(wanted, n.gone)[..count] == delivered;
  }

  lemma BatchPlaced(batches: seq<seq<nat>>, b: nat)
    requires b < |batches|
    ensures var p := |Flatten(batches[..b])|;
            && |Flatten(batches[..b + 1])| == p + |batches[b]| <= |Flatten(batches)|
            && Flatten(batches)[p..p + |batches[b]|] == batches[b]
  {
    FlattenNext(batches, b);
    FlattenPrefix(batches, b + 1);
    var p := |Flatten(batches[..b])|;
    assert Flatten(batches)[..p + |batches[b]|] == Flatten(batches[..b + 1]);
    assert Flatten(batches)[p..p + |batches[b]|] == Flatten(batches[..b + 1])[p..];
  }
}
