/** What the logger has recorded when a run ends, and how the caps shape a run. */
module WorkflowLedger {
  import opened WorkflowTypes
  import opened WorkflowGraph
  import opened CycleDetection
  import opened WorkflowRun

  // ----- The failure ledger -----

  /** The path entries of completed rows, in step order. */
  function Completed(rows: seq<Row>): (r: seq<PathEntry>)
    ensures |r| == |rows|
  {
    seq(|rows|, i requires 0 <= i < |rows| => PathEntry(rows[i].nodeId, Success))
  }

  /** The path entries of an unwinding: innermost frame first. */
  function FailedReversed(open: seq<Frame>): seq<PathEntry> {
    if open == [] then [] else FailedReversed(open[1..]) + [PathEntry(open[0].nodeId, Failed)]
  }

  predicate RowOpen(open: seq<Frame>, row: nat) {
    exists k :: 0 <= k < |open| && open[k].row == row
  }

  /** Every row so far has succeeded and the path lists them all in step order. */
  ghost predicate AllCompleted(st: State) {
    && (forall i :: 0 <= i < |st.rows| ==> st.rows[i].status == Success)
    && st.path == Completed(st.rows)
  }

  ghost predicate SameNodes(rows: seq<Row>, rows': seq<Row>) {
    |rows| <= |rows'| && forall i :: 0 <= i < |rows| ==>
        rows'[i].nodeId == rows[i].nodeId && rows'[i].kind == rows[i].kind
  }

  /** How many rows had completed at the throw: all of them, except a last one that itself raised. */
  function CompletedAtThrow(cause: Cause, rows: nat): int {
    if cause.NodeError? then rows - 1 else rows
  }

  /** The frames `open`, opened by this call, are the failed rows; they hold the names of their rows. */
  ghost predicate FailedAre(st: State, from: nat, open: seq<Frame>) {
    && (forall k :: 0 <= k < |open| ==>
        from <= open[k].row < |st.rows| && st.rows[open[k].row].nodeId == open[k].nodeId)
    && forall i :: 0 <= i < |st.rows| ==> st.rows[i].status == if RowOpen(open, i) then Failed else Success
  }

  /** The ledger of a call made under `stack` from state `st`. */
  ghost predicate Ledger(stack: seq<Frame>, st: State, r: Run) {
    && SameNodes(st.rows, r.st.rows)
    && match r.outcome
       case Done => AllCompleted(r.st)
       case Threw(cause, open) =>
         && stack <= open
         && FailedAre(r.st, |st.rows|, open[|stack|..])
         && (cause.NodeError? ==> |open| > |stack| && open[|open| - 1].row == |r.st.rows| - 1)
         && CompletedAtThrow(cause, |r.st.rows|) >= 0
         && r.st.path == Completed(r.st.rows)[..CompletedAtThrow(cause, |r.st.rows|)] + FailedReversed(open[|stack|..])
  }

  lemma MarkKeepsNodes(st: State, row: nat, status: RowStatus)
    requires row < |st.rows|
    ensures SameNodes(st.rows, Mark(st, row, status).rows) && SameNodes(Mark(st, row, status).rows, st.rows)
    ensures Completed(Mark(st, row, status).rows) == Completed(st.rows)
  {
  }

  /** A node that completes at once. */
  lemma CompleteLedger(st: State, node: Node)
    requires AllCompleted(st)
    ensures var started := Start(st, node); AllCompleted(Mark(started, |st.rows|, Success))
  {
    var rows' := Mark(Start(st, node), |st.rows|, Success).rows;
    assert Completed(rows') == Completed(st.rows) + [PathEntry(node.id, Success)];
  }

  /** A node that raises. */
  lemma RaiseLedger(stack: seq<Frame>, st: State, node: Node)
    requires AllCompleted(st)
    ensures var row := |st.rows|;
            Ledger(stack, st, Run(Mark(Start(st, node), row, Failed), Threw(NodeError, stack + [Frame(node.id, row)])))
  {
    var row, frame := |st.rows|, Frame(node.id, |st.rows|);
    var failed := Mark(Start(st, node), row, Failed);
    var open := stack + [frame];
    assert open[|stack|..] == [frame];
    assert FailedReversed([frame]) == FailedReversed([]) + [PathEntry(node.id, Failed)];
    assert Completed(failed.rows)[..row] == Completed(st.rows);
    assert RowOpen([frame], row) by { assert [frame][0].row == row; }
  }

  lemma LedgerFromEarlier(stack: seq<Frame>, st: State, st': State, r: Run)
    requires SameNodes(st.rows, st'.rows) && Ledger(stack, st', r)
    ensures Ledger(stack, st, r)
  {
  }

  lemma FailOneMore(st: State, frame: Frame, tail: seq<Frame>)
    requires FailedAre(st, frame.row + 1, tail)
    requires frame.row < |st.rows| && st.rows[frame.row].nodeId == frame.nodeId
    ensures FailedAre(Mark(st, frame.row, Failed), frame.row, [frame] + tail)
  {
    var st' := Mark(st, frame.row, Failed);
    forall i | 0 <= i < |st'.rows|
      ensures st'.rows[i].status == if RowOpen([frame] + tail, i) then Failed else Success
    {
      RowOpenCons(frame, tail, i);
    }
  }

  /** A throw that passes through a node that had already completed marks it failed. */
  lemma UnwindLedger(stack: seq<Frame>, frame: Frame, st: State, completed: State, r: Run)
    requires frame.row == |st.rows| && SameNodes(st.rows, completed.rows) && |completed.rows| == |st.rows| + 1
    requires completed.rows[frame.row].nodeId == frame.nodeId
    requires Ledger(stack + [frame], completed, r) && r.outcome.Threw?
    ensures Ledger(stack, st, Unwind(r, frame.row))
  {
    var tail := r.outcome.open[|stack| + 1..];
    OpenTail(stack, frame, r.outcome.open);
    MarkKeepsNodes(r.st, frame.row, Failed);
    FailOneMore(r.st, frame, tail);
    UnwindPath(Completed(r.st.rows)[..CompletedAtThrow(r.outcome.cause, |r.st.rows|)], frame, tail);
  }

  lemma OpenTail(stack: seq<Frame>, frame: Frame, open: seq<Frame>)
    requires stack + [frame] <= open
    ensures open[|stack|..] == [frame] + open[|stack| + 1..]
  {
    assert open[|stack|] == (stack + [frame])[|stack|];
  }

  lemma UnwindPath(completed: seq<PathEntry>, frame: Frame, tail: seq<Frame>)
    ensures (completed + FailedReversed(tail)) + [PathEntry(frame.nodeId, Failed)]
         == completed + FailedReversed([frame] + tail)
  {
    assert ([frame] + tail)[1..] == tail;
  }

  lemma RowOpenCons(frame: Frame, tail: seq<Frame>, i: nat)
    ensures RowOpen([frame] + tail, i) <==> i == frame.row || RowOpen(tail, i)
  {
    var open := [frame] + tail;
    if i == frame.row {
      assert open[0].row == i;
    }
    if RowOpen(tail, i) {
      var k :| 0 <= k < |tail| && tail[k].row == i;
      assert open[k + 1].row == i;
    }
  }

  lemma CapLedger(stack: seq<Frame>, st: State, st': State, cause: Cause)
    requires AllCompleted(st) && st'.rows == st.rows && st'.path == st.path && !cause.NodeError?
    ensures Ledger(stack, st, Run(st', Threw(cause, stack)))
  {
    assert stack[|stack|..] == [];
    assert Completed(st.rows)[..|st.rows|] + FailedReversed([]) == Completed(st.rows);
  }

  lemma {:induction false} NodeLedger(c: Config, w: World, caps: Caps, stack: seq<Frame>, id: NodeId, st: State)
    requires Callable(c, stack, id) && (caps.Unlimited? ==> !HasLasso(c)) && AllCompleted(st)
    ensures Ledger(stack, st, RunNode(c, w, caps, stack, id, st))
    decreases Fuel(c, caps, stack, st), 0, 1
  {
    var st1, node := st.(steps := st.steps + 1), FindNode(c.nodes, id);
    if GoesOn(c, w, caps, id, st) {
      FoundLedger(c, w, caps, stack, node.value, st1);
      CountedLedger(stack, st, RunFound(c, w, caps, stack, node.value, st1));
    } else {
      StoppedLedger(c, w, caps, stack, id, st);
    }
  }

  /** The call neither stops at once nor misses its node. */
  ghost predicate GoesOn(c: Config, w: World, caps: Caps, id: NodeId, st: State) {
    !st.aborted && !TimedOut(w, caps, st.steps) && !TooManySteps(caps, st.steps + 1) && FindNode(c.nodes, id).Some?
  }

  lemma StoppedLedger(c: Config, w: World, caps: Caps, stack: seq<Frame>, id: NodeId, st: State)
    requires Callable(c, stack, id) && (caps.Unlimited? ==> !HasLasso(c)) && AllCompleted(st)
    requires !GoesOn(c, w, caps, id, st)
    ensures Ledger(stack, st, RunNode(c, w, caps, stack, id, st))
  {
    var r := RunNode(c, w, caps, stack, id, st);
    if r.outcome.Done? {
      IdleLedger(stack, st, r.st);
    } else {
      CapLedger(stack, st, r.st, r.outcome.cause);
    }
  }

  /** A call that does nothing but count its entry. */
  lemma IdleLedger(stack: seq<Frame>, st: State, st': State)
    requires AllCompleted(st) && st'.rows == st.rows && st'.path == st.path
    ensures Ledger(stack, st, Run(st', Done))
  {
  }

  /** The ledger does not depend on the entries counted. */
  lemma CountedLedger(stack: seq<Frame>, st: State, r: Run)
    requires Ledger(stack, st.(steps := st.steps + 1), r)
    ensures Ledger(stack, st, r)
  {
  }

  lemma {:induction false} FoundLedger(c: Config, w: World, caps: Caps, stack: seq<Frame>, node: Node, st: State)
    requires Callable(c, stack, node.id) && (caps.Unlimited? ==> !HasLasso(c)) && AllCompleted(st)
    ensures Ledger(stack, st, RunFound(c, w, caps, stack, node, st))
    decreases Fuel(c, caps, stack, st), if caps.Unlimited? then 0 else 2, 0
  {
    var row := |st.rows|;
    var frame := Frame(node.id, row);
    match w.results(row, node.id)
    case Raised => RaiseLedger(stack, st, node);
    case Returned(value) =>
      var completed := Mark(Start(st, node), row, Success);
      CompleteLedger(st, node);
      if !node.kind.ControlEnd? {
        RouteCallable(c, stack, frame, node, value);
        NestingHasRoom(c, caps, stack, node.id);
        var targets := RouteTargets(c, node, value);
        ListLedger(c, w, caps, stack + [frame], targets, completed);
        var r := RunList(c, w, caps, stack + [frame], targets, completed);
        if r.outcome.Threw? {
          UnwindLedger(stack, frame, st, completed, r);
        }
      }
  }

  lemma {:induction false} ListLedger(c: Config, w: World, caps: Caps, stack: seq<Frame>, ids: seq<NodeId>, st: State)
    requires AllCallable(c, stack, ids) && (caps.Unlimited? ==> !HasLasso(c)) && AllCompleted(st)
    ensures Ledger(stack, st, RunList(c, w, caps, stack, ids, st))
    decreases Fuel(c, caps, stack, st), 1, |ids|
  {
    if ids != [] {
      NodeLedger(c, w, caps, stack, ids[0], st);
      var r := RunNode(c, w, caps, stack, ids[0], st);
      if r.outcome.Done? {
        ListLedger(c, w, caps, stack, ids[1..], r.st);
        LedgerFromEarlier(stack, st, r.st, RunList(c, w, caps, stack, ids[1..], r.st));
      }
    }
  }

  /** When a run ends, no row is left running. After a throw the failed rows are exactly the nodes
      that were open when it happened; they form a graph path from the trigger, and the execution
      path is the completed nodes in step order followed by that path reversed. A run that ends
      without a throw lists every started node in step order. */
  lemma RunLedger(c: Config, w: World, caps: Caps)
    requires caps.Unlimited? ==> !HasLasso(c)
    ensures
      var r := Execute(c, w, caps);
      && (forall i :: 0 <= i < |r.st.rows| ==> r.st.rows[i].status != Running)
      && match r.outcome
         case Done => AllCompleted(r.st)
         case Threw(cause, open) =>
           && (forall i :: 0 <= i < |r.st.rows| ==> (r.st.rows[i].status == Failed <==> RowOpen(open, i)))
           && (forall k :: 0 <= k < |open| ==>
               open[k].row < |r.st.rows| && r.st.rows[open[k].row].nodeId == open[k].nodeId)
           && (open != [] ==>
               IsRootedWalk(c, Ids(open)) && FindTrigger(c.nodes).Some? &&
               open[0].nodeId == FindTrigger(c.nodes).value.id)
           && CompletedAtThrow(cause, |r.st.rows|) >= 0
           && r.st.path == Completed(r.st.rows)[..CompletedAtThrow(cause, |r.st.rows|)] + FailedReversed(open)
  {
    match FindTrigger(c.nodes)
    case None =>
      assert Completed([]) == [];
    case Some(trigger) =>
      TriggerCallable(c, trigger);
      NodeLedger(c, w, caps, [], trigger.id, INITIAL);
      var r := Execute(c, w, caps);
      if r.outcome.Threw? {
        assert r.outcome.open[0..] == r.outcome.open;
      }
  }

  // ----- The caps -----

  /** Started nodes never outnumber the entries counted, nor the step cap. */
  ghost predicate WithinSteps(caps: Caps, st: State) {
    |st.rows| <= st.steps && (caps.Limits? ==> |st.rows| <= caps.maxSteps)
  }

  lemma {:induction false} NodeSteps(c: Config, w: World, caps: Caps, stack: seq<Frame>, id: NodeId, st: State)
    requires Callable(c, stack, id) && (caps.Unlimited? ==> !HasLasso(c)) && WithinSteps(caps, st)
    ensures WithinSteps(caps, RunNode(c, w, caps, stack, id, st).st)
    decreases Fuel(c, caps, stack, st), 0, 1
  {
    var st1 := st.(steps := st.steps + 1);
    var node := FindNode(c.nodes, id);
    if !st.aborted && !TimedOut(w, caps, st.steps) && !TooManySteps(caps, st1.steps) && node.Some? {
      FoundSteps(c, w, caps, stack, node.value, st1);
    }
  }

  lemma {:induction false} FoundSteps(c: Config, w: World, caps: Caps, stack: seq<Frame>, node: Node, st: State)
    requires Callable(c, stack, node.id) && (caps.Unlimited? ==> !HasLasso(c))
    requires |st.rows| < st.steps && (caps.Limits? ==> |st.rows| < caps.maxSteps)
    ensures WithinSteps(caps, RunFound(c, w, caps, stack, node, st).st)
    decreases Fuel(c, caps, stack, st), if caps.Unlimited? then 0 else 2, 0
  {
    var row, frame := |st.rows|, Frame(node.id, |st.rows|);
    var result := w.results(row, node.id);
    if result.Returned? && !node.kind.ControlEnd? {
      RouteCallable(c, stack, frame, node, result.value);
      NestingHasRoom(c, caps, stack, node.id);
      var completed := Mark(Start(st, node), row, Success);
      ListSteps(c, w, caps, stack + [frame], RouteTargets(c, node, result.value), completed);
    }
  }

  lemma {:induction false} ListSteps(c: Config, w: World, caps: Caps, stack: seq<Frame>, ids: seq<NodeId>, st: State)
    requires AllCallable(c, stack, ids) && (caps.Unlimited? ==> !HasLasso(c)) && WithinSteps(caps, st)
    ensures WithinSteps(caps, RunList(c, w, caps, stack, ids, st).st)
    decreases Fuel(c, caps, stack, st), 1, |ids|
  {
    if ids != [] {
      NodeSteps(c, w, caps, stack, ids[0], st);
      var r := RunNode(c, w, caps, stack, ids[0], st);
      if r.outcome.Done? {
        ListSteps(c, w, caps, stack, ids[1..], r.st);
      }
    }
  }

  /** Every capped run, on any configuration, starts at most `maxSteps` nodes. */
  lemma RunStartsAtMostMaxSteps(c: Config, w: World, maxSteps: nat, maxDurationMs: int)
    ensures |Execute(c, w, Limits(maxSteps, maxDurationMs)).st.rows| <= maxSteps
  {
    var trigger := FindTrigger(c.nodes);
    if trigger.Some? {
      TriggerCallable(c, trigger.value);
      NodeSteps(c, w, Limits(maxSteps, maxDurationMs), [], trigger.value.id, INITIAL);
    }
  }

  ghost predicate CapFired(r: Run) {
    r.outcome.Threw? && (r.outcome.cause.StepCap? || r.outcome.cause.TimeCap?)
  }

  predicate EntryAllowed(w: World, limits: Caps, entry: nat) {
    !TimedOut(w, limits, entry) && !TooManySteps(limits, entry + 1)
  }

  /** No cap objects to the entries numbered `from` up to `to`. */
  ghost predicate CapsAllow(w: World, limits: Caps, from: nat, to: nat) {
    forall k :: from <= k < to ==> EntryAllowed(w, limits, k)
  }

  /** A capped call and the uncapped one: the cap stays silent exactly when it allows every entry
      the uncapped call makes, and then both calls are the same. */
  ghost predicate Transparent(w: World, limits: Caps, from: nat, capped: Run, free: Run) {
    && (!CapFired(capped) <==> CapsAllow(w, limits, from, free.st.steps))
    && (!CapFired(capped) ==> capped == free)
    && !CapFired(free)
  }

  lemma CapsSplit(w: World, limits: Caps, from: nat, to: nat)
    requires from < to
    ensures CapsAllow(w, limits, from, to) <==>
            EntryAllowed(w, limits, from) && CapsAllow(w, limits, from + 1, to)
  {
  }

  lemma {:induction false} NodeTransparent(c: Config, w: World, limits: Caps, stack: seq<Frame>, id: NodeId, st: State)
    requires Callable(c, stack, id) && !HasLasso(c) && limits.Limits?
    ensures Transparent(w, limits, st.steps, RunNode(c, w, limits, stack, id, st),
            RunNode(c, w, Unlimited, stack, id, st))
    decreases Fuel(c, Unlimited, stack, st), 0, 1
  {
    var free := RunNode(c, w, Unlimited, stack, id, st);
    var st1 := st.(steps := st.steps + 1);
    var node := FindNode(c.nodes, id);
    if !st.aborted {
      CapsSplit(w, limits, st.steps, free.st.steps);
      if node.Some? {
        FoundTransparent(c, w, limits, stack, node.value, st1);
      }
    }
  }

  lemma {:induction false} FoundTransparent(c: Config, w: World, limits: Caps, stack: seq<Frame>, node: Node, st: State)
    requires Callable(c, stack, node.id) && !HasLasso(c) && limits.Limits?
    ensures Transparent(w, limits, st.steps, RunFound(c, w, limits, stack, node, st),
            RunFound(c, w, Unlimited, stack, node, st))
    decreases Fuel(c, Unlimited, stack, st), 0, 0
  {
    var row, frame := |st.rows|, Frame(node.id, |st.rows|);
    var result := w.results(row, node.id);
    if result.Returned? && !node.kind.ControlEnd? {
      RouteCallable(c, stack, frame, node, result.value);
      NestingHasRoom(c, Unlimited, stack, node.id);
      var completed := Mark(Start(st, node), row, Success);
      ListTransparent(c, w, limits, stack + [frame], RouteTargets(c, node, result.value), completed);
    }
  }

  lemma {:induction false} ListTransparent(c: Config, w: World, limits: Caps, stack: seq<Frame>, ids: seq<NodeId>,
          st: State)
    requires AllCallable(c, stack, ids) && !HasLasso(c) && limits.Limits?
    ensures Transparent(w, limits, st.steps, RunList(c, w, limits, stack, ids, st),
            RunList(c, w, Unlimited, stack, ids, st))
    decreases Fuel(c, Unlimited, stack, st), 1, |ids|
  {
    if ids != [] {
      NodeTransparent(c, w, limits, stack, ids[0], st);
      var r := RunNode(c, w, Unlimited, stack, ids[0], st);
      if r.outcome.Done? {
        ListTransparent(c, w, limits, stack, ids[1..], r.st);
      }
    }
  }

  /** On a configuration the cycle detector accepts, the caps change nothing exactly when every
      entry of the uncapped run comes in time and within the step cap. */
  lemma CapsAreTransparent(c: Config, w: World, limits: Caps)
    requires !HasLasso(c) && limits.Limits?
    ensures Transparent(w, limits, 0, Execute(c, w, limits), Execute(c, w, Unlimited))
  {
    var trigger := FindTrigger(c.nodes);
    if trigger.Some? {
      TriggerCallable(c, trigger.value);
      NodeTransparent(c, w, limits, [], trigger.value.id, INITIAL);
    }
  }

  // ----- Reaching the end node -----

  predicate EndCompleted(row: Row) {
    row.kind.ControlEnd? && row.status == Success
  }

  /** An end node completes exactly when the run is aborted, and then nothing starts after it and
      nothing throws. */
  ghost predicate EndIsLast(st: State, outcome: Outcome) {
    && (forall i :: 0 <= i < |st.rows| && EndCompleted(st.rows[i]) ==> st.aborted && i == |st.rows| - 1)
    && (st.aborted ==> outcome.Done? && st.rows != [] && EndCompleted(st.rows[|st.rows| - 1]))
  }

  lemma {:induction false} NodeEnd(c: Config, w: World, caps: Caps, stack: seq<Frame>, id: NodeId, st: State)
    requires Callable(c, stack, id) && (caps.Unlimited? ==> !HasLasso(c)) && EndIsLast(st, Done)
    ensures var r := RunNode(c, w, caps, stack, id, st); EndIsLast(r.st, r.outcome)
    decreases Fuel(c, caps, stack, st), 0, 1
  {
    var st1 := st.(steps := st.steps + 1);
    var node := FindNode(c.nodes, id);
    if !st.aborted && !TimedOut(w, caps, st.steps) && !TooManySteps(caps, st1.steps) && node.Some? {
      FoundEnd(c, w, caps, stack, node.value, st1);
    }
  }

  lemma EndsHere(c: Config, w: World, caps: Caps, stack: seq<Frame>, node: Node, st: State)
    requires Callable(c, stack, node.id) && (caps.Unlimited? ==> !HasLasso(c))
    requires EndIsLast(st, Done) && !st.aborted
    requires w.results(|st.rows|, node.id).Raised? || node.kind.ControlEnd?
    ensures var r := RunFound(c, w, caps, stack, node, st); EndIsLast(r.st, r.outcome)
  {
  }

  lemma {:induction false} FoundEnd(c: Config, w: World, caps: Caps, stack: seq<Frame>, node: Node, st: State)
    requires Callable(c, stack, node.id) && (caps.Unlimited? ==> !HasLasso(c))
    requires EndIsLast(st, Done) && !st.aborted
    ensures var r := RunFound(c, w, caps, stack, node, st); EndIsLast(r.st, r.outcome)
    decreases Fuel(c, caps, stack, st), if caps.Unlimited? then 0 else 2, 0
  {
    var row, frame := |st.rows|, Frame(node.id, |st.rows|);
    var result := w.results(row, node.id);
    if result.Raised? || node.kind.ControlEnd? {
      EndsHere(c, w, caps, stack, node, st);
    } else {
      RouteCallable(c, stack, frame, node, result.value);
      NestingHasRoom(c, caps, stack, node.id);
      var completed := Mark(Start(st, node), row, Success);
      ListEnd(c, w, caps, stack + [frame], RouteTargets(c, node, result.value), completed);
    }
  }

  lemma {:induction false} ListEnd(c: Config, w: World, caps: Caps, stack: seq<Frame>, ids: seq<NodeId>, st: State)
    requires AllCallable(c, stack, ids) && (caps.Unlimited? ==> !HasLasso(c)) && EndIsLast(st, Done)
    ensures var r := RunList(c, w, caps, stack, ids, st); EndIsLast(r.st, r.outcome)
    decreases Fuel(c, caps, stack, st), 1, |ids|
  {
    if ids != [] {
      NodeEnd(c, w, caps, stack, ids[0], st);
      var r := RunNode(c, w, caps, stack, ids[0], st);
      if r.outcome.Done? {
        ListEnd(c, w, caps, stack, ids[1..], r.st);
      }
    }
  }

  /** Once an end node completes no further node starts and the run ends without a throw, whatever
      siblings were still waiting. */
  lemma EndStopsTheRun(c: Config, w: World, caps: Caps, i: nat)
    requires caps.Unlimited? ==> !HasLasso(c)
    requires i < |Execute(c, w, caps).st.rows| && EndCompleted(Execute(c, w, caps).st.rows[i])
    ensures Execute(c, w, caps).outcome.Done? && i == |Execute(c, w, caps).st.rows| - 1
  {
    var trigger := FindTrigger(c.nodes);
    if trigger.Some? {
      TriggerCallable(c, trigger.value);
      NodeEnd(c, w, caps, [], trigger.value.id, INITIAL);
    }
  }
}
