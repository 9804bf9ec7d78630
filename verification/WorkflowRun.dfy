/** What one run of a workflow does: routing, the recursive interpreter and its two caps. */
module WorkflowRun {
  import opened Sequences
  import opened Wrappers
  import opened WorkflowTypes
  import opened WorkflowGraph
  import opened CycleDetection

  /** The value a node's executor returns. */
  datatype Value = Undefined | Bool(b: bool) | Text(text: string) | OtherValue(truthy: bool) {
    /** JavaScript's Boolean(value). */
    predicate Truthy() {
      match this
      case Undefined => false
      case Bool(b) => b
      case Text(t) => t != ""
      case OtherValue(t) => t
    }
  }

  datatype NodeResult = Returned(value: Value) | Raised

  /** Everything outside the interpreter. `results(k, id)` is what the k-th started node, `id`,
      does; `clock(k)` is the time read at the k-th entry; both are arbitrary. */
  datatype World = World(results: (nat, NodeId) -> NodeResult, clock: nat -> int, startedAt: int)

  datatype Caps = Unlimited | Limits(maxSteps: nat, maxDurationMs: int)

  datatype RowStatus = Running | Success | Failed

  datatype Row = Row(nodeId: NodeId, kind: NodeType, status: RowStatus)

  datatype PathEntry = PathEntry(nodeId: NodeId, status: RowStatus)

  datatype LogEntry = Logged(entry: PathEntry) | NodeMissing(nodeId: NodeId)

  /** The engine's fields and the rows its logger has written; a row's index is its step order
      minus one and serves as its log id. */
  datatype State = State(
    aborted: bool, steps: nat, rows: seq<Row>, path: seq<PathEntry>, logs: seq<LogEntry>)

  const INITIAL := State(false, 0, [], [], [])

  /** A node that has started and whose call has not returned. */
  datatype Frame = Frame(nodeId: NodeId, row: nat)

  datatype Cause = NodeError | StepCap | TimeCap | NoTrigger

  /** How a call ends. A throw carries the frames that were open when it happened. */
  datatype Outcome = Done | Threw(cause: Cause, open: seq<Frame>)

  datatype Run = Run(st: State, outcome: Outcome)

  // ----- Routing -----

  function FindNode(nodes: seq<Node>, id: NodeId): (r: Option<Node>)
    ensures r.Some? ==> r.value in nodes && r.value.id == id
    ensures r.None? ==> forall n :: n in nodes ==> n.id != id
  {
    if nodes == [] then None
    else if nodes[0].id == id then Some(nodes[0])
    else FindNode(nodes[1..], id)
  }

  function FindTrigger(nodes: seq<Node>): (r: Option<Node>)
    ensures r.Some? ==> r.value in nodes && r.value.kind.IsTrigger()
    ensures r.None? ==> forall n :: n in nodes ==> !n.kind.IsTrigger()
  {
    if nodes == [] then None
    else if nodes[0].kind.IsTrigger() then Some(nodes[0])
    else FindTrigger(nodes[1..])
  }

  /** The search finds the first node of the name. */
  lemma {:induction false} FindsFirstNode(nodes: seq<Node>, i: nat)
    requires i < |nodes| && forall j :: 0 <= j < i ==> nodes[j].id != nodes[i].id
    ensures FindNode(nodes, nodes[i].id) == Some(nodes[i])
  {
    if i > 0 {
      assert nodes[0].id != nodes[i].id;
      FindsFirstNode(nodes[1..], i - 1);
    }
  }

  /** A run starts at the first trigger. */
  lemma {:induction false} FindsFirstTrigger(nodes: seq<Node>, i: nat)
    requires i < |nodes| && nodes[i].kind.IsTrigger() && forall j :: 0 <= j < i ==> !nodes[j].kind.IsTrigger()
    ensures FindTrigger(nodes) == Some(nodes[i])
  {
    if i > 0 {
      assert !nodes[0].kind.IsTrigger();
      FindsFirstTrigger(nodes[1..], i - 1);
    }
  }

  function BoolHandle(b: bool): Option<string> {
    Some(if b then "true" else "false")
  }

  /** Which outgoing edges a node's result selects. */
  datatype Selection = NoEdge | AnyEdge | WithHandle(handle: Option<string>) {
    predicate Admits(edge: Edge) {
      match this
      case NoEdge => false
      case AnyEdge => true
      case WithHandle(handle) => edge.sourceHandle == handle
    }
  }

  function SelectedTargets(c: Config, id: NodeId, selection: Selection): seq<NodeId> {
    match selection
    case NoEdge => []
    case AnyEdge => NextNodes(id, c.edges, None)
    case WithHandle(handle) => if handle.None? then [] else NextNodes(id, c.edges, handle)
  }

  /** The edges under the category a multi-way node returned. An undefined category filters
      nothing; a value that is not a string equals no handle. */
  function CategorySelection(value: Value): Selection {
    match value
    case Undefined => AnyEdge
    case Text(category) => WithHandle(Some(category))
    case _ => NoEdge
  }

  function Route(c: Config, node: Node, value: Value): (r: Selection)
    ensures r.WithHandle? ==> r.handle.Some?
  {
    if node.kind.ConditionKeyword? && value.Bool? then WithHandle(BoolHandle(value.b))
    else
      match OutputsOf(node.kind)
      case Some(Multi) =>
        var category := CategorySelection(value);
        if SelectedTargets(c, node.id, category) != [] then category else WithHandle(Some("default"))
      case Some(Conditional) => WithHandle(BoolHandle(value.Truthy()))
      case _ => AnyEdge
  }

  function RouteTargets(c: Config, node: Node, value: Value): seq<NodeId> {
    SelectedTargets(c, node.id, Route(c, node, value))
  }

  lemma RouteFollowsEdges(c: Config, node: Node, value: Value, v: NodeId)
    requires v in RouteTargets(c, node, value)
    ensures HasEdge(c, node.id, v)
  {
    var selection := Route(c, node, value);
    NextNodesExact(node.id, c.edges, if selection.WithHandle? then selection.handle else None, v);
  }

  // ----- The logger's three writes -----

  function Start(st: State, node: Node): State {
    st.(rows := st.rows + [Row(node.id, node.kind, Running)])
  }

  function Mark(st: State, row: nat, status: RowStatus): State
    requires row < |st.rows|
  {
    var entry := PathEntry(st.rows[row].nodeId, status);
    st.(rows := st.rows[row := st.rows[row].(status := status)],
        path := st.path + [entry],
        logs := st.logs + [Logged(entry)])
  }

  // ----- The interpreter -----

  function Ids(stack: seq<Frame>): (r: seq<NodeId>)
    ensures |r| == |stack|
  {
    seq(|stack|, i requires 0 <= i < |stack| => stack[i].nodeId)
  }

  /** A call on `id` under the open frames `stack`: together they are a walk from a listed node. */
  ghost predicate Callable(c: Config, stack: seq<Frame>, id: NodeId) {
    IsRootedWalk(c, Ids(stack) + [id])
  }

  ghost predicate AllCallable(c: Config, stack: seq<Frame>, ids: seq<NodeId>) {
    forall id :: id in ids ==> Callable(c, stack, id)
  }

  lemma RouteCallable(c: Config, stack: seq<Frame>, frame: Frame, node: Node, value: Value)
    requires Callable(c, stack, node.id) && frame.nodeId == node.id
    ensures AllCallable(c, stack + [frame], RouteTargets(c, node, value))
  {
    assert Ids(stack + [frame]) == Ids(stack) + [node.id];
    forall id | id in RouteTargets(c, node, value)
      ensures Callable(c, stack + [frame], id)
    {
      RouteFollowsEdges(c, node, value, id);
      ExtendWalk(c, Ids(stack) + [node.id], id);
    }
  }

  /** Without a lasso, a walk from a listed node visits no name twice. */
  lemma {:induction false} WalkIsInjective(c: Config, w: seq<NodeId>)
    requires IsRootedWalk(c, w) && !HasLasso(c)
    ensures |Elements(w)| == |w| && Elements(w) <= Vertices(c)
    decreases |w|
  {
    RootedWalkEnd(c, w);
    var init, last := w[..|w| - 1], w[|w| - 1];
    assert Elements(w) == Elements(init) + {last};
    assert last !in init by {
      assert !IsLasso(c, w);
    }
    if init != [] {
      SubWalk(c, w, 0, |w| - 1);
      WalkIsInjective(c, init);
    }
  }

  /** On a configuration the cycle detector accepts, calls nest no deeper than there are names. */
  lemma NestingBound(c: Config, stack: seq<Frame>, id: NodeId)
    requires Callable(c, stack, id) && !HasLasso(c)
    ensures |stack| + 1 <= |Vertices(c)|
    ensures WellJoined(c) ==> |stack| + 1 <= |NodeIds(c)|
  {
    var w := Ids(stack) + [id];
    WalkIsInjective(c, w);
    SubsetSize(Elements(w), Vertices(c));
    assert WellJoined(c) ==> Vertices(c) == NodeIds(c);
  }

  lemma NestingHasRoom(c: Config, caps: Caps, stack: seq<Frame>, id: NodeId)
    requires Callable(c, stack, id) && (caps.Unlimited? ==> !HasLasso(c))
    ensures caps.Unlimited? ==> |stack| < |Vertices(c)|
  {
    if caps.Unlimited? {
      NestingBound(c, stack, id);
    }
  }

  /** The open frames of a throw are a walk from a listed node. */
  ghost predicate OpenWalk(c: Config, open: seq<Frame>) {
    open == [] || IsRootedWalk(c, Ids(open))
  }

  lemma CallableOpens(c: Config, stack: seq<Frame>, id: NodeId, row: nat)
    requires Callable(c, stack, id)
    ensures OpenWalk(c, stack) && OpenWalk(c, stack + [Frame(id, row)])
  {
    var w := Ids(stack) + [id];
    assert Ids(stack + [Frame(id, row)]) == w;
    if stack != [] {
      SubWalk(c, w, 0, |stack|);
      assert w[..|stack|] == Ids(stack);
    }
  }

  /** What a throw under `stack` carries: the frames of `stack`, then a walk that starts at `id`. */
  ghost predicate ThrownFrom(c: Config, stack: seq<Frame>, id: NodeId, outcome: Outcome) {
    outcome.Threw? ==>
      && OpenWalk(c, outcome.open)
      && stack <= outcome.open
      && (|outcome.open| > |stack| ==> outcome.open[|stack|].nodeId == id)
  }

  /** Steps left under the cap, or nesting levels left when there is no cap. */
  ghost function Fuel(c: Config, caps: Caps, stack: seq<Frame>, st: State): nat {
    match caps
    case Limits(maxSteps, _) => if st.steps > maxSteps then 0 else maxSteps + 1 - st.steps
    case Unlimited => if |stack| > |Vertices(c)| then 0 else |Vertices(c)| - |stack|
  }

  predicate TimedOut(w: World, caps: Caps, entry: nat) {
    caps.Limits? && w.clock(entry) - w.startedAt > caps.maxDurationMs
  }

  predicate TooManySteps(caps: Caps, steps: nat) {
    caps.Limits? && steps > caps.maxSteps
  }

  /** The end of a call whose node had row `row`: a throw from below marks it failed. */
  function Unwind(r: Run, row: nat): Run
    requires row < |r.st.rows|
  {
    if r.outcome.Threw? then Run(Mark(r.st, row, Failed), r.outcome) else r
  }

  /** One call of the interpreter. With no caps it is defined exactly for configurations the cycle
      detector accepts. */
  ghost function RunNode(c: Config, w: World, caps: Caps, stack: seq<Frame>, id: NodeId, st: State): (r: Run)
    requires Callable(c, stack, id)
    requires caps.Unlimited? ==> !HasLasso(c)
    ensures st.steps <= r.st.steps && |st.rows| <= |r.st.rows| && ThrownFrom(c, stack, id, r.outcome)
    decreases Fuel(c, caps, stack, st), 0, 1
  {
    CallableOpens(c, stack, id, 0);
    if st.aborted then Run(st, Done)
    else if TimedOut(w, caps, st.steps) then Run(st, Threw(TimeCap, stack))
    else
      var st1 := st.(steps := st.steps + 1);
      if TooManySteps(caps, st1.steps) then Run(st1, Threw(StepCap, stack))
      else
        var node := FindNode(c.nodes, id);
        if node.None? then Run(st1.(logs := st1.logs + [NodeMissing(id)]), Done)
        else RunFound(c, w, caps, stack, node.value, st1)
  }

  /** The part of a call after its node has been found. */
  ghost function RunFound(c: Config, w: World, caps: Caps, stack: seq<Frame>, node: Node, st: State): (r: Run)
    requires Callable(c, stack, node.id)
    requires caps.Unlimited? ==> !HasLasso(c)
    ensures st.steps <= r.st.steps && |st.rows| < |r.st.rows| && ThrownFrom(c, stack, node.id, r.outcome)
    decreases Fuel(c, caps, stack, st), if caps.Unlimited? then 0 else 2, 0
  {
    CallableOpens(c, stack, node.id, |st.rows|);
    var row := |st.rows|;
    var started := Start(st, node);
    var stack' := stack + [Frame(node.id, row)];
    match w.results(row, node.id)
    case Raised => Run(Mark(started, row, Failed), Threw(NodeError, stack'))
    case Returned(value) =>
      var completed := Mark(started, row, Success);
      if node.kind.ControlEnd? then Run(completed.(aborted := true), Done)
      else
        RouteCallable(c, stack, Frame(node.id, row), node, value);
        NestingHasRoom(c, caps, stack, node.id);
        Unwind(RunList(c, w, caps, stack', RouteTargets(c, node, value), completed), row)
  }

  ghost function RunList(c: Config, w: World, caps: Caps, stack: seq<Frame>, ids: seq<NodeId>, st: State): (r: Run)
    requires AllCallable(c, stack, ids)
    requires caps.Unlimited? ==> !HasLasso(c)
    ensures st.steps <= r.st.steps && |st.rows| <= |r.st.rows|
    ensures r.outcome.Threw? ==> OpenWalk(c, r.outcome.open) && stack <= r.outcome.open
    decreases Fuel(c, caps, stack, st), 1, |ids|
  {
    if ids == [] then Run(st, Done)
    else
      var r := RunNode(c, w, caps, stack, ids[0], st);
      if r.outcome.Threw? then r else RunList(c, w, caps, stack, ids[1..], r.st)
  }

  /** A whole run: from the first trigger node, or no run at all without one. */
  ghost function Execute(c: Config, w: World, caps: Caps): Run
    requires caps.Unlimited? ==> !HasLasso(c)
  {
    match FindTrigger(c.nodes)
    case None => Run(INITIAL, Threw(NoTrigger, []))
    case Some(trigger) =>
      TriggerCallable(c, trigger);
      RunNode(c, w, caps, [], trigger.id, INITIAL)
  }

  lemma TriggerCallable(c: Config, trigger: Node)
    requires trigger in c.nodes
    ensures Callable(c, [], trigger.id)
  {
    assert Ids([]) + [trigger.id] == [trigger.id];
  }
}
