/** The validation of a workflow configuration. */
module WorkflowValidation {
  import opened CycleDetection
  import opened WorkflowGraph
  import opened WorkflowTypes

  datatype Problem =
    | MissingTrigger | ManyTriggers | WrongTrigger
    | DanglingSource(source: NodeId) | DanglingTarget(target: NodeId)
    | TriggerHasIncoming(trigger: NodeId)
    | NoIncoming(node: NodeId) | NoOutgoing(node: NodeId)
    | Cycles(reports: seq<seq<NodeId>>)

  function Triggers(nodes: seq<Node>): seq<Node> {
    if nodes == [] then []
    else Triggers(nodes[..|nodes| - 1]) + if nodes[|nodes| - 1].kind.IsTrigger() then [nodes[|nodes| - 1]] else []
  }

  predicate HasIncoming(c: Config, id: NodeId) {
    exists e :: e in c.edges && e.target == id
  }

  predicate HasOutgoing(c: Config, id: NodeId) {
    exists e :: e in c.edges && e.source == id
  }

  /** Every type but the retired triggers and foreign types has a definition. */
  predicate IsDefined(kind: NodeType) {
    !kind.TriggerSchedule? && !kind.TriggerManual? && !kind.OtherTrigger? && !kind.OtherType?
  }

  ghost predicate TwoTriggers(nodes: seq<Node>) {
    exists i, j :: 0 <= i < j < |nodes| && nodes[i].kind.IsTrigger() && nodes[j].kind.IsTrigger()
  }

  /** The problems other than cycles. Only nodes with a definition are checked; every defined node
      but the trigger takes an input, and only the end node has no output. */
  ghost predicate IsProblem(c: Config, p: Problem) {
    match p
    case MissingTrigger => forall n :: n in c.nodes ==> !n.kind.IsTrigger()
    case ManyTriggers => TwoTriggers(c.nodes)
    case WrongTrigger => exists n :: n in c.nodes && n.kind.IsTrigger() && !n.kind.TriggerEmail?
    case DanglingSource(id) => id !in NodeIds(c) && HasOutgoing(c, id)
    case DanglingTarget(id) => id !in NodeIds(c) && HasIncoming(c, id)
    case TriggerHasIncoming(id) => HasIncoming(c, id) && exists n :: n in c.nodes && n.id == id && n.kind.TriggerEmail?
    case NoIncoming(id) =>
      !HasIncoming(c, id) && exists n :: n in c.nodes && n.id == id && IsDefined(n.kind) && !n.kind.TriggerEmail?
    case NoOutgoing(id) =>
      !HasOutgoing(c, id) && exists n :: n in c.nodes && n.id == id && IsDefined(n.kind) && !n.kind.ControlEnd?
    case Cycles(_) => false
  }

  /** What validation promises: exactly the problems there are, and a cycle report exactly when the
      detector finds a lasso. */
  ghost predicate ValidatesExactly(c: Config, problems: seq<Problem>) {
    && (forall p :: p in problems && !p.Cycles? ==> IsProblem(c, p))
    && (forall p :: IsProblem(c, p) ==> p in problems)
    && (HasLasso(c) <==> exists reports :: Cycles(reports) in problems)
    && (forall reports :: Cycles(reports) in problems ==> DetectsExactly(c, reports))
  }

  lemma {:induction false} TriggersExact(nodes: seq<Node>)
    ensures forall n :: n in Triggers(nodes) <==> n in nodes && n.kind.IsTrigger()
  {
    if nodes != [] {
      TriggersExact(nodes[..|nodes| - 1]);
      assert nodes == nodes[..|nodes| - 1] + [nodes[|nodes| - 1]];
    }
  }

  lemma TwoTriggersSnoc(init: seq<Node>, last: Node)
    ensures TwoTriggers(init + [last]) <==>
            TwoTriggers(init) || (last.kind.IsTrigger() && exists i :: 0 <= i < |init| && init[i].kind.IsTrigger())
  {
    var nodes := init + [last];
    assert nodes[|init|] == last && forall i :: 0 <= i < |init| ==> nodes[i] == init[i];
    if i, j :| 0 <= i < j < |init| && init[i].kind.IsTrigger() && init[j].kind.IsTrigger() {
      assert nodes[i].kind.IsTrigger() && nodes[j].kind.IsTrigger();
    }
    if i :| 0 <= i < |init| && init[i].kind.IsTrigger() && last.kind.IsTrigger() {
      assert nodes[i].kind.IsTrigger() && nodes[|init|].kind.IsTrigger();
    }
  }

  lemma {:induction false} ManyTriggersIff(nodes: seq<Node>)
    ensures |Triggers(nodes)| > 1 <==> TwoTriggers(nodes)
  {
    if nodes != [] {
      var init, last := nodes[..|nodes| - 1], nodes[|nodes| - 1];
      ManyTriggersIff(init);
      TriggersExact(init);
      TwoTriggersSnoc(init, last);
      assert nodes == init + [last];
      assert |Triggers(init)| > 0 <==> exists i :: 0 <= i < |init| && init[i].kind.IsTrigger() by {
        if |Triggers(init)| > 0 {
          assert Triggers(init)[0] in Triggers(init);
        }
      }
    }
  }

  method CheckTriggers(c: Config) returns (problems: seq<Problem>)
    ensures forall p :: p in problems <==> (p.MissingTrigger? || p.ManyTriggers? || p.WrongTrigger?) && IsProblem(c, p)
  {
    problems := [];
    var triggers := Triggers(c.nodes);
    TriggersExact(c.nodes);
    ManyTriggersIff(c.nodes);
    if |triggers| == 0 {
      assert forall n :: n in c.nodes && n.kind.IsTrigger() ==> n in triggers;
      problems := problems + [MissingTrigger];
    } else {
      assert triggers[0] in triggers;
      if |triggers| > 1 {
        problems := problems + [ManyTriggers];
      }
      if exists n :: n in triggers && !n.kind.TriggerEmail? {
        problems := problems + [WrongTrigger];
      }
    }
  }

  function IdSet(nodes: seq<Node>): set<NodeId> {
    set n | n in nodes :: n.id
  }

  method CheckEdges(c: Config) returns (problems: seq<Problem>)
    ensures forall p :: p in problems <==> (p.DanglingSource? || p.DanglingTarget?) && IsProblem(c, p)
  {
    var nodeIds := IdSet(c.nodes);
    problems := [];
    for i := 0 to |c.edges|
      invariant forall p :: p in problems ==> (p.DanglingSource? || p.DanglingTarget?) && IsProblem(c, p)
      invariant forall k :: 0 <= k < i && c.edges[k].source !in nodeIds ==>
                DanglingSource(c.edges[k].source) in problems
      invariant forall k :: 0 <= k < i && c.edges[k].target !in nodeIds ==>
                DanglingTarget(c.edges[k].target) in problems
    {
      var edge := c.edges[i];
      assert edge in c.edges;
      if edge.source !in nodeIds {
        problems := problems + [DanglingSource(edge.source)];
      }
      if edge.target !in nodeIds {
        problems := problems + [DanglingTarget(edge.target)];
      }
    }
  }

  function NodeProblems(c: Config, n: Node): seq<Problem> {
    if OutputsOf(n.kind).None? then []
    else
      (if n.kind.IsTrigger() && HasIncoming(c, n.id) then [TriggerHasIncoming(n.id)] else []) +
      (if !n.kind.IsTrigger() && !HasIncoming(c, n.id) then [NoIncoming(n.id)] else []) +
      (if !n.kind.ControlEnd? && !HasOutgoing(c, n.id) then [NoOutgoing(n.id)] else [])
  }

  method CheckNodes(c: Config) returns (problems: seq<Problem>)
    ensures forall p :: p in problems <==> (p.TriggerHasIncoming? || p.NoIncoming? || p.NoOutgoing?) && IsProblem(c, p)
  {
    problems := [];
    for i := 0 to |c.nodes|
      invariant forall p :: p in problems ==>
                  (p.TriggerHasIncoming? || p.NoIncoming? || p.NoOutgoing?) && IsProblem(c, p)
      invariant forall k, p :: 0 <= k < i && p in NodeProblems(c, c.nodes[k]) ==> p in problems
    {
      forall p | p in NodeProblems(c, c.nodes[i])
        ensures (p.TriggerHasIncoming? || p.NoIncoming? || p.NoOutgoing?) && IsProblem(c, p)
      {
      }
      problems := problems + NodeProblems(c, c.nodes[i]);
    }
    forall p: Problem | (p.TriggerHasIncoming? || p.NoIncoming? || p.NoOutgoing?) && IsProblem(c, p)
      ensures p in problems
    {
    }
  }

  lemma AddCycles(c: Config, problems: seq<Problem>, cycles: seq<seq<NodeId>>)
    requires DetectsExactly(c, cycles) && forall p :: p in problems <==> IsProblem(c, p)
    ensures ValidatesExactly(c, if |cycles| > 0 then problems + [Cycles(cycles)] else problems)
  {
    var all := problems + [Cycles(cycles)];
    assert Cycles(cycles) in all;
    forall p
      ensures p in all <==> p in problems || p == Cycles(cycles)
    {
    }
  }

  method ValidateWorkflow(c: Config) returns (problems: seq<Problem>)
    ensures ValidatesExactly(c, problems)
  {
    var triggers := CheckTriggers(c);
    var edges := CheckEdges(c);
    var nodes := CheckNodes(c);
    problems := triggers + edges + nodes;
    var cycles := DetectCycles(c);
    AddCycles(c, problems, cycles);
    if |cycles| > 0 {
      problems := problems + [Cycles(cycles)];
    }
  }
}
