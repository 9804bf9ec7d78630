/** How often each node executes: once for every chosen-edge path that reaches it. */
module WorkflowPaths {
  import opened Sequences
  import opened Wrappers
  import opened WorkflowTypes
  import opened WorkflowGraph
  import opened CycleDetection
  import opened WorkflowRouting
  import opened WorkflowRun

  /** A path is the sequence of the indices of its edges, so parallel edges make different paths. */
  type EdgePath = seq<nat>

  /** Every start of a node gives the result `choice` fixes for it. */
  ghost predicate FixedResults(w: World, choice: NodeId -> NodeResult) {
    forall k: nat, id :: w.results(k, id) == choice(id)
  }

  /** Edge `i` is followed from its source node, with the result fixed for it. */
  predicate Chosen(c: Config, choice: NodeId -> NodeResult, i: nat) {
    i < |c.edges| &&
    var source := FindNode(c.nodes, c.edges[i].source);
    source.Some? && choice(source.value.id).Returned? &&
      Follows(c, source.value, choice(source.value.id).value, c.edges[i])
  }

  predicate IsChosenPath(c: Config, choice: NodeId -> NodeResult, from: NodeId, path: EdgePath)
    decreases |path|
  {
    path == [] || (Chosen(c, choice, path[0]) && c.edges[path[0]].source == from &&
      IsChosenPath(c, choice, c.edges[path[0]].target, path[1..]))
  }

  function End(c: Config, from: NodeId, path: EdgePath): NodeId {
    if path == [] then from
    else
      var last := path[|path| - 1];
      if last < |c.edges| then c.edges[last].target else from
  }

  function Ends(c: Config, from: NodeId, paths: seq<EdgePath>): (r: seq<NodeId>)
    ensures |r| == |paths|
  {
    seq(|paths|, i requires 0 <= i < |paths| => End(c, from, paths[i]))
  }

  /** The names among `ids` that are listed nodes. */
  function Listed(c: Config, ids: seq<NodeId>): seq<NodeId> {
    if ids == [] then []
    else Listed(c, ids[..|ids| - 1]) + if FindNode(c.nodes, ids[|ids| - 1]).Some? then [ids[|ids| - 1]] else []
  }

  lemma {:induction false} ListedConcat(c: Config, a: seq<NodeId>, b: seq<NodeId>)
    ensures Listed(c, a + b) == Listed(c, a) + Listed(c, b)
  {
    if b == [] {
      assert a + b == a;
    } else {
      var init := b[..|b| - 1];
      assert (a + b)[..|a + b| - 1] == a + init;
      ListedConcat(c, a, init);
    }
  }

  function RowIds(rows: seq<Row>): (r: seq<NodeId>)
    ensures |r| == |rows|
  {
    seq(|rows|, i requires 0 <= i < |rows| => rows[i].nodeId)
  }

  // ----- The edges a node selects, in order -----

  /** The indices of the edges from `id` that `selection` admits, in edge order. */
  function SelectedEdges(edges: seq<Edge>, id: NodeId, selection: Selection): seq<nat> {
    if edges == [] then []
    else
      var last := |edges| - 1;
      SelectedEdges(edges[..last], id, selection) +
      if edges[last].source == id && selection.Admits(edges[last]) then [last] else []
  }

  predicate InRange(c: Config, es: seq<nat>) {
    forall i :: 0 <= i < |es| ==> es[i] < |c.edges|
  }

  function Targets(c: Config, es: seq<nat>): (r: seq<NodeId>)
    requires InRange(c, es)
    ensures |r| == |es|
  {
    seq(|es|, i requires 0 <= i < |es| => c.edges[es[i]].target)
  }

  lemma {:induction false} SelectedEdgesExact(edges: seq<Edge>, id: NodeId, selection: Selection)
    ensures forall e: nat :: e in SelectedEdges(edges, id, selection) <==>
              e < |edges| && edges[e].source == id && selection.Admits(edges[e])
    ensures Ascending(SelectedEdges(edges, id, selection))
  {
    if edges != [] {
      var last := |edges| - 1;
      SelectedEdgesExact(edges[..last], id, selection);
      var init := SelectedEdges(edges[..last], id, selection);
      forall e | e in init
        ensures e < last
      {
      }
      assert forall i :: 0 <= i < |init| ==> init[i] in init;
    }
  }

  lemma SelectedInRange(edges: seq<Edge>, id: NodeId, selection: Selection)
    ensures var es := SelectedEdges(edges, id, selection); forall i :: 0 <= i < |es| ==> es[i] < |edges|
  {
    SelectedEdgesExact(edges, id, selection);
    var es := SelectedEdges(edges, id, selection);
    forall i | 0 <= i < |es|
      ensures es[i] < |edges|
    {
      assert es[i] in es;
    }
  }

  lemma {:induction false} NextNodesAreTargets(c: Config, n: nat, id: NodeId, selection: Selection)
    requires n <= |c.edges| && !selection.NoEdge? && (selection.WithHandle? ==> selection.handle.Some?)
    ensures InRange(c, SelectedEdges(c.edges[..n], id, selection))
    ensures NextNodes(id, c.edges[..n], if selection.AnyEdge? then None else selection.handle)
         == Targets(c, SelectedEdges(c.edges[..n], id, selection))
  {
    SelectedInRange(c.edges[..n], id, selection);
    if n > 0 {
      assert c.edges[..n][..n - 1] == c.edges[..n - 1];
      NextNodesAreTargets(c, n - 1, id, selection);
    }
  }

  lemma {:induction false} NoEdgeSelected(edges: seq<Edge>, id: NodeId)
    ensures SelectedEdges(edges, id, NoEdge) == []
  {
    if edges != [] {
      NoEdgeSelected(edges[..|edges| - 1], id);
    }
  }

  /** The chosen edges out of `id`: none when it is not listed or does not return. */
  function ChosenEdges(c: Config, choice: NodeId -> NodeResult, id: NodeId): seq<nat> {
    var node := FindNode(c.nodes, id);
    if node.Some? && choice(id).Returned? then SelectedEdges(c.edges, id, Route(c, node.value, choice(id).value))
    else []
  }

  lemma ChosenEdgesExact(c: Config, choice: NodeId -> NodeResult, id: NodeId)
    ensures forall e: nat :: e in ChosenEdges(c, choice, id) <==> Chosen(c, choice, e) && c.edges[e].source == id
    ensures Ascending(ChosenEdges(c, choice, id)) && InRange(c, ChosenEdges(c, choice, id))
  {
    var node := FindNode(c.nodes, id);
    if node.Some? && choice(id).Returned? {
      var selection := Route(c, node.value, choice(id).value);
      SelectedEdgesExact(c.edges, id, selection);
      SelectedInRange(c.edges, id, selection);
      assert ChosenEdges(c, choice, id) == SelectedEdges(c.edges, id, selection);
      forall e: nat
        ensures e in ChosenEdges(c, choice, id) <==> Chosen(c, choice, e) && c.edges[e].source == id
      {
        assert e in ChosenEdges(c, choice, id) <==>
                 e < |c.edges| && c.edges[e].source == id && selection.Admits(c.edges[e]);
        if e < |c.edges| && c.edges[e].source == id {
          AdmitsIffFollows(c, node.value, choice(id).value, c.edges[e]);
        }
      }
    }
  }

  lemma RouteTakesChosenEdges(c: Config, choice: NodeId -> NodeResult, node: Node)
    requires FindNode(c.nodes, node.id) == Some(node) && choice(node.id).Returned?
    ensures InRange(c, ChosenEdges(c, choice, node.id))
    ensures RouteTargets(c, node, choice(node.id).value) == Targets(c, ChosenEdges(c, choice, node.id))
  {
    var selection := Route(c, node, choice(node.id).value);
    assert c.edges[..|c.edges|] == c.edges;
    if selection.NoEdge? {
      NoEdgeSelected(c.edges, node.id);
    } else {
      NextNodesAreTargets(c, |c.edges|, node.id, selection);
    }
  }

  // ----- All chosen paths, in the order the interpreter walks them -----

  ghost predicate Trail(c: Config, trail: seq<NodeId>, id: NodeId) {
    IsRootedWalk(c, trail + [id])
  }

  lemma TrailFits(c: Config, trail: seq<NodeId>, id: NodeId)
    requires Trail(c, trail, id) && !HasLasso(c)
    ensures |trail| < |Vertices(c)|
  {
    WalkIsInjective(c, trail + [id]);
    SubsetSize(Elements(trail + [id]), Vertices(c));
  }

  /** The edges `es` all leave the last node of `trail`. */
  ghost predicate Ready(c: Config, trail: seq<NodeId>, es: seq<nat>) {
    InRange(c, es) && forall i :: 0 <= i < |es| ==> Trail(c, trail, c.edges[es[i]].target)
  }

  lemma TrailExtends(c: Config, choice: NodeId -> NodeResult, trail: seq<NodeId>, id: NodeId)
    requires Trail(c, trail, id)
    ensures Ready(c, trail + [id], ChosenEdges(c, choice, id))
  {
    ChosenEdgesExact(c, choice, id);
    var es := ChosenEdges(c, choice, id);
    forall i | 0 <= i < |es|
      ensures Trail(c, trail + [id], c.edges[es[i]].target)
    {
      var e := es[i];
      assert e in es;
      assert c.edges[e] in c.edges && HasEdge(c, id, c.edges[e].target);
      ExtendWalk(c, trail + [id], c.edges[e].target);
    }
  }

  function Prefixed(e: nat, paths: seq<EdgePath>): (r: seq<EdgePath>)
    ensures |r| == |paths|
  {
    seq(|paths|, i requires 0 <= i < |paths| => [e] + paths[i])
  }

  ghost function Room(c: Config, trail: seq<NodeId>): nat {
    if |trail| > |Vertices(c)| then 0 else |Vertices(c)| - |trail|
  }

  ghost function PathsFrom(c: Config, choice: NodeId -> NodeResult, trail: seq<NodeId>, id: NodeId): seq<EdgePath>
    requires Trail(c, trail, id) && !HasLasso(c)
    decreases Room(c, trail), 0, 0
  {
    TrailFits(c, trail, id);
    TrailExtends(c, choice, trail, id);
    [[]] + PathsVia(c, choice, trail + [id], ChosenEdges(c, choice, id))
  }

  ghost function PathsVia(c: Config, choice: NodeId -> NodeResult, trail: seq<NodeId>, es: seq<nat>): seq<EdgePath>
    requires Ready(c, trail, es)
    requires !HasLasso(c)
    decreases Room(c, trail), 1, |es|
  {
    if es == [] then []
    else Prefixed(es[0], PathsFrom(c, choice, trail, c.edges[es[0]].target)) + PathsVia(c, choice, trail, es[1..])
  }

  // ----- The enumeration is complete and free of repetition -----

  lemma {:induction false} FromComplete(c: Config, choice: NodeId -> NodeResult, trail: seq<NodeId>, id: NodeId,
          p: EdgePath)
    requires Trail(c, trail, id) && !HasLasso(c)
    ensures p in PathsFrom(c, choice, trail, id) <==> IsChosenPath(c, choice, id, p)
    decreases Room(c, trail), 0, 0
  {
    TrailFits(c, trail, id);
    TrailExtends(c, choice, trail, id);
    ChosenEdgesExact(c, choice, id);
    ViaComplete(c, choice, trail + [id], ChosenEdges(c, choice, id), p);
  }

  lemma {:induction false} ViaComplete(c: Config, choice: NodeId -> NodeResult, trail: seq<NodeId>, es: seq<nat>,
          p: EdgePath)
    requires Ready(c, trail, es)
    requires !HasLasso(c)
    ensures p in PathsVia(c, choice, trail, es) <==>
            p != [] && p[0] in es && p[0] < |c.edges| && IsChosenPath(c, choice, c.edges[p[0]].target, p[1..])
    decreases Room(c, trail), 1, |es|
  {
    if es != [] {
      var target := c.edges[es[0]].target;
      var ps := PathsFrom(c, choice, trail, target);
      PrefixedExact(es[0], ps, p);
      if p != [] {
        FromComplete(c, choice, trail, target, p[1..]);
      }
      ViaComplete(c, choice, trail, es[1..], p);
    }
  }

  lemma PrefixedExact(e: nat, ps: seq<EdgePath>, p: EdgePath)
    ensures p in Prefixed(e, ps) <==> p != [] && p[0] == e && p[1..] in ps
  {
    if p != [] && p[0] == e && p[1..] in ps {
      var i :| 0 <= i < |ps| && ps[i] == p[1..];
      assert Prefixed(e, ps)[i] == p;
    }
    if p in Prefixed(e, ps) {
      var i :| 0 <= i < |ps| && Prefixed(e, ps)[i] == p;
      assert p[1..] == ps[i];
    }
  }

  lemma {:induction false} FromDistinct(c: Config, choice: NodeId -> NodeResult, trail: seq<NodeId>, id: NodeId)
    requires Trail(c, trail, id) && !HasLasso(c)
    ensures Distinct(PathsFrom(c, choice, trail, id))
    decreases Room(c, trail), 0, 0
  {
    TrailFits(c, trail, id);
    TrailExtends(c, choice, trail, id);
    ChosenEdgesExact(c, choice, id);
    var es := ChosenEdges(c, choice, id);
    ViaDistinct(c, choice, trail + [id], es);
    ViaComplete(c, choice, trail + [id], es, []);
    DistinctConcat([[]], PathsVia(c, choice, trail + [id], es));
  }

  lemma {:induction false} ViaDistinct(c: Config, choice: NodeId -> NodeResult, trail: seq<NodeId>, es: seq<nat>)
    requires Ready(c, trail, es)
    requires !HasLasso(c) && Ascending(es)
    ensures Distinct(PathsVia(c, choice, trail, es))
    decreases Room(c, trail), 1, |es|
  {
    if es != [] {
      var ps := PathsFrom(c, choice, trail, c.edges[es[0]].target);
      var first, rest := Prefixed(es[0], ps), PathsVia(c, choice, trail, es[1..]);
      FromDistinct(c, choice, trail, c.edges[es[0]].target);
      PrefixedDistinct(es[0], ps);
      ViaDistinct(c, choice, trail, es[1..]);
      forall p | p in first
        ensures p !in rest
      {
        PrefixedExact(es[0], ps, p);
        ViaComplete(c, choice, trail, es[1..], p);
      }
      DistinctConcat(first, rest);
    }
  }

  lemma PrefixedDistinct(e: nat, ps: seq<EdgePath>)
    requires Distinct(ps)
    ensures Distinct(Prefixed(e, ps))
  {
    var qs := Prefixed(e, ps);
    forall i, j | 0 <= i < j < |qs|
      ensures qs[i] != qs[j]
    {
      assert qs[i][1..] == ps[i] && qs[j][1..] == ps[j];
    }
  }

  lemma DistinctConcat(a: seq<EdgePath>, b: seq<EdgePath>)
    requires Distinct(a) && Distinct(b) && forall p :: p in a ==> p !in b
    ensures Distinct(a + b)
  {
    forall i, j | 0 <= i < j < |a + b|
      ensures (a + b)[i] != (a + b)[j]
    {
      if i < |a| <= j {
        assert a[i] in a && b[j - |a|] in b;
      }
    }
  }

  // ----- The run walks that enumeration -----

  lemma PrefixedEnds(c: Config, from: NodeId, e: nat, ps: seq<EdgePath>)
    requires e < |c.edges|
    requires forall p, k :: p in ps && 0 <= k < |p| ==> p[k] < |c.edges|
    ensures Ends(c, from, Prefixed(e, ps)) == Ends(c, c.edges[e].target, ps)
  {
    var qs := Prefixed(e, ps);
    forall i | 0 <= i < |ps|
      ensures End(c, from, qs[i]) == End(c, c.edges[e].target, ps[i])
    {
      if ps[i] != [] {
        assert ps[i] in ps && ps[i][|ps[i]| - 1] < |c.edges|;
      }
    }
  }

  lemma {:induction false} ChosenPathInRange(c: Config, choice: NodeId -> NodeResult, from: NodeId, p: EdgePath)
    requires IsChosenPath(c, choice, from, p)
    ensures forall k :: 0 <= k < |p| ==> p[k] < |c.edges|
    decreases |p|
  {
    if p != [] {
      ChosenPathInRange(c, choice, c.edges[p[0]].target, p[1..]);
      forall k | 0 <= k < |p|
        ensures p[k] < |c.edges|
      {
        if k > 0 {
          assert p[k] == p[1..][k - 1];
        }
      }
    }
  }

  lemma FromInRange(c: Config, choice: NodeId -> NodeResult, trail: seq<NodeId>, id: NodeId)
    requires Trail(c, trail, id) && !HasLasso(c)
    ensures forall p, k :: p in PathsFrom(c, choice, trail, id) && 0 <= k < |p| ==> p[k] < |c.edges|
  {
    forall p | p in PathsFrom(c, choice, trail, id)
      ensures forall k :: 0 <= k < |p| ==> p[k] < |c.edges|
    {
      FromComplete(c, choice, trail, id, p);
      ChosenPathInRange(c, choice, id, p);
    }
  }

  /** The call made `|paths|` entries, and started the listed nodes at the paths' ends, in order. */
  ghost predicate Walks(c: Config, from: NodeId, paths: seq<EdgePath>, st: State, r: Run) {
    Visits(st, r, |paths|, Listed(c, Ends(c, from, paths)))
  }

  /** From `st` to the end of `r`: `entries` entries, and the nodes `ids` started. */
  ghost predicate Visits(st: State, r: Run, entries: nat, ids: seq<NodeId>) {
    r.st.steps == st.steps + entries && RowIds(r.st.rows) == RowIds(st.rows) + ids
  }

  lemma VisitsConcat(st: State, r1: Run, r2: Run, n1: nat, n2: nat, ids1: seq<NodeId>, ids2: seq<NodeId>)
    requires Visits(st, r1, n1, ids1) && Visits(r1.st, r2, n2, ids2)
    ensures Visits(st, r2, n1 + n2, ids1 + ids2)
  {
    assert RowIds(st.rows) + ids1 + ids2 == RowIds(st.rows) + (ids1 + ids2);
  }

  ghost predicate Undisturbed(r: Run) {
    r.outcome.Done? && !r.st.aborted
  }

  lemma EndsCons(c: Config, from: NodeId, paths: seq<EdgePath>)
    ensures Ends(c, from, [[]] + paths) == [from] + Ends(c, from, paths)
  {
  }

  lemma EndsConcat(c: Config, from: NodeId, a: seq<EdgePath>, b: seq<EdgePath>)
    ensures Ends(c, from, a + b) == Ends(c, from, a) + Ends(c, from, b)
  {
  }

  /** The empty path ends where it starts. */
  lemma FirstIsEmpty(c: Config, id: NodeId, via: seq<EdgePath>)
    ensures Listed(c, Ends(c, id, [[]] + via)) ==
            (if FindNode(c.nodes, id).Some? then [id] else []) + Listed(c, Ends(c, id, via))
  {
    EndsCons(c, id, via);
    ListedConcat(c, [id], Ends(c, id, via));
    assert Listed(c, [id]) == Listed(c, []) + if FindNode(c.nodes, id).Some? then [id] else [];
  }

  /** The paths through the first edge come first. */
  lemma ViaEnds(c: Config, choice: NodeId -> NodeResult, trail: seq<NodeId>, from: NodeId, es: seq<nat>)
    requires Ready(c, trail, es) && !HasLasso(c) && es != []
    ensures var ps, rest := PathsFrom(c, choice, trail, c.edges[es[0]].target), PathsVia(c, choice, trail, es[1..]);
            && |PathsVia(c, choice, trail, es)| == |ps| + |rest|
            && Listed(c, Ends(c, from, PathsVia(c, choice, trail, es)))
            == Listed(c, Ends(c, c.edges[es[0]].target, ps)) + Listed(c, Ends(c, from, rest))
  {
    var target := c.edges[es[0]].target;
    var ps, rest := PathsFrom(c, choice, trail, target), PathsVia(c, choice, trail, es[1..]);
    FromInRange(c, choice, trail, target);
    PrefixedEnds(c, from, es[0], ps);
    EndsConcat(c, from, Prefixed(es[0], ps), rest);
    ListedConcat(c, Ends(c, target, ps), Ends(c, from, rest));
  }

  lemma {:induction false} NodeWalks(c: Config, w: World, choice: NodeId -> NodeResult, caps: Caps, stack: seq<Frame>,
          id: NodeId, st: State)
    requires Callable(c, stack, id) && !HasLasso(c) && FixedResults(w, choice)
    requires Undisturbed(RunNode(c, w, caps, stack, id, st))
    ensures Trail(c, Ids(stack), id)
    ensures Walks(c, id, PathsFrom(c, choice, Ids(stack), id), st, RunNode(c, w, caps, stack, id, st))
    decreases Room(c, Ids(stack)), 0, 0
  {
    var trail := Ids(stack);
    TrailFits(c, trail, id);
    TrailExtends(c, choice, trail, id);
    FirstIsEmpty(c, id, PathsVia(c, choice, trail + [id], ChosenEdges(c, choice, id)));
    UndisturbedEntry(c, w, caps, stack, id, st);
    var node := FindNode(c.nodes, id);
    if node.Some? {
      FoundWalks(c, w, choice, caps, stack, node.value, st.(steps := st.steps + 1));
    }
  }

  lemma UndisturbedEntry(c: Config, w: World, caps: Caps, stack: seq<Frame>, id: NodeId, st: State)
    requires Callable(c, stack, id) && !HasLasso(c)
    requires Undisturbed(RunNode(c, w, caps, stack, id, st))
    ensures match FindNode(c.nodes, id)
            case None => Visits(st, RunNode(c, w, caps, stack, id, st), 1, [])
            case Some(node) =>
                RunNode(c, w, caps, stack, id, st) == RunFound(c, w, caps, stack, node, st.(steps := st.steps + 1))
  {
  }

  lemma {:induction false} FoundWalks(c: Config, w: World, choice: NodeId -> NodeResult, caps: Caps, stack: seq<Frame>,
          node: Node, st: State)
    requires Callable(c, stack, node.id) && !HasLasso(c) && FixedResults(w, choice)
    requires FindNode(c.nodes, node.id) == Some(node)
    requires Undisturbed(RunFound(c, w, caps, stack, node, st))
    ensures Ready(c, Ids(stack) + [node.id], ChosenEdges(c, choice, node.id))
    ensures var via := PathsVia(c, choice, Ids(stack) + [node.id], ChosenEdges(c, choice, node.id));
            Visits(st, RunFound(c, w, caps, stack, node, st), |via|, [node.id] + Listed(c, Ends(c, node.id, via)))
    decreases Room(c, Ids(stack) + [node.id]), 2, 0
  {
    var row, frame := |st.rows|, Frame(node.id, |st.rows|);
    TrailExtends(c, choice, Ids(stack), node.id);
    assert w.results(row, node.id) == choice(node.id);
    var value := choice(node.id).value;
    var completed := Mark(Start(st, node), row, Success);
    assert Visits(st, Run(completed, Done), 0, [node.id]) by {
      assert RowIds(completed.rows) == RowIds(st.rows) + [node.id];
    }
    RouteCallable(c, stack, frame, node, value);
    RouteTakesChosenEdges(c, choice, node);
    assert Ids(stack + [frame]) == Ids(stack) + [node.id];
    var es := ChosenEdges(c, choice, node.id);
    ListWalks(c, w, choice, caps, stack + [frame], node.id, es, Targets(c, es), completed);
    var via := PathsVia(c, choice, Ids(stack) + [node.id], es);
    VisitsConcat(st, Run(completed, Done), RunFound(c, w, caps, stack, node, st), 0, |via|,
                 [node.id], Listed(c, Ends(c, node.id, via)));
  }

  lemma {:induction false} ListWalks(c: Config, w: World, choice: NodeId -> NodeResult, caps: Caps, stack: seq<Frame>,
          from: NodeId, es: seq<nat>, ids: seq<NodeId>, st: State)
    requires Ready(c, Ids(stack), es) && ids == Targets(c, es)
    requires AllCallable(c, stack, ids) && !HasLasso(c) && FixedResults(w, choice)
    requires Undisturbed(RunList(c, w, caps, stack, ids, st))
    ensures Walks(c, from, PathsVia(c, choice, Ids(stack), es), st, RunList(c, w, caps, stack, ids, st))
    decreases Room(c, Ids(stack)), 1, |es|
  {
    if es == [] {
      assert Ends(c, from, []) == [];
    } else {
      var r := RunNode(c, w, caps, stack, ids[0], st);
      if r.st.aborted {
        StaysAborted(c, w, caps, stack, ids[1..], r.st);
      }
      var r' := RunList(c, w, caps, stack, ids[1..], r.st);
      NodeWalks(c, w, choice, caps, stack, ids[0], st);
      ListWalks(c, w, choice, caps, stack, from, es[1..], ids[1..], r.st);
      var ps, rest := PathsFrom(c, choice, Ids(stack), ids[0]), PathsVia(c, choice, Ids(stack), es[1..]);
      VisitsConcat(st, r, r', |ps|, |rest|, Listed(c, Ends(c, ids[0], ps)), Listed(c, Ends(c, from, rest)));
      ViaEnds(c, choice, Ids(stack), from, es);
    }
  }

  /** An aborted engine stays aborted. */
  lemma {:induction false} StaysAborted(c: Config, w: World, caps: Caps, stack: seq<Frame>, ids: seq<NodeId>, st: State)
    requires AllCallable(c, stack, ids) && (caps.Unlimited? ==> !HasLasso(c)) && st.aborted
    ensures RunList(c, w, caps, stack, ids, st).st.aborted
    decreases |ids|
  {
    if ids != [] {
      StaysAborted(c, w, caps, stack, ids[1..], st);
    }
  }

  // ----- The counts -----

  function Count(ids: seq<NodeId>, v: NodeId): nat {
    if ids == [] then 0 else Count(ids[..|ids| - 1], v) + if ids[|ids| - 1] == v then 1 else 0
  }

  lemma {:induction false} CountListed(c: Config, ids: seq<NodeId>, v: NodeId)
    requires FindNode(c.nodes, v).Some?
    ensures Count(Listed(c, ids), v) == Count(ids, v)
  {
    if ids != [] {
      var init, last := ids[..|ids| - 1], ids[|ids| - 1];
      CountListed(c, init, v);
      if FindNode(c.nodes, last).Some? {
        assert (Listed(c, init) + [last])[..|Listed(c, init)|] == Listed(c, init);
      } else {
        assert Listed(c, ids) == Listed(c, init);
      }
    }
  }

  /** The paths among `paths` that end in `v`. */
  ghost function EndingIn(c: Config, from: NodeId, paths: seq<EdgePath>, v: NodeId): set<EdgePath> {
    set p | p in paths && End(c, from, p) == v
  }

  lemma EndingInSnoc(c: Config, from: NodeId, init: seq<EdgePath>, last: EdgePath, v: NodeId)
    requires last !in init
    ensures |EndingIn(c, from, init + [last], v)| ==
            |EndingIn(c, from, init, v)| + if End(c, from, last) == v then 1 else 0
  {
    if End(c, from, last) == v {
      assert EndingIn(c, from, init + [last], v) == EndingIn(c, from, init, v) + {last};
    } else {
      assert EndingIn(c, from, init + [last], v) == EndingIn(c, from, init, v);
    }
  }

  lemma {:induction false} CountEnds(c: Config, from: NodeId, paths: seq<EdgePath>, v: NodeId)
    requires Distinct(paths)
    ensures Count(Ends(c, from, paths), v) == |EndingIn(c, from, paths, v)|
  {
    if paths != [] {
      var init, last := paths[..|paths| - 1], paths[|paths| - 1];
      assert paths == init + [last];
      assert Ends(c, from, paths) == Ends(c, from, init) + [End(c, from, last)];
      CountEnds(c, from, init, v);
      EndingInSnoc(c, from, init, last, v);
    }
  }

  /** On a configuration the cycle detector accepts, with one fixed result per node, a run that
      neither throws nor reaches an end node makes one entry for every chosen-edge path from the
      trigger, and executes each listed node once for every such path that ends in it. `paths`
      lists all these paths, each once. */
  lemma ExecutionsArePaths(c: Config, w: World, choice: NodeId -> NodeResult, caps: Caps)
    returns (paths: seq<EdgePath>)
    requires !HasLasso(c) && FixedResults(w, choice) && Undisturbed(Execute(c, w, caps))
    ensures FindTrigger(c.nodes).Some? && Distinct(paths)
    ensures forall p :: p in paths <==> IsChosenPath(c, choice, FindTrigger(c.nodes).value.id, p)
    ensures Execute(c, w, caps).st.steps == |paths|
    ensures RowIds(Execute(c, w, caps).st.rows) == Listed(c, Ends(c, FindTrigger(c.nodes).value.id, paths))
    ensures forall v :: FindNode(c.nodes, v).Some? ==>
              Count(RowIds(Execute(c, w, caps).st.rows), v) == |EndingIn(c, FindTrigger(c.nodes).value.id, paths, v)|
  {
    var trigger := FindTrigger(c.nodes).value;
    TriggerCallable(c, trigger);
    assert Ids([]) == [];
    NodeWalks(c, w, choice, caps, [], trigger.id, INITIAL);
    paths := PathsFrom(c, choice, [], trigger.id);
    FromDistinct(c, choice, [], trigger.id);
    forall p
      ensures p in paths <==> IsChosenPath(c, choice, trigger.id, p)
    {
      FromComplete(c, choice, [], trigger.id, p);
    }
    assert RowIds([]) == [];
    forall v | FindNode(c.nodes, v).Some?
      ensures Count(Listed(c, Ends(c, trigger.id, paths)), v) == |EndingIn(c, trigger.id, paths, v)|
    {
      CountListed(c, Ends(c, trigger.id, paths), v);
      CountEnds(c, trigger.id, paths, v);
    }
  }
}
