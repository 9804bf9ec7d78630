/** Depth-first cycle detection over a workflow configuration. */
module CycleDetection {
  import opened Sequences
  import opened Wrappers
  import opened WorkflowTypes
  import opened WorkflowGraph

  /** What the detector promises: it reports something exactly when some listed node starts a
      lasso, and the first report is such a lasso. */
  ghost predicate DetectsExactly(c: Config, reports: seq<seq<NodeId>>) {
    && (reports != [] <==> HasLasso(c))
    && (reports != [] ==> IsLasso(c, reports[0]))
  }

  ghost predicate IsRootedWalk(c: Config, path: seq<NodeId>) {
    IsWalk(c, path) && path[0] in NodeIds(c)
  }

  lemma RootedWalkEnd(c: Config, path: seq<NodeId>)
    requires IsRootedWalk(c, path)
    ensures path[|path| - 1] in Vertices(c)
  {
    WalkStaysInVertices(c, path, |path| - 1);
  }

  lemma ExtendRootedWalk(c: Config, path: seq<NodeId>, v: NodeId)
    requires IsRootedWalk(c, path) && v in NextNodes(path[|path| - 1], c.edges, None)
    ensures IsRootedWalk(c, path + [v])
    ensures Elements(path + [v]) == Elements(path) + {v}
    ensures v in Elements(path) ==> IsLasso(c, path + [v])
  {
    HasEdgeIsNext(c, path[|path| - 1], v);
    ExtendWalk(c, path, v);
    assert (path + [v])[..|path|] == path;
  }

  function Neighbors(adjacency: map<NodeId, seq<NodeId>>, id: NodeId): seq<NodeId> {
    if id in adjacency then adjacency[id] else []
  }

  ghost predicate AdjacencyFits(adjacency: map<NodeId, seq<NodeId>>, edges: seq<Edge>) {
    forall id :: Neighbors(adjacency, id) == NextNodes(id, edges, None)
  }

  lemma NextOfOneMore(edges: seq<Edge>, i: nat, id: NodeId)
    requires i < |edges|
    ensures NextNodes(id, edges[..i + 1], None) ==
            if edges[i].source == id then NextNodes(id, edges[..i], None) + [edges[i].target]
            else NextNodes(id, edges[..i], None)
  {
    var more := edges[..i + 1];
    assert more[..|more| - 1] == edges[..i] && more[|more| - 1] == edges[i];
    assert NextNodes(id, edges[..i], None) + [] == NextNodes(id, edges[..i], None);
  }

  lemma OneMoreEdge(adjacency: map<NodeId, seq<NodeId>>, edges: seq<Edge>, i: nat)
    requires i < |edges| && AdjacencyFits(adjacency, edges[..i])
    ensures AdjacencyFits(adjacency[edges[i].source := Neighbors(adjacency, edges[i].source) + [edges[i].target]],
            edges[..i + 1])
  {
    var adjacency' := adjacency[edges[i].source := Neighbors(adjacency, edges[i].source) + [edges[i].target]];
    forall id
      ensures Neighbors(adjacency', id) == NextNodes(id, edges[..i + 1], None)
    {
      NextOfOneMore(edges, i, id);
      assert Neighbors(adjacency, id) == NextNodes(id, edges[..i], None);
    }
  }

  method BuildAdjacency(edges: seq<Edge>) returns (adjacency: map<NodeId, seq<NodeId>>)
    ensures AdjacencyFits(adjacency, edges)
  {
    adjacency := map[];
    for i := 0 to |edges|
      invariant AdjacencyFits(adjacency, edges[..i])
    {
      var edge := edges[i];
      OneMoreEdge(adjacency, edges, i);
      if edge.source !in adjacency {
        adjacency := adjacency[edge.source := []];
      }
      adjacency := adjacency[edge.source := adjacency[edge.source] + [edge.target]];
    }
    assert edges[..|edges|] == edges;
  }

  // ----- The reports -----

  /** A report without the name that closes it. */
  function Body(report: seq<NodeId>): seq<NodeId>
    requires report != []
  {
    report[..|report| - 1]
  }

  /** The names on the bodies of the reports. */
  ghost function Bodies(reports: seq<seq<NodeId>>): set<NodeId> {
    if reports == [] then {}
    else
      var last := reports[|reports| - 1];
      Bodies(reports[..|reports| - 1]) + if last == [] then {} else Elements(Body(last))
  }

  /** A report is a walk from a listed node. Its body avoids the bodies of the earlier reports, and the
      name that closes it lies on its own body or on one of those. */
  ghost predicate ReportFits(c: Config, earlier: seq<seq<NodeId>>, report: seq<NodeId>) {
    && IsRootedWalk(c, report) && |report| >= 2
    && Elements(Body(report)) !! Bodies(earlier)
    && report[|report| - 1] in Elements(Body(report)) + Bodies(earlier)
  }

  ghost predicate ReportsFit(c: Config, reports: seq<seq<NodeId>>) {
    reports == [] || (ReportsFit(c, reports[..|reports| - 1]) &&
      ReportFits(c, reports[..|reports| - 1], reports[|reports| - 1]))
  }

  lemma {:induction false} EachReportFits(c: Config, reports: seq<seq<NodeId>>, k: nat)
    requires ReportsFit(c, reports) && k < |reports|
    ensures ReportFits(c, reports[..k], reports[k]) && ReportsFit(c, reports[..k])
  {
    if k < |reports| - 1 {
      EachReportFits(c, reports[..|reports| - 1], k);
      assert reports[..|reports| - 1][..k] == reports[..k];
    }
  }

  /** A report closes on itself exactly when no earlier report has been through the name it ends in. */
  lemma ReportIsLassoIff(c: Config, reports: seq<seq<NodeId>>, k: nat)
    requires ReportsFit(c, reports) && k < |reports|
    ensures IsRootedWalk(c, reports[k])
    ensures IsLasso(c, reports[k]) <==> reports[k][|reports[k]| - 1] !in Bodies(reports[..k])
  {
    EachReportFits(c, reports, k);
  }

  lemma {:induction false} OnSomeBody(reports: seq<seq<NodeId>>, v: NodeId) returns (j: nat)
    requires v in Bodies(reports)
    ensures j < |reports| && reports[j] != [] && v in Body(reports[j])
  {
    var n := |reports| - 1;
    if reports[n] != [] && v in Body(reports[n]) {
      j := n;
    } else {
      j := OnSomeBody(reports[..n], v);
    }
  }

  /** From every name on a report's body a walk leads into a lasso: when the report ends on an earlier
      one, it goes on from there. */
  lemma {:induction false} ReportLeadsToLasso(c: Config, reports: seq<seq<NodeId>>, k: nat, i: nat)
    returns (w: seq<NodeId>)
    requires ReportsFit(c, reports) && k < |reports| && i < |reports[k]| - 1
    ensures IsWalk(c, w) && w[0] == reports[k][i] && w[|w| - 1] in w[..|w| - 1]
    decreases k
  {
    EachReportFits(c, reports, k);
    var r := reports[k];
    var last := r[|r| - 1];
    if last in Bodies(reports[..k]) {
      var j := OnSomeBody(reports[..k], last);
      var m :| 0 <= m < |reports[j]| - 1 && reports[j][m] == last;
      var rest := ReportLeadsToLasso(c, reports, j, m);
      SubWalk(c, r, i, |r| - 1);
      w := JoinWalks(c, r[i..|r| - 1], rest, r);
    } else {
      var m :| 0 <= m < |r| - 1 && r[m] == last;
      w := CloseWalk(c, r, i, m);
    }
  }

  /** A walk that goes on from the name its last edge leads to. */
  lemma JoinWalks(c: Config, a: seq<NodeId>, rest: seq<NodeId>, r: seq<NodeId>) returns (w: seq<NodeId>)
    requires IsWalk(c, a) && IsWalk(c, rest) && IsWalk(c, r) && |r| >= 2
    requires a[|a| - 1] == r[|r| - 2] && rest[0] == r[|r| - 1] && rest[|rest| - 1] in rest[..|rest| - 1]
    ensures IsWalk(c, w) && w[0] == a[0] && w[|w| - 1] in w[..|w| - 1]
  {
    w := a + rest;
    assert HasEdge(c, r[|r| - 2], r[|r| - 2 + 1]);
    forall i | 0 <= i < |w| - 1
      ensures HasEdge(c, w[i], w[i + 1])
    {
      if i < |a| - 1 {
        assert HasEdge(c, a[i], a[i + 1]);
      } else if i >= |a| {
        assert HasEdge(c, rest[i - |a|], rest[i - |a| + 1]);
      }
    }
    assert w[..|w| - 1] == a + rest[..|rest| - 1];
  }

  /** From position `i` of a walk that ends where it was at position `m`, once more around. */
  lemma CloseWalk(c: Config, r: seq<NodeId>, i: nat, m: nat) returns (w: seq<NodeId>)
    requires IsWalk(c, r) && i < |r| - 1 && m < |r| - 1 && r[m] == r[|r| - 1]
    ensures IsWalk(c, w) && w[0] == r[i] && w[|w| - 1] in w[..|w| - 1]
  {
    var last := |r| - 1;
    SubWalk(c, r, m, |r|);
    if i <= m {
      SubWalk(c, r, i, |r|);
      w := r[i..];
      assert w[m - i] == r[m] && w[m - i] in w[..|w| - 1];
    } else {
      SubWalk(c, r, i, |r|);
      w := JoinAround(c, r[i..], r[m..]);
    }
  }

  lemma JoinAround(c: Config, a: seq<NodeId>, loop: seq<NodeId>) returns (w: seq<NodeId>)
    requires IsWalk(c, a) && IsWalk(c, loop) && |loop| >= 2 && a[|a| - 1] == loop[0] == loop[|loop| - 1]
    ensures IsWalk(c, w) && w[0] == a[0] && w[|w| - 1] in w[..|w| - 1]
  {
    w := a + loop[1..];
    forall i | 0 <= i < |w| - 1
      ensures HasEdge(c, w[i], w[i + 1])
    {
      if i < |a| - 1 {
        assert HasEdge(c, a[i], a[i + 1]);
      } else {
        assert HasEdge(c, loop[i - |a| + 1], loop[i - |a| + 1 + 1]);
      }
    }
    assert w[|a| - 1] == w[|w| - 1] && w[|a| - 1] in w[..|w| - 1];
  }

  // ----- The traversal, as a function of its state -----

  datatype Trace = Trace(visited: set<NodeId>, stack: set<NodeId>, cycles: seq<seq<NodeId>>)

  ghost predicate AreVertices(c: Config, names: seq<NodeId>) {
    forall i :: 0 <= i < |names| ==> names[i] in Vertices(c)
  }

  lemma NextAreVertices(c: Config, id: NodeId)
    ensures AreVertices(c, NextNodes(id, c.edges, None))
  {
    var neighbors := NextNodes(id, c.edges, None);
    forall i | 0 <= i < |neighbors|
      ensures neighbors[i] in Vertices(c)
    {
      HasEdgeIsNext(c, id, neighbors[i]);
    }
  }

  /** A find adds one report, which goes on from `path`; without one the reports stay. */
  ghost predicate AddsReport(t: Trace, path: seq<NodeId>, t': Trace, found: bool) {
    if found then
      |t'.cycles| == |t.cycles| + 1 && t'.cycles[..|t.cycles|] == t.cycles && path <= t'.cycles[|t.cycles|]
    else t'.cycles == t.cycles
  }

  /** The call for the last name of `path`: what it leaves and whether it found something. */
  ghost function Explore(c: Config, path: seq<NodeId>, t: Trace): (r: (Trace, bool))
    requires path != [] && path[|path| - 1] in Vertices(c) - t.visited && t.visited <= Vertices(c)
    ensures t.visited + {path[|path| - 1]} <= r.0.visited <= Vertices(c) && AddsReport(t, path, r.0, r.1)
    decreases Vertices(c) - t.visited, 0, 0
  {
    var id := path[|path| - 1];
    NextAreVertices(c, id);
    var (t', found) := ExploreFrom(c, path, NextNodes(id, c.edges, None), 0,
      Trace(t.visited + {id}, t.stack + {id}, t.cycles));
    (if found then t' else t'.(stack := t'.stack - {id}), found)
  }

  /** The loop over the neighbours from number `k` on: it stops at the first find. */
  ghost function ExploreFrom(c: Config, path: seq<NodeId>, neighbors: seq<NodeId>, k: nat, t: Trace): (r: (Trace, bool))
    requires t.visited <= Vertices(c) && AreVertices(c, neighbors) && k <= |neighbors|
    ensures t.visited <= r.0.visited <= Vertices(c) && AddsReport(t, path, r.0, r.1)
    decreases Vertices(c) - t.visited, 2, |neighbors| - k
  {
    if k == |neighbors| then (t, false)
    else
      var (t', found) := ExploreEdge(c, path, neighbors[k], t);
      if found then (t', true) else ExploreFrom(c, path, neighbors, k + 1, t')
  }

  ghost function ExploreEdge(c: Config, path: seq<NodeId>, neighbor: NodeId, t: Trace): (r: (Trace, bool))
    requires t.visited <= Vertices(c) && neighbor in Vertices(c)
    ensures t.visited <= r.0.visited <= Vertices(c) && AddsReport(t, path, r.0, r.1)
    decreases Vertices(c) - t.visited, 1, 0
  {
    if neighbor !in t.visited then Explore(c, path + [neighbor], t)
    else if neighbor in t.stack then (t.(cycles := t.cycles + [path + [neighbor]]), true)
    else (t, false)
  }

  ghost function ExploreRoot(c: Config, id: NodeId, t: Trace): (r: Trace)
    requires id in NodeIds(c) && t.visited <= Vertices(c)
    ensures r.visited <= Vertices(c)
    ensures r.cycles == t.cycles || AddsReport(t, [id], r, true)
  {
    if id in t.visited then t else Explore(c, [id], t).0
  }

  /** The traversals from the first `i` listed nodes. */
  ghost function ExploreRoots(c: Config, i: nat): (t: Trace)
    requires i <= |c.nodes|
    ensures t.visited <= Vertices(c)
  {
    if i == 0 then Trace({}, {}, []) else ExploreRoot(c, c.nodes[i - 1].id, ExploreRoots(c, i - 1))
  }

  // ----- The traversal -----

  /** The state shared by the nested traversal calls. */
  class Detector {
    const config: Config
    const adjacency: map<NodeId, seq<NodeId>>
    var visited: set<NodeId>
    var recursionStack: set<NodeId>
    var cycles: seq<seq<NodeId>>
    /** Names whose traversal has returned without a report, numbered in the order they returned. */
    ghost var finished: map<NodeId, nat>
    ghost var returned: nat

    ghost function Snapshot(): Trace
      reads this
    {
      Trace(visited, recursionStack, cycles)
    }

    ghost predicate Valid()
      reads this
    {
      && AdjacencyFits(adjacency, config.edges)
      && recursionStack <= visited <= Vertices(config)
      && ReportsFit(config, cycles)
      && Clean()
    }

    /** Visited names are on the recursion stack or finished, and every successor of a finished name
        finished before it. */
    ghost predicate Clean()
      reads this
    {
      && visited == recursionStack + finished.Keys
      && recursionStack !! finished.Keys
      && Descending(config, finished)
      && forall v :: v in finished ==> finished[v] < returned
    }

    /** The recursion stack holds the names of the open path and those of the reports: a report leaves
        its whole body behind. */
    ghost predicate StackIs(open: set<NodeId>)
      reads this
    {
      recursionStack == open + Bodies(cycles) && open !! Bodies(cycles)
    }

    /** The traversal stands at the end of `path`. */
    ghost predicate Walking(path: seq<NodeId>)
      reads this
    {
      Valid() && IsRootedWalk(config, path) && StackIs(Elements(path))
    }

    /** What a call that has explored `names` leaves on the stack: the same names and no new report
        without a find, the bodies of all reports with one. */
    twostate predicate Explored(names: set<NodeId>, found: bool)
      reads this
    {
      && Valid() && old(visited) <= visited
      && (if found then cycles != [] && recursionStack == Bodies(cycles)
          else cycles == old(cycles) && recursionStack == old(recursionStack))
      && old(finished.Keys) <= finished.Keys && (!found ==> names <= finished.Keys)
    }

    constructor (config: Config, adjacency: map<NodeId, seq<NodeId>>)
      requires AdjacencyFits(adjacency, config.edges)
      ensures Valid() && this.config == config
      ensures visited == {} && recursionStack == {} && cycles == []
    {
      this.config, this.adjacency := config, adjacency;
      visited, recursionStack, cycles, finished, returned := {}, {}, [], map[], 0;
    }

    /** Opens `nodeId`: it is visited and on the recursion stack. */
    method Open(nodeId: NodeId)
      requires Valid() && nodeId in Vertices(config) && nodeId !in visited
      modifies `visited, `recursionStack
      ensures Valid() && visited == old(visited) + {nodeId} && recursionStack == old(recursionStack) + {nodeId}
    {
      visited := visited + {nodeId};
      recursionStack := recursionStack + {nodeId};
    }

    /** Reports the walk `path` closed by `neighbor`. */
    method Report(path: seq<NodeId>, neighbor: NodeId)
      requires Walking(path) && IsRootedWalk(config, path + [neighbor]) && neighbor in recursionStack
      modifies `cycles
      ensures Valid() && cycles == old(cycles) + [path + [neighbor]] && recursionStack == Bodies(cycles)
    {
      var report := path + [neighbor];
      assert Body(report) == path;
      ghost var reports := cycles + [report];
      assert reports[..|cycles|] == cycles;
      cycles := cycles + [report];
    }

    /** Closes `nodeId` once all its neighbours are finished. */
    method Close(nodeId: NodeId, neighbors: seq<NodeId>)
      requires Valid() && neighbors == NextNodes(nodeId, config.edges, None)
      requires nodeId in recursionStack && forall v :: v in neighbors ==> v in finished
      modifies `recursionStack, `finished, `returned
      ensures Valid() && recursionStack == old(recursionStack) - {nodeId}
      ensures finished.Keys == old(finished.Keys) + {nodeId}
    {
      recursionStack := recursionStack - {nodeId};
      forall v | HasEdge(config, nodeId, v)
        ensures v in finished && v != nodeId
      {
        HasEdgeIsNext(config, nodeId, v);
      }
      finished, returned := finished[nodeId := returned], returned + 1;
    }

    /** Follows the edge from the end of `path` to `neighbor`. */
    method Follow(path: seq<NodeId>, neighbor: NodeId) returns (found: bool)
      requires Walking(path) && neighbor in NextNodes(path[|path| - 1], config.edges, None) &&
               neighbor in Vertices(config)
      modifies this
      ensures Explored({neighbor}, found)
      ensures (Snapshot(), found) == ExploreEdge(config, path, neighbor, old(Snapshot()))
      decreases Vertices(config) - visited, 1
    {
      ExtendRootedWalk(config, path, neighbor);
      if neighbor !in visited {
        found := Dfs(neighbor, path + [neighbor]);
      } else if neighbor in recursionStack {
        Report(path, neighbor);
        return true;
      } else {
        return false;
      }
    }

    /** The loop over the neighbours of the end of `path`: it stops at the first find. */
    method FollowAll(path: seq<NodeId>, neighbors: seq<NodeId>) returns (found: bool)
      requires Walking(path) && neighbors == NextNodes(path[|path| - 1], config.edges, None)
      requires AreVertices(config, neighbors)
      modifies this
      ensures Explored(Elements(neighbors), found)
      ensures (Snapshot(), found) == ExploreFrom(config, path, neighbors, 0, old(Snapshot()))
      decreases Vertices(config) - visited, 2
    {
      ghost var names: set<NodeId> := {};
      ghost var outcome := ExploreFrom(config, path, neighbors, 0, Snapshot());
      for i := 0 to |neighbors|
        invariant Explored(names, false) && names == Elements(neighbors[..i])
        invariant ExploreFrom(config, path, neighbors, i, Snapshot()) == outcome
      {
        ElementsNext(neighbors, i);
        found := Follow(path, neighbors[i]);
        names := names + {neighbors[i]};
        if found {
          return;
        }
      }
      assert neighbors[..|neighbors|] == neighbors;
      return false;
    }

    method Dfs(nodeId: NodeId, path: seq<NodeId>) returns (found: bool)
      requires Valid() && nodeId !in visited && StackIs(Elements(path) - {nodeId})
      requires IsRootedWalk(config, path) && path[|path| - 1] == nodeId
      modifies this
      ensures Explored({nodeId}, found) && nodeId in visited
      ensures (Snapshot(), found) == Explore(config, path, old(Snapshot()))
      decreases Vertices(config) - visited, 0
    {
      RootedWalkEnd(config, path);
      Open(nodeId);
      var neighbors := Neighbors(adjacency, nodeId);
      assert neighbors == NextNodes(nodeId, config.edges, None);
      NextAreVertices(config, nodeId);
      found := FollowAll(path, neighbors);
      if !found {
        Close(nodeId, neighbors);
      }
    }

    /** A visited name that leads into a lasso lies on the body of a report. */
    lemma VisitedIsReported(id: NodeId)
      requires Valid() && StackIs({}) && id in visited && LeadsIntoLasso(config, id)
      ensures id in Bodies(cycles)
    {
      if id in finished {
        RankedLeadsNowhere(config, finished, id);
      }
    }

    lemma RootsAreReported(i: nat)
      requires Valid() && StackIs({}) && i <= |config.nodes| && RootsVisited(config, i, visited)
      ensures LassosReported(config, i, cycles)
    {
      forall k | 0 <= k < i && LeadsIntoLasso(config, config.nodes[k].id)
        ensures config.nodes[k].id in Bodies(cycles)
      {
        VisitedIsReported(config.nodes[k].id);
      }
    }

    /** When all listed nodes have been visited without a report there is no lasso. */
    lemma NothingFound()
      requires Valid() && cycles == [] && recursionStack == {} && RootsVisited(config, |config.nodes|, visited)
      ensures !HasLasso(config)
    {
      DescendingMeansNoLasso(config, finished);
    }

    /** The traversals from the first `i` listed nodes are done. */
    ghost predicate Scanned(i: nat)
      reads this
    {
      && i <= |config.nodes| && Valid() && StackIs({}) && RootsVisited(config, i, visited)
      && AllStartAtFirst(config, cycles) && Snapshot() == ExploreRoots(config, i)
    }

    /** The traversal from a listed node, unless it has been visited. */
    method FromRoot(id: NodeId)
      requires Valid() && StackIs({}) && id in NodeIds(config)
      modifies this
      ensures Valid() && StackIs({}) && old(visited) + {id} <= visited
      ensures Snapshot() == ExploreRoot(config, id, old(Snapshot()))
    {
      if id !in visited {
        assert Elements([id]) - {id} == {};
        var _ := Dfs(id, [id]);
      }
    }

    method FromNode(i: nat)
      requires Scanned(i) && i < |config.nodes|
      modifies this
      ensures Scanned(i + 1)
    {
      ghost var before := Snapshot();
      RootsAreReported(i);
      FromRoot(config.nodes[i].id);
      OneMoreRoot(config, i, before.visited, visited);
      OneMoreStart(config, i, before, Snapshot());
    }
  }

  lemma FirstReportCloses(c: Config, reports: seq<seq<NodeId>>)
    requires ReportsFit(c, reports) && reports != []
    ensures IsLasso(c, reports[0])
  {
    EachReportFits(c, reports, 0);
    ReportIsLassoIff(c, reports, 0);
  }

  ghost predicate RootsVisited(c: Config, i: nat, visited: set<NodeId>)
    requires i <= |c.nodes|
  {
    forall k :: 0 <= k < i ==> c.nodes[k].id in visited
  }

  /** Every report starts at the first listed node that leads into a lasso and that no earlier report has
      been through. */
  ghost predicate StartsAtFirst(c: Config, earlier: seq<seq<NodeId>>, report: seq<NodeId>) {
    exists i :: 0 <= i < |c.nodes| && report != [] && report[0] == c.nodes[i].id && LassosReported(c, i, earlier)
  }

  ghost predicate AllStartAtFirst(c: Config, reports: seq<seq<NodeId>>) {
    reports == [] || (AllStartAtFirst(c, reports[..|reports| - 1]) &&
      StartsAtFirst(c, reports[..|reports| - 1], reports[|reports| - 1]))
  }

  /** Of the first `i` listed nodes, those that lead into a lasso lie on the body of a report. */
  ghost predicate LassosReported(c: Config, i: nat, reports: seq<seq<NodeId>>)
    requires i <= |c.nodes|
  {
    forall k :: 0 <= k < i && LeadsIntoLasso(c, c.nodes[k].id) ==> c.nodes[k].id in Bodies(reports)
  }

  lemma OneMoreStart(c: Config, i: nat, t: Trace, t': Trace)
    requires i < |c.nodes| && LassosReported(c, i, t.cycles) && AllStartAtFirst(c, t.cycles)
    requires t'.cycles == t.cycles || AddsReport(t, [c.nodes[i].id], t', true)
    ensures AllStartAtFirst(c, t'.cycles)
  {
    if t'.cycles != t.cycles {
      var report := t'.cycles[|t.cycles|];
      assert [c.nodes[i].id] <= report && report[0] == c.nodes[i].id;
      assert StartsAtFirst(c, t.cycles, report);
    }
  }

  lemma OneMoreRoot(c: Config, i: nat, visited: set<NodeId>, visited': set<NodeId>)
    requires i < |c.nodes| && RootsVisited(c, i, visited) && visited + {c.nodes[i].id} <= visited'
    ensures RootsVisited(c, i + 1, visited')
  {
  }

  method DetectCycles(c: Config) returns (reports: seq<seq<NodeId>>)
    ensures DetectsExactly(c, reports) && ReportsFit(c, reports)
    ensures LassosReported(c, |c.nodes|, reports) && AllStartAtFirst(c, reports)
    ensures reports == ExploreRoots(c, |c.nodes|).cycles
  {
    var adjacency := BuildAdjacency(c.edges);
    var detector := new Detector(c, adjacency);
    for i := 0 to |c.nodes|
      invariant detector.config == c && detector.Scanned(i)
    {
      detector.FromNode(i);
    }
    reports := detector.cycles;
    detector.RootsAreReported(|c.nodes|);
    if reports == [] {
      detector.NothingFound();
    } else {
      FirstReportCloses(c, reports);
    }
  }

  const TWO_REPORTS := Config([Node("a", TriggerEmail), Node("b", ControlDelay), Node("d", ControlDelay)],
                              [Edge("a", "b", None), Edge("b", "a", None), Edge("d", "b", None)])

  lemma NeighborsOfExample(id: NodeId)
    requires id == "a" || id == "b" || id == "d"
    ensures NextNodes(id, TWO_REPORTS.edges, None) == [if id == "b" then "a" else "b"]
    ensures id in Vertices(TWO_REPORTS)
  {
    var e := TWO_REPORTS.edges;
    assert "a"[0] != "b"[0] && "b"[0] != "d"[0] && "a"[0] != "d"[0];
    assert e[..2][..1] == e[..1] && e[..1][..0] == [] && e[..2][1] == e[1] && e[..3] == e;
    assert NextNodes(id, e[..1], None) == if id == "a" then ["b"] else [];
    assert NextNodes(id, e[..2], None) == if id == "a" then ["b"] else if id == "b" then ["a"] else [];
    assert TWO_REPORTS.nodes[0] in TWO_REPORTS.nodes && TWO_REPORTS.nodes[1] in TWO_REPORTS.nodes &&
           TWO_REPORTS.nodes[2] in TWO_REPORTS.nodes;
  }

  lemma ExampleFromB()
    ensures Explore(TWO_REPORTS, ["a", "b"], Trace({"a"}, {"a"}, [])) ==
            (Trace({"a", "b"}, {"a", "b"}, [["a", "b", "a"]]), true)
  {
    var c := TWO_REPORTS;
    NeighborsOfExample("b");
    assert "a"[0] != "b"[0];
    var both := Trace({"a"} + {"b"}, {"a"} + {"b"}, []);
    assert ["a", "b"] + ["a"] == ["a", "b", "a"] && ["a", "b"][|["a", "b"]| - 1] == "b";
    assert both.cycles + [["a", "b"] + ["a"]] == [["a", "b", "a"]];
    assert {"a"} + {"b"} == {"a", "b"} && both.cycles == [];
    assert ExploreEdge(c, ["a", "b"], "a", both) == (both.(cycles := [["a", "b", "a"]]), true);
    assert ExploreFrom(c, ["a", "b"], ["a"], 0, both) == (both.(cycles := [["a", "b", "a"]]), true);
  }

  lemma ExampleFromA()
    ensures Explore(TWO_REPORTS, ["a"], Trace({}, {}, [])) == (Trace({"a", "b"}, {"a", "b"}, [["a", "b", "a"]]), true)
  {
    NeighborsOfExample("a");
    ExampleFromB();
    assert "a"[0] != "b"[0] && ["a"] + ["b"] == ["a", "b"];
    assert {} + {"a"} == {"a"};
  }

  lemma ExampleFromD()
    ensures Explore(TWO_REPORTS, ["d"], Trace({"a", "b"}, {"a", "b"}, [["a", "b", "a"]])).0.cycles ==
            [["a", "b", "a"], ["d", "b"]]
  {
    var c := TWO_REPORTS;
    NeighborsOfExample("d");
    var opening := Trace({"a", "b"} + {"d"}, {"a", "b"} + {"d"}, [["a", "b", "a"]]);
    assert ["d"] + ["b"] == ["d", "b"] && ["d"][|["d"]| - 1] == "d";
    assert opening.cycles + [["d"] + ["b"]] == [["a", "b", "a"], ["d", "b"]];
    assert ExploreEdge(c, ["d"], "b", opening) == (opening.(cycles := [["a", "b", "a"], ["d", "b"]]), true);
  }

  /** The second report need not close on itself: from d the traversal runs into b, which the first
      report has left on the stack. */
  lemma SecondReportNeedNotClose()
    ensures ExploreRoots(TWO_REPORTS, 3).cycles == [["a", "b", "a"], ["d", "b"]]
    ensures !IsLasso(TWO_REPORTS, ["d", "b"])
  {
    ExampleFromA();
    ExampleFromD();
    assert "a"[0] != "d"[0] && "b"[0] != "d"[0];
    assert ExploreRoots(TWO_REPORTS, 1) == Trace({"a", "b"}, {"a", "b"}, [["a", "b", "a"]]);
    assert ExploreRoots(TWO_REPORTS, 2) == ExploreRoots(TWO_REPORTS, 1);
  }
}
