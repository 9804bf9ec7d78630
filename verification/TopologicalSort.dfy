/** Kahn's algorithm over a workflow configuration, and its agreement with cycle detection. */
module TopologicalSort {
  import opened Sequences
  import opened Wrappers
  import opened WorkflowTypes
  import opened WorkflowGraph
  import opened CycleDetection

  /** Some name before `v` is an unlisted edge source or lies on a cycle. */
  ghost predicate Stuck(c: Config, v: NodeId) {
    exists w {:trigger LeadsTo(c, w, v)} :: LeadsTo(c, w, v) && |w| >= 2 && (w[0] !in NodeIds(c) || OnCycle(c, w[0]))
  }

  ghost predicate LeadsTo(c: Config, w: seq<NodeId>, v: NodeId) {
    IsWalk(c, w) && w[|w| - 1] == v
  }

  /** Every edge into a sorted name comes from a listed name sorted before it. */
  ghost predicate SourcesFirst(c: Config, order: seq<NodeId>) {
    forall i, u {:trigger HasEdge(c, u, order[i])} :: 0 <= i < |order| && HasEdge(c, u, order[i]) ==>
      u in NodeIds(c) && u in order[..i]
  }

  /** What the sort promises on every configuration, dangling edges included. */
  ghost predicate SortsExactly(c: Config, order: seq<NodeId>) {
    && NoDuplicates(order)
    && SourcesFirst(c, order)
    && forall v :: v in order <==> v in Vertices(c) && !Stuck(c, v)
  }

  // ----- Counting the edges still waiting -----

  /** The number of edges into `v` whose source is not in `done`. */
  function Pending(edges: seq<Edge>, done: set<NodeId>, v: NodeId): nat {
    if edges == [] then 0
    else
      var last := edges[|edges| - 1];
      Pending(edges[..|edges| - 1], done, v) + if last.target == v && last.source !in done then 1 else 0
  }

  lemma {:induction false} PendingDrops(edges: seq<Edge>, done: set<NodeId>, u: NodeId, v: NodeId)
    requires u !in done
    ensures Pending(edges, done, v) == Pending(edges, done + {u}, v) + multiset(NextNodes(u, edges, None))[v]
  {
    if edges != [] {
      PendingDrops(edges[..|edges| - 1], done, u, v);
    }
  }

  lemma {:induction false} PendingSource(edges: seq<Edge>, done: set<NodeId>, v: NodeId)
    ensures Pending(edges, done, v) == 0 <==> forall e :: e in edges && e.target == v ==> e.source in done
  {
    if edges != [] {
      var init, last := edges[..|edges| - 1], edges[|edges| - 1];
      PendingSource(init, done, v);
      assert edges == init + [last];
    }
  }

  lemma PendingEdge(c: Config, done: set<NodeId>, v: NodeId)
    ensures Pending(c.edges, done, v) == 0 <==> forall u :: HasEdge(c, u, v) ==> u in done
  {
    PendingSource(c.edges, done, v);
    if Pending(c.edges, done, v) > 0 {
      var e :| e in c.edges && e.target == v && e.source !in done;
      assert HasEdge(c, e.source, v);
    }
  }

  // ----- The order it produces is the exact one -----

  lemma {:induction false} WalkBefore(c: Config, order: seq<NodeId>, w: seq<NodeId>, i: nat)
    requires SourcesFirst(c, order) && IsWalk(c, w) && |w| >= 2 && i < |order| && order[i] == w[|w| - 1]
    ensures w[0] in NodeIds(c) && w[0] in order[..i]
    decreases |w|
  {
    var n := |w| - 2;
    assert HasEdge(c, w[n], w[n + 1]) && w[n + 1] == order[i];
    assert HasEdge(c, w[n], order[i]) && w[n] in order[..i];
    var j :| 0 <= j < i && order[j] == w[n];
    if n > 0 {
      SubWalk(c, w, 0, n + 1);
      WalkBefore(c, order, w[..n + 1], j);
    }
  }

  lemma SortedIsNotStuck(c: Config, order: seq<NodeId>, v: NodeId)
    requires NoDuplicates(order) && SourcesFirst(c, order) && v in order
    ensures !Stuck(c, v)
  {
    if Stuck(c, v) {
      var w :| LeadsTo(c, w, v) && |w| >= 2 && (w[0] !in NodeIds(c) || OnCycle(c, w[0]));
      var i :| 0 <= i < |order| && order[i] == v;
      WalkBefore(c, order, w, i);
      var j :| 0 <= j < i && order[j] == w[0];
      var loop :| IsClosedWalk(c, loop) && loop[0] == w[0];
      WalkBefore(c, order, loop, j);
      DistinctTake(order, j);
    }
  }

  /** No unsorted vertex could be taken next: each has an incoming edge that keeps it waiting. */
  ghost predicate NothingReady(c: Config, order: seq<NodeId>) {
    forall v :: v in Vertices(c) && v !in order ==> exists u :: HasEdge(c, u, v) && (u !in NodeIds(c) || u !in order)
  }

  /** Following the waiting edges backwards from an unsorted vertex ends in an unlisted source or
      runs into itself. */
  lemma {:induction false} UnsortedIsStuck(c: Config, order: seq<NodeId>, w: seq<NodeId>, v: NodeId)
    requires NothingReady(c, order) && LeadsTo(c, w, v)
    requires w[0] in Vertices(c) && w[0] !in order
    ensures Stuck(c, v)
    decreases Vertices(c) - Elements(w[1..])
  {
    if w[0] in w[1..] {
      var k :| 1 <= k < |w| && w[k] == w[0];
      SubWalk(c, w, 0, k + 1);
      assert IsClosedWalk(c, w[..k + 1]);
    } else {
      var u :| HasEdge(c, u, w[0]) && (u !in NodeIds(c) || u !in order);
      if u in NodeIds(c) {
        assert ([u] + w)[1..] == w;
        assert Elements(w) == Elements(w[1..]) + {w[0]};
        UnsortedIsStuck(c, order, [u] + w, v);
      } else {
        assert LeadsTo(c, [u] + w, v);
      }
    }
  }

  lemma DrainedIsExact(c: Config, order: seq<NodeId>)
    requires NoDuplicates(order) && SourcesFirst(c, order) && NothingReady(c, order)
    requires forall v :: v in order ==> v in Vertices(c)
    ensures SortsExactly(c, order)
  {
    forall v
      ensures v in order <==> v in Vertices(c) && !Stuck(c, v)
    {
      if v in order {
        SortedIsNotStuck(c, order, v);
      } else if v in Vertices(c) {
        UnsortedIsStuck(c, order, [v], v);
      }
    }
  }

  // ----- The algorithm -----

  function Lookup(degree: map<NodeId, int>, v: NodeId): int {
    if v in degree then degree[v] else 0
  }

  /** The maps built from the first `i` edges. */
  ghost predicate Counted(c: Config, i: nat, degree: map<NodeId, int>, adjacency: map<NodeId, seq<NodeId>>)
    requires i <= |c.edges|
  {
    && (forall v {:trigger Pending(c.edges[..i], {}, v)} :: Lookup(degree, v) == Pending(c.edges[..i], {}, v))
    && (forall v :: v in adjacency ==> adjacency[v] == NextNodes(v, c.edges[..i], None))
  }

  function CountTarget(degree: map<NodeId, int>, edge: Edge): map<NodeId, int> {
    degree[edge.target := Lookup(degree, edge.target) + 1]
  }

  function PushTarget(adjacency: map<NodeId, seq<NodeId>>, edge: Edge): map<NodeId, seq<NodeId>> {
    if edge.source in adjacency then adjacency[edge.source := adjacency[edge.source] + [edge.target]] else adjacency
  }

  lemma CountOneMore(c: Config, i: nat, degree: map<NodeId, int>, adjacency: map<NodeId, seq<NodeId>>)
    requires i < |c.edges| && Counted(c, i, degree, adjacency)
    ensures Counted(c, i + 1, CountTarget(degree, c.edges[i]), PushTarget(adjacency, c.edges[i]))
  {
    var edges' := c.edges[..i + 1];
    assert edges'[..i] == c.edges[..i] && edges'[i] == c.edges[i];
    forall v
      ensures Lookup(CountTarget(degree, c.edges[i]), v) == Pending(edges', {}, v)
    {
      assert Lookup(degree, v) == Pending(c.edges[..i], {}, v);
    }
  }

  /** The names of the first `i` nodes in the order in which they first occur. */
  function NodeNames(c: Config, i: nat): seq<NodeId>
    requires i <= |c.nodes|
  {
    if i == 0 then [] else AddKey(NodeNames(c, i - 1), c.nodes[i - 1].id)
  }

  /** The names of all nodes and then of the targets of the first `i` edges. */
  function Names(c: Config, i: nat): seq<NodeId>
    requires i <= |c.edges|
  {
    if i == 0 then NodeNames(c, |c.nodes|) else AddKey(Names(c, i - 1), c.edges[i - 1].target)
  }

  ghost function IdsUpTo(c: Config, i: nat): set<NodeId>
    requires i <= |c.nodes|
  {
    set k | 0 <= k < i :: c.nodes[k].id
  }

  ghost function TargetsUpTo(c: Config, i: nat): set<NodeId>
    requires i <= |c.edges|
  {
    set k | 0 <= k < i :: c.edges[k].target
  }

  lemma {:induction false} NodeNamesExact(c: Config, i: nat)
    requires i <= |c.nodes|
    ensures NoDuplicates(NodeNames(c, i)) && Elements(NodeNames(c, i)) == IdsUpTo(c, i)
  {
    if i > 0 {
      NodeNamesExact(c, i - 1);
      assert IdsUpTo(c, i) == IdsUpTo(c, i - 1) + {c.nodes[i - 1].id};
    }
  }

  lemma {:induction false} NamesExact(c: Config, i: nat)
    requires i <= |c.edges|
    ensures NoDuplicates(Names(c, i)) && Elements(Names(c, i)) == IdsUpTo(c, |c.nodes|) + TargetsUpTo(c, i)
  {
    if i > 0 {
      NamesExact(c, i - 1);
      assert TargetsUpTo(c, i) == TargetsUpTo(c, i - 1) + {c.edges[i - 1].target};
    } else {
      NodeNamesExact(c, |c.nodes|);
    }
  }

  lemma NodesAreNamed(c: Config)
    ensures Elements(NodeNames(c, |c.nodes|)) == NodeIds(c) == IdsUpTo(c, |c.nodes|)
  {
    NodeNamesExact(c, |c.nodes|);
  }

  lemma NamesAreVertices(c: Config)
    ensures Elements(Names(c, |c.edges|)) == Vertices(c) && NoDuplicates(Names(c, |c.edges|))
  {
    NodesAreNamed(c);
    NamesExact(c, |c.edges|);
    assert TargetsUpTo(c, |c.edges|) == set e | e in c.edges :: e.target;
  }

  method InitialiseNodes(c: Config)
    returns (degree: map<NodeId, int>, keys: seq<NodeId>, adjacency: map<NodeId, seq<NodeId>>)
    ensures keys == NodeNames(c, |c.nodes|) && degree.Keys == adjacency.Keys == Elements(keys)
    ensures forall v :: v in degree ==> degree[v] == 0
    ensures forall v :: v in adjacency ==> adjacency[v] == []
  {
    degree, keys, adjacency := map[], [], map[];
    for i := 0 to |c.nodes|
      invariant keys == NodeNames(c, i) && degree.Keys == adjacency.Keys == Elements(keys)
      invariant forall v :: v in degree ==> degree[v] == 0
      invariant forall v :: v in adjacency ==> adjacency[v] == []
    {
      var id := c.nodes[i].id;
      keys := AddKey(keys, id);
      degree := degree[id := 0];
      adjacency := adjacency[id := []];
    }
  }

  lemma AllCounted(c: Config, degree: map<NodeId, int>, adjacency: map<NodeId, seq<NodeId>>)
    requires Counted(c, |c.edges|, degree, adjacency)
    ensures forall v :: v in degree ==> degree[v] == Pending(c.edges, {}, v)
    ensures forall v :: v in adjacency ==> adjacency[v] == NextNodes(v, c.edges, None)
  {
    assert c.edges[..|c.edges|] == c.edges;
    forall v | v in degree
      ensures degree[v] == Pending(c.edges, {}, v)
    {
      assert Lookup(degree, v) == Pending(c.edges[..|c.edges|], {}, v);
    }
  }

  /** The maps and the insertion order after the first `i` edges. */
  ghost predicate Counting(c: Config, i: nat, degree: map<NodeId, int>, keys: seq<NodeId>,
          adjacency: map<NodeId, seq<NodeId>>, listed: set<NodeId>)
    requires i <= |c.edges|
  {
    && keys == Names(c, i) && degree.Keys == Elements(keys) && adjacency.Keys == listed
    && Counted(c, i, degree, adjacency)
  }

  lemma CountStep(c: Config, i: nat, degree: map<NodeId, int>, keys: seq<NodeId>,
          adjacency: map<NodeId, seq<NodeId>>, listed: set<NodeId>)
    requires i < |c.edges| && Counting(c, i, degree, keys, adjacency, listed)
    ensures Counting(c, i + 1, CountTarget(degree, c.edges[i]), AddKey(keys, c.edges[i].target),
                     PushTarget(adjacency, c.edges[i]), listed)
  {
    CountOneMore(c, i, degree, adjacency);
    assert CountTarget(degree, c.edges[i]).Keys == degree.Keys + {c.edges[i].target};
    assert PushTarget(adjacency, c.edges[i]).Keys == adjacency.Keys;
  }

  /** Every edge counts for its target and is listed under its source. */
  method CountEdges(c: Config, degree0: map<NodeId, int>, keys0: seq<NodeId>, adjacency0: map<NodeId, seq<NodeId>>)
    returns (degree: map<NodeId, int>, keys: seq<NodeId>, adjacency: map<NodeId, seq<NodeId>>)
    requires Counting(c, 0, degree0, keys0, adjacency0, adjacency0.Keys)
    ensures Counting(c, |c.edges|, degree, keys, adjacency, adjacency0.Keys)
  {
    degree, keys, adjacency := degree0, keys0, adjacency0;
    for i := 0 to |c.edges|
      invariant Counting(c, i, degree, keys, adjacency, adjacency0.Keys)
    {
      var edge := c.edges[i];
      CountStep(c, i, degree, keys, adjacency, adjacency0.Keys);
      adjacency := PushTarget(adjacency, edge);
      keys := AddKey(keys, edge.target);
      degree := CountTarget(degree, edge);
    }
  }

  /** The initial maps. `keys` records the insertion order of the in-degree map, which the first
      scan of that map follows. */
  method Initialise(c: Config)
    returns (degree: map<NodeId, int>, keys: seq<NodeId>, adjacency: map<NodeId, seq<NodeId>>)
    ensures keys == Names(c, |c.edges|)
    ensures degree.Keys == Elements(keys) == Vertices(c) && NoDuplicates(keys)
    ensures forall v :: v in degree ==> degree[v] == Pending(c.edges, {}, v)
    ensures adjacency.Keys == NodeIds(c)
    ensures forall v :: v in adjacency ==> adjacency[v] == NextNodes(v, c.edges, None)
  {
    degree, keys, adjacency := InitialiseNodes(c);
    degree, keys, adjacency := CountEdges(c, degree, keys, adjacency);
    AllCounted(c, degree, adjacency);
    NodesAreNamed(c);
    NamesAreVertices(c);
  }

  function AddKey(keys: seq<NodeId>, id: NodeId): (r: seq<NodeId>)
    ensures Elements(r) == Elements(keys) + {id}
    ensures NoDuplicates(keys) ==> NoDuplicates(r)
  {
    if id in keys then keys else keys + [id]
  }

  ghost predicate CanRelax(neighbors: seq<NodeId>, degree: map<NodeId, int>, queue: seq<NodeId>) {
    && (forall v :: v in degree ==> multiset(neighbors)[v] <= degree[v])
    && (forall v :: v in neighbors ==> v in degree)
    && NoDuplicates(queue)
    && forall v :: v in queue ==> v in degree && degree[v] == 0
  }

  /** The queue holds what it held and every name whose in-degree has dropped to zero. */
  ghost predicate QueueExact(degree0: map<NodeId, int>, queue0: seq<NodeId>, degree: map<NodeId, int>,
          queue: seq<NodeId>) {
    && queue0 <= queue && NoDuplicates(queue)
    && forall v :: v in queue <==> v in queue0 || (v in degree && v in degree0 && degree[v] == 0 && degree0[v] > 0)
  }

  ghost predicate Relaxed(neighbors: seq<NodeId>, degree0: map<NodeId, int>, queue0: seq<NodeId>,
          degree: map<NodeId, int>, queue: seq<NodeId>)
  {
    && degree.Keys == degree0.Keys
    && (forall v :: v in degree ==> degree[v] == degree0[v] - multiset(neighbors)[v])
    && QueueExact(degree0, queue0, degree, queue)
  }

  /** The names that a scan of the first `n` neighbours makes ready, each where it occurs last. */
  function Released(neighbors: seq<NodeId>, n: nat, degree0: map<NodeId, int>): seq<NodeId>
    requires n <= |neighbors|
  {
    if n == 0 then []
    else
      var v := neighbors[n - 1];
      Released(neighbors, n - 1, degree0) +
      if v !in neighbors[n..] && multiset(neighbors)[v] == Lookup(degree0, v) then [v] else []
  }

  /** A neighbour's in-degree drops to zero exactly at its last occurrence, and when it has no other source. */
  lemma ZeroAtLast(neighbors: seq<NodeId>, n: nat, degree0: int)
    requires n < |neighbors| && multiset(neighbors)[neighbors[n]] <= degree0
    ensures degree0 - multiset(neighbors[..n + 1])[neighbors[n]] == 0 <==>
            neighbors[n] !in neighbors[n + 1..] && multiset(neighbors)[neighbors[n]] == degree0
  {
    assert neighbors == neighbors[..n + 1] + neighbors[n + 1..];
    assert neighbors[n] in neighbors[n + 1..] <==> multiset(neighbors[n + 1..])[neighbors[n]] > 0;
  }

  lemma OneMoreOccurs(neighbors: seq<NodeId>, i: nat)
    requires i < |neighbors|
    ensures multiset(neighbors[..i + 1])[neighbors[i]] == multiset(neighbors[..i])[neighbors[i]] + 1
  {
    TakeCounts(neighbors, i);
  }

  lemma ReleasedNext(neighbors: seq<NodeId>, i: nat, degree0: map<NodeId, int>, degree: map<NodeId, int>,
          queue0: seq<NodeId>)
    requires i < |neighbors| && neighbors[i] in degree0 && neighbors[i] in degree
    requires multiset(neighbors)[neighbors[i]] <= degree0[neighbors[i]]
    requires degree[neighbors[i]] == degree0[neighbors[i]] - multiset(neighbors[..i])[neighbors[i]]
    ensures queue0 + Released(neighbors, i + 1, degree0) ==
            queue0 + Released(neighbors, i, degree0) + if degree[neighbors[i]] - 1 == 0 then [neighbors[i]] else []
  {
    OneMoreOccurs(neighbors, i);
    ZeroAtLast(neighbors, i, degree0[neighbors[i]]);
    var more := if degree[neighbors[i]] - 1 == 0 then [neighbors[i]] else [];
    assert Released(neighbors, i + 1, degree0) == Released(neighbors, i, degree0) + more;
    assert queue0 + (Released(neighbors, i, degree0) + more) == queue0 + Released(neighbors, i, degree0) + more;
  }

  /** The scan of one node's neighbours: every occurrence takes one off the neighbour's in-degree,
      and a neighbour that reaches zero joins the queue. */
  method Relax(neighbors: seq<NodeId>, degree0: map<NodeId, int>, queue0: seq<NodeId>)
    returns (degree: map<NodeId, int>, queue: seq<NodeId>)
    requires CanRelax(neighbors, degree0, queue0)
    ensures Relaxed(neighbors, degree0, queue0, degree, queue)
    ensures queue == queue0 + Released(neighbors, |neighbors|, degree0)
  {
    degree, queue := degree0, queue0;
    for i := 0 to |neighbors|
      invariant queue == queue0 + Released(neighbors, i, degree0)
      invariant Relaxed(neighbors[..i], degree0, queue0, degree, queue)
    {
      var neighbor := neighbors[i];
      var newDegree := (if neighbor in degree then degree[neighbor] else 0) - 1;
      RelaxOne(neighbors, i, degree0, queue0, degree, queue);
      ReleasedNext(neighbors, i, degree0, degree, queue0);
      degree := degree[neighbor := newDegree];
      if newDegree == 0 {
        queue := queue + [neighbor];
      }
    }
    assert neighbors[..|neighbors|] == neighbors;
  }

  lemma EnqueueAtZero(degree0: map<NodeId, int>, queue0: seq<NodeId>, degree: map<NodeId, int>, queue: seq<NodeId>,
          v: NodeId)
    requires QueueExact(degree0, queue0, degree, queue) && v in degree && v in degree0
    requires 0 < degree[v] <= degree0[v] && v !in queue0
    ensures QueueExact(degree0, queue0, degree[v := degree[v] - 1], if degree[v] == 1 then queue + [v] else queue)
  {
    var queue' := queue + [v];
    DistinctJoin(queue, [v]);
    assert forall u :: u in queue' <==> u in queue || u == v;
  }

  lemma RelaxOne(neighbors: seq<NodeId>, i: nat, degree0: map<NodeId, int>, queue0: seq<NodeId>,
          degree: map<NodeId, int>, queue: seq<NodeId>)
    requires CanRelax(neighbors, degree0, queue0) && i < |neighbors|
    requires Relaxed(neighbors[..i], degree0, queue0, degree, queue)
    ensures neighbors[i] in degree
    ensures var degree' := degree[neighbors[i] := degree[neighbors[i]] - 1];
            Relaxed(neighbors[..i + 1], degree0, queue0, degree',
                    if degree'[neighbors[i]] == 0 then queue + [neighbors[i]] else queue)
  {
    var v := neighbors[i];
    TakeCounts(neighbors, i);
    assert multiset(neighbors[..i + 1])[v] <= multiset(neighbors)[v] <= degree0[v];
    EnqueueAtZero(degree0, queue0, degree, queue, v);
  }

  /** What holds whenever a node is about to be taken from the queue. */
  ghost predicate KahnInvariant(c: Config, degree: map<NodeId, int>, queue: seq<NodeId>, result: seq<NodeId>) {
    && degree.Keys == Vertices(c)
    && NoDuplicates(result + queue)
    && SourcesFirst(c, result)
    && (forall v :: v in degree ==> degree[v] == Pending(c.edges, Elements(result) * NodeIds(c), v))
    && (forall v :: v in result + queue <==> v in degree && degree[v] == 0)
  }

  /** The neighbours scanned when `id` is taken: none for a name without an adjacency entry. */
  ghost predicate Scans(c: Config, id: NodeId, neighbors: seq<NodeId>) {
    neighbors == if id in NodeIds(c) then NextNodes(id, c.edges, None) else []
  }

  /** Taking `id` finishes it; its scanned neighbours are exactly the edges no longer pending. */
  lemma PendingAfter(c: Config, result: seq<NodeId>, id: NodeId, neighbors: seq<NodeId>, v: NodeId)
    requires Scans(c, id, neighbors) && id !in result
    ensures Pending(c.edges, Elements(result) * NodeIds(c), v)
         == Pending(c.edges, Elements(result + [id]) * NodeIds(c), v) + multiset(neighbors)[v]
  {
    var done := Elements(result) * NodeIds(c);
    if id in NodeIds(c) {
      assert Elements(result + [id]) * NodeIds(c) == done + {id};
      PendingDrops(c.edges, done, id, v);
    } else {
      assert Elements(result + [id]) * NodeIds(c) == done;
    }
  }

  lemma StepCanRelax(c: Config, degree: map<NodeId, int>, queue: seq<NodeId>, result: seq<NodeId>,
          neighbors: seq<NodeId>)
    requires KahnInvariant(c, degree, queue, result) && queue != [] && Scans(c, queue[0], neighbors)
    ensures CanRelax(neighbors, degree, queue[1..])
    ensures queue[0] in Vertices(c) && queue[0] !in result
  {
    DistinctSplit(result, queue);
    assert queue[0] in result + queue;
    forall v | v in degree
      ensures multiset(neighbors)[v] <= degree[v]
    {
      PendingAfter(c, result, queue[0], neighbors, v);
    }
    forall v | v in neighbors
      ensures v in degree
    {
      HasEdgeIsNext(c, queue[0], v);
    }
    forall v | v in queue[1..]
      ensures v in degree && degree[v] == 0
    {
      assert v in result + queue;
    }
  }

  lemma ExtendSourcesFirst(c: Config, result: seq<NodeId>, id: NodeId)
    requires SourcesFirst(c, result) && Pending(c.edges, Elements(result) * NodeIds(c), id) == 0
    ensures SourcesFirst(c, result + [id])
  {
    var result' := result + [id];
    PendingEdge(c, Elements(result) * NodeIds(c), id);
    forall i, u | 0 <= i < |result'| && HasEdge(c, u, result'[i])
      ensures u in NodeIds(c) && u in result'[..i]
    {
      if i < |result| {
        assert result'[..i] == result[..i];
      } else {
        assert result'[..i] == result;
      }
    }
  }

  /** The queue after the step, seen as sets of names: taken and queued names are still exactly
      those whose in-degree is zero. */
  lemma StepQueue(degree: map<NodeId, int>, queue: seq<NodeId>, result: seq<NodeId>, neighbors: seq<NodeId>,
          degree': map<NodeId, int>, queue': seq<NodeId>)
    requires NoDuplicates(result + queue) && queue != [] && CanRelax(neighbors, degree, queue[1..])
    requires forall v :: v in result + queue <==> v in degree && degree[v] == 0
    requires Relaxed(neighbors, degree, queue[1..], degree', queue')
    ensures NoDuplicates(result + [queue[0]] + queue')
    ensures forall v :: v in result + [queue[0]] + queue' <==> v in degree' && degree'[v] == 0
  {
    var result' := result + [queue[0]];
    MoveHead(result, queue);
    DistinctSplit(result, queue);
    DistinctAppend(result, queue);
    DistinctJoin(result', queue');
    forall v
      ensures v in result' + queue' <==> v in degree' && degree'[v] == 0
    {
      assert v in result + queue <==> v in result' || v in queue[1..];
    }
  }

  lemma StepKeepsInvariant(c: Config, degree: map<NodeId, int>, queue: seq<NodeId>, result: seq<NodeId>,
          neighbors: seq<NodeId>, degree': map<NodeId, int>, queue': seq<NodeId>)
    requires KahnInvariant(c, degree, queue, result) && queue != [] && Scans(c, queue[0], neighbors)
    requires Relaxed(neighbors, degree, queue[1..], degree', queue')
    ensures KahnInvariant(c, degree', queue', result + [queue[0]])
    ensures Elements(result + [queue[0]]) == Elements(result) + {queue[0]}
  {
    var id, result' := queue[0], result + [queue[0]];
    StepCanRelax(c, degree, queue, result, neighbors);
    assert id in result + queue;
    ExtendSourcesFirst(c, result, id);
    ElementsSnoc(result, id);
    forall v | v in degree'
      ensures degree'[v] == Pending(c.edges, Elements(result') * NodeIds(c), v)
    {
      PendingAfter(c, result, id, neighbors, v);
    }
    StepQueue(degree, queue, result, neighbors, degree', queue');
  }

  // ----- First ready, first sorted -----

  ghost predicate ReadyAfter(c: Config, done: seq<NodeId>, v: NodeId) {
    forall u :: HasEdge(c, u, v) ==> u in done
  }

  /** Whenever all sources of `v` had been sorted, so had those of `u`. */
  ghost predicate NotReadyLater(c: Config, sorted: seq<NodeId>, u: NodeId, v: NodeId) {
    forall n :: 0 <= n <= |sorted| && ReadyAfter(c, sorted[..n], v) ==> ReadyAfter(c, sorted[..n], u)
  }

  /** No name comes after one that became ready later. */
  ghost predicate FirstReadyFirst(c: Config, sorted: seq<NodeId>, all: seq<NodeId>) {
    forall i, j :: 0 <= i < j < |all| ==> NotReadyLater(c, sorted, all[i], all[j])
  }

  /** A queued name is ready, and one that is not queued has a source not yet sorted. */
  lemma QueuedIffReady(c: Config, degree: map<NodeId, int>, queue: seq<NodeId>, result: seq<NodeId>, v: NodeId)
    requires KahnInvariant(c, degree, queue, result) && v in Vertices(c)
    ensures v in result + queue ==> ReadyAfter(c, result, v) && forall u :: HasEdge(c, u, v) ==> u in NodeIds(c)
    ensures v !in result + queue ==> exists u :: HasEdge(c, u, v) && (u !in result || u !in NodeIds(c))
  {
    PendingEdge(c, Elements(result) * NodeIds(c), v);
  }

  /** A name that joins the queue was not ready before. */
  lemma NewlyReady(c: Config, degree: map<NodeId, int>, queue: seq<NodeId>, result: seq<NodeId>,
          degree': map<NodeId, int>, queue': seq<NodeId>, result': seq<NodeId>, v: NodeId, n: nat)
    requires KahnInvariant(c, degree, queue, result) && KahnInvariant(c, degree', queue', result')
    requires v in result' + queue' && v !in result + queue && n <= |result|
    ensures !ReadyAfter(c, result[..n], v)
  {
    assert v in degree' && v in Vertices(c);
    QueuedIffReady(c, degree, queue, result, v);
    QueuedIffReady(c, degree', queue', result', v);
    var u :| HasEdge(c, u, v) && (u !in result || u !in NodeIds(c));
    assert u in NodeIds(c);
    assert u !in result[..n];
  }

  lemma PairStaysInOrder(c: Config, degree: map<NodeId, int>, queue: seq<NodeId>, result: seq<NodeId>,
          degree': map<NodeId, int>, queue': seq<NodeId>, u: NodeId, v: NodeId)
    requires KahnInvariant(c, degree, queue, result) && queue != []
    requires KahnInvariant(c, degree', queue', result + [queue[0]])
    requires u in result + [queue[0]] + queue' && v in result + [queue[0]] + queue'
    requires v in result + queue ==> NotReadyLater(c, result, u, v)
    ensures NotReadyLater(c, result + [queue[0]], u, v)
  {
    var result' := result + [queue[0]];
    assert u in degree' && v in degree';
    QueuedIffReady(c, degree', queue', result', u);
    forall n | 0 <= n <= |result'| && ReadyAfter(c, result'[..n], v)
      ensures ReadyAfter(c, result'[..n], u)
    {
      if n == |result'| {
        assert result'[..n] == result';
      } else {
        assert result'[..n] == result[..n];
        if v !in result + queue {
          NewlyReady(c, degree, queue, result, degree', queue', result', v, n);
        }
      }
    }
  }

  lemma StepKeepsOrder(c: Config, degree: map<NodeId, int>, queue: seq<NodeId>, result: seq<NodeId>,
          degree': map<NodeId, int>, queue': seq<NodeId>)
    requires KahnInvariant(c, degree, queue, result) && FirstReadyFirst(c, result, result + queue) && queue != []
    requires KahnInvariant(c, degree', queue', result + [queue[0]]) && queue[1..] <= queue'
    ensures FirstReadyFirst(c, result + [queue[0]], result + [queue[0]] + queue')
  {
    var all, all' := result + queue, result + [queue[0]] + queue';
    GoesOn(result, queue, queue');
    forall i, j | 0 <= i < j < |all'|
      ensures NotReadyLater(c, result + [queue[0]], all'[i], all'[j])
    {
      if j >= |all| {
        NotBefore(all', |all|, j);
      }
      PairStaysInOrder(c, degree, queue, result, degree', queue', all'[i], all'[j]);
    }
  }

  lemma GoesOn(result: seq<NodeId>, queue: seq<NodeId>, queue': seq<NodeId>)
    requires queue != [] && queue[1..] <= queue'
    ensures result + queue <= result + [queue[0]] + queue'
  {
    assert result + queue == result + [queue[0]] + queue[1..];
  }

  lemma NotBefore(all: seq<NodeId>, n: nat, j: nat)
    requires NoDuplicates(all) && n <= j < |all|
    ensures all[j] !in all[..n]
  {
    DistinctIff(all);
  }

  lemma StartsInOrder(c: Config, degree: map<NodeId, int>, queue: seq<NodeId>)
    requires KahnInvariant(c, degree, queue, [])
    ensures FirstReadyFirst(c, [], [] + queue)
  {
    assert [] + queue == queue;
    forall i, j | 0 <= i < j < |queue|
      ensures NotReadyLater(c, [], queue[i], queue[j])
    {
      assert queue[i] in queue && queue[i] in degree;
      QueuedIffReady(c, degree, queue, [], queue[i]);
    }
  }

  // ----- The order of names that become ready together -----

  /** All sources of `v` are listed and among `done`. */
  ghost predicate IsFree(c: Config, done: seq<NodeId>, v: NodeId) {
    forall u :: HasEdge(c, u, v) ==> u in done && u in NodeIds(c)
  }

  ghost function FreeAmong(c: Config, names: seq<NodeId>, done: seq<NodeId>): seq<NodeId> {
    if names == [] then []
    else
      FreeAmong(c, names[..|names| - 1], done) +
      if IsFree(c, done, names[|names| - 1]) then [names[|names| - 1]] else []
  }

  /** Of the first `n` neighbours those that are free once `done` are sorted, each where it occurs last. */
  ghost function FreedBy(c: Config, neighbors: seq<NodeId>, n: nat, done: seq<NodeId>): seq<NodeId>
    requires n <= |neighbors|
  {
    if n == 0 then []
    else
      FreedBy(c, neighbors, n - 1, done) +
      if neighbors[n - 1] !in neighbors[n..] && IsFree(c, done, neighbors[n - 1]) then [neighbors[n - 1]] else []
  }

  ghost function ScannedBy(c: Config, id: NodeId): seq<NodeId> {
    if id in NodeIds(c) then NextNodes(id, c.edges, None) else []
  }

  /** Everything that has been queued once `sorted` are sorted, in order: the names without a source in the order
      in which nodes and then edges name them, and after each sorted name those it makes free, in the order of
      its last edge to each. */
  ghost function Queued(c: Config, sorted: seq<NodeId>): seq<NodeId> {
    if sorted == [] then FreeAmong(c, Names(c, |c.edges|), [])
    else
      var n := |sorted| - 1;
      Queued(c, sorted[..n]) + FreedBy(c, ScannedBy(c, sorted[n]), |ScannedBy(c, sorted[n])|, sorted)
  }

  lemma FreeIffZero(c: Config, degree: map<NodeId, int>, queue: seq<NodeId>, result: seq<NodeId>, v: NodeId)
    requires KahnInvariant(c, degree, queue, result) && v in degree
    ensures degree[v] == 0 <==> IsFree(c, result, v)
  {
    PendingEdge(c, Elements(result) * NodeIds(c), v);
  }

  lemma {:induction false} ReleasedAreFreed(c: Config, neighbors: seq<NodeId>, n: nat, degree: map<NodeId, int>,
          degree': map<NodeId, int>, queue': seq<NodeId>, result': seq<NodeId>)
    requires n <= |neighbors| && KahnInvariant(c, degree', queue', result') && degree.Keys == degree'.Keys
    requires forall v :: v in neighbors ==> v in degree
    requires forall v :: v in degree ==> degree'[v] == degree[v] - multiset(neighbors)[v]
    ensures Released(neighbors, n, degree) == FreedBy(c, neighbors, n, result')
  {
    if n > 0 {
      ReleasedAreFreed(c, neighbors, n - 1, degree, degree', queue', result');
      assert neighbors[n - 1] in neighbors;
      FreeIffZero(c, degree', queue', result', neighbors[n - 1]);
    }
  }

  /** The queue after the step goes on as specified. */
  lemma QueueGoesOn(c: Config, neighbors: seq<NodeId>, degree: map<NodeId, int>, queue: seq<NodeId>,
          result: seq<NodeId>, degree': map<NodeId, int>, queue': seq<NodeId>)
    requires queue != [] && neighbors == ScannedBy(c, queue[0]) && result + queue == Queued(c, result)
    requires CanRelax(neighbors, degree, queue[1..]) && Relaxed(neighbors, degree, queue[1..], degree', queue')
    requires KahnInvariant(c, degree', queue', result + [queue[0]])
    requires queue' == queue[1..] + Released(neighbors, |neighbors|, degree)
    ensures result + [queue[0]] + queue' == Queued(c, result + [queue[0]])
  {
    var result' := result + [queue[0]];
    ReleasedAreFreed(c, neighbors, |neighbors|, degree, degree', queue', result');
    QueuedNext(c, result, queue[0]);
    MovedOn(result, queue, Released(neighbors, |neighbors|, degree));
  }

  lemma QueuedNext(c: Config, sorted: seq<NodeId>, id: NodeId)
    ensures Queued(c, sorted + [id]) ==
            Queued(c, sorted) + FreedBy(c, ScannedBy(c, id), |ScannedBy(c, id)|, sorted + [id])
  {
    assert (sorted + [id])[..|sorted|] == sorted;
  }

  lemma MovedOn(result: seq<NodeId>, queue: seq<NodeId>, more: seq<NodeId>)
    requires queue != []
    ensures result + [queue[0]] + (queue[1..] + more) == result + queue + more
  {
    assert [queue[0]] + queue[1..] == queue;
  }

  /** What the sort keeps while it empties the queue. */
  ghost predicate Sorting(c: Config, degree: map<NodeId, int>, queue: seq<NodeId>, result: seq<NodeId>) {
    && KahnInvariant(c, degree, queue, result) && FirstReadyFirst(c, result, result + queue)
    && result + queue == Queued(c, result)
  }

  function Zeros(keys: seq<NodeId>, degree: map<NodeId, int>): seq<NodeId> {
    if keys == [] then []
    else
      Zeros(keys[..|keys| - 1], degree) + if Lookup(degree, keys[|keys| - 1]) == 0 then [keys[|keys| - 1]] else []
  }

  lemma {:induction false} ZerosAreFree(c: Config, keys: seq<NodeId>, degree: map<NodeId, int>, queue: seq<NodeId>)
    requires KahnInvariant(c, degree, queue, []) && forall v :: v in keys ==> v in degree
    ensures Zeros(keys, degree) == FreeAmong(c, keys, [])
  {
    if keys != [] {
      assert keys[|keys| - 1] in keys;
      FreeIffZero(c, degree, queue, [], keys[|keys| - 1]);
      ZerosAreFree(c, keys[..|keys| - 1], degree, queue);
    }
  }

  /** The names without an incoming edge, in the order of `keys`. */
  method FirstQueue(c: Config, degree: map<NodeId, int>, keys: seq<NodeId>) returns (queue: seq<NodeId>)
    requires degree.Keys == Elements(keys) == Vertices(c) && NoDuplicates(keys) && keys == Names(c, |c.edges|)
    requires forall v :: v in degree ==> degree[v] == Pending(c.edges, {}, v)
    ensures Sorting(c, degree, queue, [])
  {
    queue := [];
    for i := 0 to |keys|
      invariant queue == Zeros(keys[..i], degree)
    {
      assert keys[..i + 1][..i] == keys[..i];
      assert keys[i] in Elements(keys);
      if degree[keys[i]] == 0 {
        queue := queue + [keys[i]];
      }
    }
    assert keys[..|keys|] == keys;
    ZerosExact(keys, degree);
    SortingStarts(c, degree, keys, queue);
  }

  lemma {:induction false} ZerosExact(keys: seq<NodeId>, degree: map<NodeId, int>)
    requires NoDuplicates(keys)
    ensures NoDuplicates(Zeros(keys, degree))
    ensures forall v :: v in Zeros(keys, degree) <==> v in keys && Lookup(degree, v) == 0
  {
    if keys != [] {
      var init, last := keys[..|keys| - 1], keys[|keys| - 1];
      DistinctTake(keys, |keys| - 1);
      ZerosExact(init, degree);
      assert keys == init + [last];
      if Lookup(degree, last) == 0 {
        DistinctJoin(Zeros(init, degree), [last]);
      } else {
        assert Zeros(keys, degree) == Zeros(init, degree);
      }
    }
  }

  lemma SortingStarts(c: Config, degree: map<NodeId, int>, keys: seq<NodeId>, queue: seq<NodeId>)
    requires degree.Keys == Elements(keys) == Vertices(c) && NoDuplicates(queue)
    requires keys == Names(c, |c.edges|) && queue == Zeros(keys, degree)
    requires forall v :: v in degree ==> degree[v] == Pending(c.edges, {}, v)
    requires forall v :: v in queue <==> v in keys && Lookup(degree, v) == 0
    ensures Sorting(c, degree, queue, [])
  {
    var none: seq<NodeId> := [];
    assert Elements(none) * NodeIds(c) == {};
    assert none + queue == queue;
    assert forall v :: v in keys <==> v in Elements(keys);
    assert KahnInvariant(c, degree, queue, []);
    StartsInOrder(c, degree, queue);
    ZerosAreFree(c, keys, degree, queue);
  }

  /** Takes the first name of the queue and scans its neighbours. */
  method TakeFirst(c: Config, adjacency: map<NodeId, seq<NodeId>>, degree0: map<NodeId, int>, queue0: seq<NodeId>,
          result0: seq<NodeId>)
    returns (degree: map<NodeId, int>, queue: seq<NodeId>, result: seq<NodeId>)
    requires Sorting(c, degree0, queue0, result0) && queue0 != [] && adjacency.Keys == NodeIds(c)
    requires forall v :: v in adjacency ==> adjacency[v] == NextNodes(v, c.edges, None)
    ensures Sorting(c, degree, queue, result) && result == result0 + [queue0[0]]
    ensures queue0[0] in Vertices(c) && queue0[0] !in result0
  {
    var current := queue0[0];
    var neighbors := Neighbors(adjacency, current);
    StepCanRelax(c, degree0, queue0, result0, neighbors);
    degree, queue := Relax(neighbors, degree0, queue0[1..]);
    StepKeepsInvariant(c, degree0, queue0, result0, neighbors, degree, queue);
    StepKeepsOrder(c, degree0, queue0, result0, degree, queue);
    QueueGoesOn(c, neighbors, degree0, queue0, result0, degree, queue);
    result := result0 + [current];
  }

  method TopologicalSort(c: Config) returns (result: seq<NodeId>)
    ensures SortsExactly(c, result) && FirstReadyFirst(c, result, result) && result == Queued(c, result)
  {
    var degree, keys, adjacency := Initialise(c);
    var queue := FirstQueue(c, degree, keys);
    result := [];
    while queue != []
      invariant Sorting(c, degree, queue, result)
      decreases Vertices(c) - Elements(result)
    {
      ghost var before := result;
      var current := queue[0];
      degree, queue, result := TakeFirst(c, adjacency, degree, queue, result);
      ElementsSnoc(before, current);
    }
    QueueEmpty(c, degree, result);
    assert result + queue == result;
  }

  lemma QueueEmpty(c: Config, degree: map<NodeId, int>, result: seq<NodeId>)
    requires KahnInvariant(c, degree, [], result)
    ensures SortsExactly(c, result)
  {
    assert result + [] == result;
    forall v | v in Vertices(c) && v !in result
      ensures exists u :: HasEdge(c, u, v) && (u !in NodeIds(c) || u !in result)
    {
      PendingEdge(c, Elements(result) * NodeIds(c), v);
    }
    DrainedIsExact(c, result);
  }

  // ----- Agreement of the two algorithms -----

  /** Some walk from a node on a cycle ends in `v` (the walk may be `v` alone). */
  ghost predicate HasCyclicAncestor(c: Config, v: NodeId) {
    exists w {:trigger LeadsTo(c, w, v)} :: LeadsTo(c, w, v) && OnCycle(c, w[0])
  }

  lemma StuckIffCyclicAncestor(c: Config, v: NodeId)
    requires SourcesListed(c)
    ensures Stuck(c, v) <==> HasCyclicAncestor(c, v)
  {
    if Stuck(c, v) {
      var w :| LeadsTo(c, w, v) && |w| >= 2 && (w[0] !in NodeIds(c) || OnCycle(c, w[0]));
      assert HasEdge(c, w[0], w[1]);
    }
    if HasCyclicAncestor(c, v) {
      var w :| LeadsTo(c, w, v) && OnCycle(c, w[0]);
      if |w| == 1 {
        var loop :| IsClosedWalk(c, loop) && loop[0] == v;
        assert LeadsTo(c, loop, v);
      }
    }
  }

  /** When edges leave listed nodes, the sort returns exactly the names with no ancestor on a cycle;
      when they also lead to listed nodes, these names are the nodes. */
  lemma SortedIffNoCyclicAncestor(c: Config, order: seq<NodeId>, v: NodeId)
    requires SourcesListed(c) && SortsExactly(c, order)
    ensures v in order <==> v in Vertices(c) && !HasCyclicAncestor(c, v)
    ensures WellJoined(c) ==> Vertices(c) == NodeIds(c)
  {
    StuckIffCyclicAncestor(c, v);
  }

  lemma CompleteSortHasNoCycle(c: Config, order: seq<NodeId>)
    requires SortsExactly(c, order) && Elements(order) == Vertices(c)
    ensures SourcesListed(c) && !HasCycle(c)
  {
    forall e | e in c.edges
      ensures e.source in NodeIds(c)
    {
      assert e.target in Elements(order);
      var i :| 0 <= i < |order| && order[i] == e.target;
      assert HasEdge(c, e.source, order[i]);
    }
    if HasCycle(c) {
      var w :| IsClosedWalk(c, w);
      assert HasEdge(c, w[0], w[1]);
      assert LeadsTo(c, w, w[0]) && OnCycle(c, w[0]);
      assert w[0] in Vertices(c) && Stuck(c, w[0]);
    }
  }

  lemma AcyclicSortIsComplete(c: Config, order: seq<NodeId>)
    requires SortsExactly(c, order) && SourcesListed(c) && !HasCycle(c)
    ensures Elements(order) == Vertices(c) && |order| == |Vertices(c)|
  {
    forall v | v in Vertices(c)
      ensures v in order
    {
      SortedIffNoCyclicAncestor(c, order, v);
    }
    DistinctLength(order);
  }

  /** On every configuration, Kahn's algorithm returns all names exactly when every edge leaves a listed
      node and the depth-first detector reports nothing. When edges join listed nodes the names are the
      node ids, so the two algorithms agree. */
  lemma KahnAgreesWithDetector(c: Config, order: seq<NodeId>, reports: seq<seq<NodeId>>)
    requires SortsExactly(c, order) && DetectsExactly(c, reports)
    ensures Elements(order) == Vertices(c) <==> SourcesListed(c) && reports == []
    ensures WellJoined(c) ==> (Elements(order) == NodeIds(c) <==> reports == [])
    ensures WellJoined(c) && reports == [] ==> |order| == |NodeIds(c)|
  {
    if Elements(order) == Vertices(c) {
      CompleteSortHasNoCycle(c, order);
    }
    if SourcesListed(c) {
      LassoIffCycle(c);
      if reports == [] {
        AcyclicSortIsComplete(c, order);
      }
    }
    assert WellJoined(c) ==> SourcesListed(c) && Vertices(c) == NodeIds(c);
  }

  /** With a dangling edge the two algorithms part ways: an edge from an unlisted source keeps its
      target out of the sort, although there is no cycle to report. */
  lemma DanglingSourceExample()
    ensures var c := Config([Node("a", TriggerEmail)], [Edge("ghost", "a", None)]);
            Stuck(c, "a") && !HasLasso(c)
  {
    var c := Config([Node("a", TriggerEmail)], [Edge("ghost", "a", None)]);
    assert c.edges[0] in c.edges && HasEdge(c, "ghost", "a");
    assert LeadsTo(c, ["ghost", "a"], "a");
    assert "ghost"[0] != "a"[0];
    DescendingMeansNoLasso(c, map["a" := 0]);
  }
}
