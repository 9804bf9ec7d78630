/** The directed graph of a workflow configuration: walks, lassos and cycles. */
module WorkflowGraph {
  import opened Wrappers
  import opened WorkflowTypes

  ghost function NodeIds(c: Config): set<NodeId> {
    set n | n in c.nodes :: n.id
  }

  /** Every name a traversal can meet: the listed nodes and the targets of edges. */
  ghost function Vertices(c: Config): set<NodeId> {
    NodeIds(c) + set e | e in c.edges :: e.target
  }

  ghost predicate HasEdge(c: Config, u: NodeId, v: NodeId) {
    exists e {:trigger e in c.edges} :: e in c.edges && e.source == u && e.target == v
  }

  ghost predicate IsWalk(c: Config, w: seq<NodeId>) {
    |w| > 0 && forall i :: 0 <= i < |w| - 1 ==> HasEdge(c, w[i], w[i + 1])
  }

  /** A walk from a listed node whose last node already occurs earlier on it. */
  ghost predicate IsLasso(c: Config, w: seq<NodeId>) {
    IsWalk(c, w) && w[0] in NodeIds(c) && w[|w| - 1] in w[..|w| - 1]
  }

  ghost predicate HasLasso(c: Config) {
    exists w :: IsLasso(c, w)
  }

  ghost predicate IsClosedWalk(c: Config, w: seq<NodeId>) {
    IsWalk(c, w) && |w| >= 2 && w[0] == w[|w| - 1]
  }

  ghost predicate OnCycle(c: Config, v: NodeId) {
    exists w {:trigger IsClosedWalk(c, w)} :: IsClosedWalk(c, w) && w[0] == v
  }

  ghost predicate HasCycle(c: Config) {
    exists w :: IsClosedWalk(c, w)
  }

  /** Every edge leaves a listed node. */
  ghost predicate SourcesListed(c: Config) {
    forall e :: e in c.edges ==> e.source in NodeIds(c)
  }

  /** Every edge joins two listed nodes. */
  ghost predicate WellJoined(c: Config) {
    forall e :: e in c.edges ==> e.source in NodeIds(c) && e.target in NodeIds(c)
  }

  lemma HasEdgeIsNext(c: Config, u: NodeId, v: NodeId)
    ensures HasEdge(c, u, v) <==> v in NextNodes(u, c.edges, None)
  {
    NextNodesExact(u, c.edges, None, v);
  }

  lemma ExtendWalk(c: Config, w: seq<NodeId>, v: NodeId)
    requires IsWalk(c, w) && HasEdge(c, w[|w| - 1], v)
    ensures IsWalk(c, w + [v])
  {
    var w' := w + [v];
    forall i | 0 <= i < |w'| - 1
      ensures HasEdge(c, w'[i], w'[i + 1])
    {
      if i < |w| - 1 {
        assert HasEdge(c, w[i], w[i + 1]);
      }
    }
  }

  lemma SubWalk(c: Config, w: seq<NodeId>, lo: nat, hi: nat)
    requires IsWalk(c, w) && lo < hi <= |w|
    ensures IsWalk(c, w[lo..hi])
  {
    var w' := w[lo..hi];
    forall i | 0 <= i < |w'| - 1
      ensures HasEdge(c, w'[i], w'[i + 1])
    {
      assert HasEdge(c, w[lo + i], w[lo + i + 1]);
    }
  }

  lemma WalkStaysInVertices(c: Config, w: seq<NodeId>, i: nat)
    requires IsWalk(c, w) && w[0] in Vertices(c) && i < |w|
    ensures w[i] in Vertices(c)
  {
    if i > 0 {
      assert HasEdge(c, w[i - 1], w[i]);
    }
  }

  /** When edges leave listed nodes, the graph has a directed cycle exactly when some listed node
      starts a lasso. */
  lemma LassoIffCycle(c: Config)
    requires SourcesListed(c)
    ensures HasLasso(c) <==> HasCycle(c)
  {
    if HasLasso(c) {
      var w :| IsLasso(c, w);
      var last := |w| - 1;
      var j :| 0 <= j < last && w[j] == w[last];
      SubWalk(c, w, j, |w|);
      assert IsClosedWalk(c, w[j..]);
    }
    if HasCycle(c) {
      var w :| IsClosedWalk(c, w);
      assert HasEdge(c, w[0], w[1]);
      assert w[0] in w[..|w| - 1];
      assert IsLasso(c, w);
    }
  }

  /** `rank` orders names so that every edge leads from a ranked name to one of smaller rank. */
  ghost predicate Descending(c: Config, rank: map<NodeId, nat>) {
    forall u, v {:trigger HasEdge(c, u, v)} :: u in rank && HasEdge(c, u, v) ==> v in rank && rank[v] < rank[u]
  }

  lemma {:induction false} WalkDescends(c: Config, rank: map<NodeId, nat>, w: seq<NodeId>)
    requires Descending(c, rank) && IsWalk(c, w) && w[0] in rank
    ensures w[|w| - 1] in rank && rank[w[|w| - 1]] + |w| - 1 <= rank[w[0]]
    decreases |w|
  {
    if |w| > 1 {
      assert HasEdge(c, w[0], w[1]);
      SubWalk(c, w, 1, |w|);
      WalkDescends(c, rank, w[1..]);
    }
  }

  /** Some walk from `v` runs into itself. */
  ghost predicate LeadsIntoLasso(c: Config, v: NodeId) {
    exists w :: IsWalk(c, w) && w[0] == v && w[|w| - 1] in w[..|w| - 1]
  }

  /** A ranked name leads into no lasso. */
  lemma RankedLeadsNowhere(c: Config, rank: map<NodeId, nat>, v: NodeId)
    requires Descending(c, rank) && v in rank
    ensures !LeadsIntoLasso(c, v)
  {
    if LeadsIntoLasso(c, v) {
      var w :| IsWalk(c, w) && w[0] == v && w[|w| - 1] in w[..|w| - 1];
      var last := |w| - 1;
      var j :| 0 <= j < last && w[j] == w[last];
      SubWalk(c, w, 0, j + 1);
      WalkDescends(c, rank, w[..j + 1]);
      SubWalk(c, w, j, |w|);
      WalkDescends(c, rank, w[j..]);
    }
  }

  /** A ranking of the listed nodes rules out every lasso. */
  lemma DescendingMeansNoLasso(c: Config, rank: map<NodeId, nat>)
    requires Descending(c, rank) && NodeIds(c) <= rank.Keys
    ensures !HasLasso(c)
  {
    if HasLasso(c) {
      var w :| IsLasso(c, w);
      RankedLeadsNowhere(c, rank, w[0]);
    }
  }
}
