/** What validation says of a normalised configuration. */
module NormalizedValidation {
  import opened JsonValues
  import opened WorkflowGraph
  import opened WorkflowNormalize
  import opened WorkflowTypes
  import opened WorkflowValidation
  import opened Wrappers

  // ----- The typed view of a JSON configuration; a missing string reads as the empty one -----

  function Text(s: Option<string>): string {
    if s.Some? then s.value else ""
  }

  /** The types with a fixed name, but the email trigger. */
  const TYPES: seq<NodeType> := [
    TriggerSchedule, TriggerManual,
    ConditionMatch, ConditionKeyword, ConditionAiClassifier, ConditionClassifier, ConditionCustom,
    ActionArchive, ActionMarkRead, ActionMarkUnread, ActionStar, ActionUnstar, ActionDelete,
    ActionSetVariable, ActionUnsetVariable, ActionCloneVariable, ActionRewriteEmail,
    ActionRegexReplace, ActionSetTags, ActionAiRewrite,
    ForwardEmail, ForwardTelegramBound, ForwardTelegram, ForwardDiscord, ForwardSlack,
    ForwardWebhook, ForwardFeishu, ForwardServerchan,
    ControlBranch, ControlDelay, ControlEnd]

  function TypeAmong(types: seq<NodeType>, name: string): (t: NodeType)
    ensures TypeName(t) == name
  {
    if types == [] then OtherType(name)
    else if TypeName(types[0]) == name then types[0]
    else TypeAmong(types[1..], name)
  }

  lemma KnownType(t: NodeType, name: string)
    requires TypeName(t) == name && !t.OtherType?
    ensures t.IsTrigger() <==> TRIGGER <= name
    ensures t.TriggerEmail? ==> name == EMAIL
  {
    TriggersByName(t);
  }

  lemma UnknownType(name: string)
    ensures TRIGGER <= name ==> TypeName(OtherTrigger(name[|TRIGGER|..])) == name
    ensures TypeName(OtherType(name)) == name
  {
    if TRIGGER <= name {
      assert name == TRIGGER + name[|TRIGGER|..];
    }
  }

  /** The type of a name: one with a fixed name, another trigger, or a foreign type. */
  function TypeNamed(name: string): (t: NodeType)
    ensures t.IsTrigger() <==> TRIGGER <= name
    ensures t.TriggerEmail? <==> name == EMAIL
    ensures TypeName(t) == name
  {
    KnownType(TriggerEmail, EMAIL);
    UnknownType(name);
    if name == EMAIL then TriggerEmail
    else
      var t := TypeAmong(TYPES, name);
      if !t.OtherType? then
        KnownType(t, name);
        t
      else if TRIGGER <= name then OtherTrigger(name[|TRIGGER|..])
      else t
  }

  function ViewNode(node: Json): Node {
    Node(Text(GetString(node, "id")), TypeNamed(Text(GetString(node, "type"))))
  }

  function ViewEdge(edge: Json): Edge {
    Edge(Text(GetString(edge, "source")), Text(GetString(edge, "target")), GetString(edge, "sourceHandle"))
  }

  /** The view shows a node's and an edge's own texts, and a type by the name it was given. */
  lemma ViewShows(node: Json, id: string, name: string, edge: Json, source: string, target: string)
    ensures GetString(node, "id") == Some(id) ==> ViewNode(node).id == id
    ensures GetString(node, "type") == Some(name) ==> TypeName(ViewNode(node).kind) == name
    ensures GetString(edge, "source") == Some(source) ==> ViewEdge(edge).source == source
    ensures GetString(edge, "target") == Some(target) ==> ViewEdge(edge).target == target
    ensures ViewEdge(edge).sourceHandle == GetString(edge, "sourceHandle")
  {
  }

  function ViewNodes(nodes: seq<Json>): seq<Node> {
    if nodes == [] then [] else ViewNodes(nodes[..|nodes| - 1]) + [ViewNode(nodes[|nodes| - 1])]
  }

  function ViewEdges(edges: seq<Json>): seq<Edge> {
    if edges == [] then [] else ViewEdges(edges[..|edges| - 1]) + [ViewEdge(edges[|edges| - 1])]
  }

  function View(config: Json): Config
    requires HasLists(config)
  {
    Config(ViewNodes(NodesOf(config)), ViewEdges(EdgesOf(config)))
  }

  lemma {:induction false} ViewNodesExact(nodes: seq<Json>, v: Node)
    ensures v in ViewNodes(nodes) <==> exists n :: n in nodes && ViewNode(n) == v
  {
    if nodes != [] {
      var init, last := nodes[..|nodes| - 1], nodes[|nodes| - 1];
      assert nodes == init + [last];
      ViewNodesExact(init, v);
    }
  }

  lemma {:induction false} ViewEdgesExact(edges: seq<Json>, v: Edge)
    ensures v in ViewEdges(edges) <==> exists e :: e in edges && ViewEdge(e) == v
  {
    if edges != [] {
      var init, last := edges[..|edges| - 1], edges[|edges| - 1];
      assert edges == init + [last];
      ViewEdgesExact(init, v);
    }
  }

  /** The triggers of the view are the trigger nodes. */
  lemma {:induction false} TriggersOfView(nodes: seq<Json>)
    ensures Triggers(ViewNodes(nodes)) == ViewNodes(TriggersIn(nodes))
    ensures |ViewNodes(nodes)| == |nodes|
  {
    if nodes != [] {
      var init, last := nodes[..|nodes| - 1], nodes[|nodes| - 1];
      TriggersOfView(init);
      var view, triggers := ViewNodes(init), TriggersIn(init);
      assert (view + [ViewNode(last)])[..|view|] == view;
      assert (triggers + [last])[..|triggers|] == triggers;
      assert triggers + [] == triggers && Triggers(view) + [] == Triggers(view);
    }
  }

  // ----- No new walks -----

  /** `sub` keeps some of the nodes and edges of `c`. */
  ghost predicate PartOf(sub: Config, c: Config) {
    (forall n :: n in sub.nodes ==> n in c.nodes) && (forall e :: e in sub.edges ==> e in c.edges)
  }

  lemma NoNewLasso(sub: Config, c: Config)
    requires PartOf(sub, c) && HasLasso(sub)
    ensures HasLasso(c)
  {
    var w :| IsLasso(sub, w);
    forall i | 0 <= i < |w| - 1
      ensures HasEdge(c, w[i], w[i + 1])
    {
      assert HasEdge(sub, w[i], w[i + 1]);
    }
    assert IsWalk(c, w);
    assert IsLasso(c, w);
  }

  lemma NormalizedIsPart(config: Json, disabled: set<string>, out: Json)
    requires HasLists(config) && out == NormalizeConfig(config, disabled).config
    ensures PartOf(View(out), View(config))
  {
    NormalizationKeepsOrder(config, disabled, out);
    PrefilteredInOrder(NodesOf(config), disabled);
    OneTriggerInOrder(Prefiltered(NodesOf(config), disabled));
    forall v | v in View(out).nodes
      ensures v in View(config).nodes
    {
      ViewNodesExact(NodesOf(out), v);
      ViewNodesExact(NodesOf(config), v);
    }
    forall v | v in View(out).edges
      ensures v in View(config).edges
    {
      ViewEdgesExact(EdgesOf(out), v);
      ViewEdgesExact(EdgesOf(config), v);
    }
  }

  // ----- No dangling edges -----

  lemma NormalizedIsWellJoined(config: Json, disabled: set<string>, out: Json)
    requires HasLists(config) && out == NormalizeConfig(config, disabled).config
    ensures WellJoined(View(out))
  {
    NormalizationKeepsOrder(config, disabled, out);
    forall v | v in View(out).edges
      ensures v.source in NodeIds(View(out)) && v.target in NodeIds(View(out))
    {
      ViewEdgesExact(EdgesOf(out), v);
      var e :| e in EdgesOf(out) && ViewEdge(e) == v;
      assert Joins(e, IdsOf(NodesOf(out)));
      KeptIdIsListed(NodesOf(out), v.source);
      KeptIdIsListed(NodesOf(out), v.target);
    }
  }

  lemma KeptIdIsListed(nodes: seq<Json>, id: string)
    requires id in IdsOf(nodes)
    ensures exists v :: v in ViewNodes(nodes) && v.id == id
  {
    var i :| 0 <= i < |nodes| && Truthy(GetString(nodes[i], "id")) && GetString(nodes[i], "id").value == id;
    ViewNodesExact(nodes, ViewNode(nodes[i]));
    assert ViewNode(nodes[i]).id == id;
  }

  // ----- The triggers -----

  /** An email trigger survives the first filter. */
  ghost predicate EmailTriggerSurvives(config: Json, disabled: set<string>)
    requires HasLists(config)
  {
    EMAIL !in disabled && exists n :: n in NodesOf(config) && IsEmailTrigger(n)
  }

  lemma SurvivorIff(config: Json, disabled: set<string>)
    requires HasLists(config)
    ensures HasEmailTrigger(Prefiltered(NodesOf(config), disabled)) <==> EmailTriggerSurvives(config, disabled)
  {
    var nodes := NodesOf(config);
    var before := Prefiltered(nodes, disabled);
    PrefilteredInOrder(nodes, disabled);
    forall n | n in nodes && IsEmailTrigger(n)
      ensures n in before <==> EMAIL !in disabled
    {
    }
    if HasEmailTrigger(before) {
      var i :| 0 <= i < |before| && IsEmailTrigger(before[i]);
      assert before[i] in nodes;
    }
  }

  /** The view of a normalised configuration has no trigger but one surviving email trigger. */
  lemma TriggersOfNormalized(config: Json, disabled: set<string>, out: Json)
    requires HasLists(config) && out == NormalizeConfig(config, disabled).config
    ensures !TwoTriggers(View(out).nodes)
    ensures EmailTriggerSurvives(config, disabled) <==> exists n :: n in View(out).nodes && n.kind.IsTrigger()
    ensures forall n :: n in View(out).nodes && n.kind.IsTrigger() ==> n.kind.TriggerEmail?
  {
    var before := Prefiltered(NodesOf(config), disabled);
    SurvivorIff(config, disabled);
    OneTriggerExact(before);
    TriggersOfView(NodesOf(out));
    TriggersExact(View(out).nodes);
    ManyTriggersIff(View(out).nodes);
    var only := TriggersIn(NodesOf(out));
    if HasEmailTrigger(before) {
      var i: nat :| FirstEmailAt(before, i) && only == [before[i]];
      assert ViewNodes(only) == [ViewNode(before[i])] by {
        assert only[..0] == [];
      }
      assert ViewNode(before[i]).kind.TriggerEmail?;
    }
  }

  /** Validation of a normalised configuration reports no dangling edge, no extra and no wrong trigger;
      it misses a trigger exactly when no email trigger survives; and it reports a cycle only if the
      input had one. */
  lemma NormalizedValidates(config: Json, disabled: set<string>, out: Json, problems: seq<Problem>)
    requires HasLists(config) && out == NormalizeConfig(config, disabled).config
    requires ValidatesExactly(View(out), problems)
    ensures forall p :: p in problems ==>
              !p.DanglingSource? && !p.DanglingTarget? && !p.ManyTriggers? && !p.WrongTrigger?
    ensures MissingTrigger in problems <==> !EmailTriggerSurvives(config, disabled)
    ensures (exists p :: p in problems && p.Cycles?) ==> HasLasso(View(config))
  {
    var view := View(out);
    NormalizedIsWellJoined(config, disabled, out);
    TriggersOfNormalized(config, disabled, out);
    forall p | p in problems
      ensures !p.DanglingSource? && !p.DanglingTarget? && !p.ManyTriggers? && !p.WrongTrigger?
      ensures p.Cycles? ==> HasLasso(View(config))
    {
      if p.Cycles? {
        NormalizedIsPart(config, disabled, out);
        NoNewLasso(view, View(config));
      } else {
        assert IsProblem(view, p);
      }
    }
  }
}
