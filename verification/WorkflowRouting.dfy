/** Which edges a node's result makes the run follow, read off the node's type, the value and the edges'
    handles, and the agreement of the routing functions with it. */
module WorkflowRouting {
  import opened Wrappers
  import opened WorkflowRun
  import opened WorkflowTypes

  /** The values JavaScript counts as true. */
  predicate CountsAsTrue(value: Value) {
    value == Bool(true) || (value.Text? && value.text != "") || value == OtherValue(true)
  }

  /** The edge is one of the category: every edge is, when there is no category, and none is when the
      category is no text. */
  predicate CarriesCategory(edge: Edge, value: Value) {
    value.Undefined? || (value.Text? && edge.sourceHandle == Some(value.text))
  }

  predicate FollowsCategory(c: Config, id: NodeId, value: Value, edge: Edge) {
    if exists e :: e in c.edges && e.source == id && CarriesCategory(e, value) then CarriesCategory(edge, value)
    else edge.sourceHandle == Some("default")
  }

  /** The edge is followed after `node` has returned `value`: a match, a custom condition or a branch
      follows "true" or "false", a keyword node does so for a boolean, the multi-way nodes follow the
      category or else "default", and every other node all its edges. */
  predicate Follows(c: Config, node: Node, value: Value, edge: Edge) {
    edge.source == node.id &&
    match node.kind
    case ConditionMatch | ConditionCustom | ControlBranch =>
      edge.sourceHandle == Some(if CountsAsTrue(value) then "true" else "false")
    case ConditionKeyword =>
      if value == Bool(true) then edge.sourceHandle == Some("true")
      else if value == Bool(false) then edge.sourceHandle == Some("false")
      else FollowsCategory(c, node.id, value, edge)
    case ConditionAiClassifier | ConditionClassifier => FollowsCategory(c, node.id, value, edge)
    case _ => true
  }

  lemma CategoryHasTarget(c: Config, id: NodeId, value: Value)
    ensures SelectedTargets(c, id, CategorySelection(value)) != [] <==>
            exists e :: e in c.edges && e.source == id && CarriesCategory(e, value)
  {
    var selection := CategorySelection(value);
    var targets := SelectedTargets(c, id, selection);
    if targets != [] {
      NextNodesExact(id, c.edges, if selection.WithHandle? then selection.handle else None, targets[0]);
    }
    if e :| e in c.edges && e.source == id && CarriesCategory(e, value) {
      NextNodesExact(id, c.edges, if selection.WithHandle? then selection.handle else None, e.target);
    }
  }

  /** The routing admits exactly the edges that are followed. */
  lemma AdmitsIffFollows(c: Config, node: Node, value: Value, edge: Edge)
    requires edge.source == node.id
    ensures Route(c, node, value).Admits(edge) <==> Follows(c, node, value, edge)
  {
    CategoryHasTarget(c, node.id, value);
  }

  /** The run goes on to exactly the targets of the edges that are followed. */
  lemma RouteTargetsIff(c: Config, node: Node, value: Value, v: NodeId)
    ensures v in RouteTargets(c, node, value) <==>
            exists e :: e in c.edges && e.target == v && Follows(c, node, value, e)
  {
    var selection := Route(c, node, value);
    NextNodesExact(node.id, c.edges, if selection.WithHandle? then selection.handle else None, v);
    if v in RouteTargets(c, node, value) {
      var e :| e in c.edges && e.source == node.id && e.target == v &&
               (!selection.WithHandle? || e.sourceHandle == selection.handle);
      AdmitsIffFollows(c, node, value, e);
    }
    if e :| e in c.edges && e.target == v && Follows(c, node, value, e) {
      AdmitsIffFollows(c, node, value, e);
    }
  }
}
