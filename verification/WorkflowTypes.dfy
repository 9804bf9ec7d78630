/** Workflow configurations: the node types, the node definitions and the edges between nodes. */
module WorkflowTypes {
  import opened Wrappers

  /** The node types of the editor. A stored configuration is parsed JSON, so it may also carry a
      type outside the list: the two retired triggers, or any other name. */
  datatype NodeType =
    | TriggerEmail | TriggerSchedule | TriggerManual
    | ConditionMatch | ConditionKeyword | ConditionAiClassifier | ConditionClassifier | ConditionCustom
    | ActionArchive | ActionMarkRead | ActionMarkUnread | ActionStar | ActionUnstar | ActionDelete
    | ActionSetVariable | ActionUnsetVariable | ActionCloneVariable | ActionRewriteEmail
    | ActionRegexReplace | ActionSetTags | ActionAiRewrite
    | ForwardEmail | ForwardTelegramBound | ForwardTelegram | ForwardDiscord | ForwardSlack
    | ForwardWebhook | ForwardFeishu | ForwardServerchan
    | ControlBranch | ControlDelay | ControlEnd
    | OtherTrigger(suffix: string)
    | OtherType(name: string)
  {
    /** The type name starts with "trigger:". */
    predicate IsTrigger() {
      TriggerEmail? || TriggerSchedule? || TriggerManual? || OtherTrigger?
    }
  }

  /** The name a type has in a stored configuration. */
  function TypeName(t: NodeType): string {
    match t
    case TriggerEmail => "trigger:email"
    case TriggerSchedule => "trigger:schedule"
    case TriggerManual => "trigger:manual"
    case OtherTrigger(suffix) => "trigger:" + suffix
    case ConditionMatch => "condition:match"
    case ConditionKeyword => "condition:keyword"
    case ConditionAiClassifier => "condition:ai-classifier"
    case ConditionClassifier => "condition:classifier"
    case ConditionCustom => "condition:custom"
    case ActionArchive => "action:archive"
    case ActionMarkRead => "action:markRead"
    case ActionMarkUnread => "action:markUnread"
    case ActionStar => "action:star"
    case ActionUnstar => "action:unstar"
    case ActionDelete => "action:delete"
    case ActionSetVariable => "action:setVariable"
    case ActionUnsetVariable => "action:unsetVariable"
    case ActionCloneVariable => "action:cloneVariable"
    case ActionRewriteEmail => "action:rewriteEmail"
    case ActionRegexReplace => "action:regexReplace"
    case ActionSetTags => "action:setTags"
    case ActionAiRewrite => "action:aiRewrite"
    case ForwardEmail => "forward:email"
    case ForwardTelegramBound => "forward:telegram-bound"
    case ForwardTelegram => "forward:telegram"
    case ForwardDiscord => "forward:discord"
    case ForwardSlack => "forward:slack"
    case ForwardWebhook => "forward:webhook"
    case ForwardFeishu => "forward:feishu"
    case ForwardServerchan => "forward:serverchan"
    case ControlBranch => "control:branch"
    case ControlDelay => "control:delay"
    case ControlEnd => "control:end"
    case OtherType(name) => name
  }

  /** A type outside the list that starts like a trigger is an `OtherTrigger`. */
  predicate IsParsed(t: NodeType) {
    t.OtherType? ==> !("trigger:" <= t.name)
  }

  /** The triggers are the types whose names start with "trigger:". */
  lemma TriggersByName(t: NodeType)
    requires IsParsed(t)
    ensures t.IsTrigger() <==> "trigger:" <= TypeName(t)
  {
    match t
    case TriggerEmail => assert "trigger:email"[..8] == "trigger:";
    case TriggerSchedule => assert "trigger:schedule"[..8] == "trigger:";
    case TriggerManual => assert "trigger:manual"[..8] == "trigger:";
    case OtherTrigger(suffix) => assert ("trigger:" + suffix)[..8] == "trigger:";
    case OtherType(_) =>
    case _ => assert TypeName(t)[0] != 't';
  }

  /** The definition table has an entry for every type but the retired triggers and foreign types; a type
      branches on truth, on a category, or not at all. */
  lemma DefinedTypes(t: NodeType)
    ensures OutputsOf(t).None? <==> t.TriggerSchedule? || t.TriggerManual? || t.OtherTrigger? || t.OtherType?
    ensures OutputsOf(t) == Some(Fixed(0)) <==> t.ControlEnd?
    ensures OutputsOf(t) == Some(Conditional) <==> t.ConditionMatch? || t.ConditionCustom? || t.ControlBranch?
    ensures OutputsOf(t) == Some(Multi) <==> t.ConditionKeyword? || t.ConditionAiClassifier? || t.ConditionClassifier?
    ensures OutputsOf(t).Some? && OutputsOf(t).value.Fixed? && !t.ControlEnd? ==> OutputsOf(t).value.count == 1
  {
  }

  /** The `outputs` entry of a node definition. */
  datatype Outputs = Fixed(count: nat) | Conditional | Multi

  /** The `outputs` of the definition table, or None for a type that is not in the table. */
  function OutputsOf(t: NodeType): Option<Outputs> {
    match t
    case ConditionMatch | ConditionCustom | ControlBranch => Some(Conditional)
    case ConditionKeyword | ConditionAiClassifier | ConditionClassifier => Some(Multi)
    case ControlEnd => Some(Fixed(0))
    case TriggerSchedule | TriggerManual | OtherTrigger(_) | OtherType(_) => None
    case _ => Some(Fixed(1))
  }

  type NodeId = string

  datatype Node = Node(id: NodeId, kind: NodeType)

  datatype Edge = Edge(source: NodeId, target: NodeId, sourceHandle: Option<string>)

  datatype Config = Config(nodes: seq<Node>, edges: seq<Edge>)

  /** The targets of the edges that leave `id`, in edge order; with a handle, only of the edges
      that carry exactly this handle. */
  function NextNodes(id: NodeId, edges: seq<Edge>, handle: Option<string>): seq<NodeId> {
    if edges == [] then []
    else
      var last := edges[|edges| - 1];
      NextNodes(id, edges[..|edges| - 1], handle) +
      if last.source == id && (handle.None? || last.sourceHandle == handle) then [last.target] else []
  }

  lemma {:induction false} NextNodesExact(id: NodeId, edges: seq<Edge>, handle: Option<string>, v: NodeId)
    ensures v in NextNodes(id, edges, handle) <==>
            exists e :: e in edges && e.source == id && e.target == v && (handle.None? || e.sourceHandle == handle)
  {
    if edges != [] {
      var init, last := edges[..|edges| - 1], edges[|edges| - 1];
      NextNodesExact(id, init, handle, v);
      assert edges == init + [last];
    }
  }
}
