/** The pruning of a stored workflow configuration: disabled and extra trigger nodes go, and with them
    the edges that no longer join kept nodes. */
module WorkflowNormalize {
  import opened JsonValues
  import opened Wrappers

  datatype Normalized = Normalized(config: Json, removedTypes: set<string>, removedNodeIds: set<string>)

  function Truthy(s: Option<string>): bool {
    s.Some? && s.value != ""
  }

  const TRIGGER := "trigger:"
  const EMAIL := "trigger:email"
  const SCHEDULE := "trigger:schedule"
  const MANUAL := "trigger:manual"

  // ----- Which nodes are kept -----

  /** The first filter: disabled types and the retired triggers go. */
  predicate Allowed(node: Json, disabled: set<string>) {
    var t := GetString(node, "type");
    !Truthy(t) || !(t.value in disabled || t.value == SCHEDULE || t.value == MANUAL)
  }

  predicate IsTriggerNode(node: Json) {
    var t := GetString(node, "type");
    t.Some? && TRIGGER <= t.value
  }

  predicate IsEmailTrigger(node: Json) {
    GetString(node, "type") == Some(EMAIL)
  }

  function Prefiltered(nodes: seq<Json>, disabled: set<string>): seq<Json> {
    if nodes == [] then []
    else
      Prefiltered(nodes[..|nodes| - 1], disabled) +
      if Allowed(nodes[|nodes| - 1], disabled) then [nodes[|nodes| - 1]] else []
  }

  predicate HasEmailTrigger(nodes: seq<Json>) {
    exists i :: 0 <= i < |nodes| && IsEmailTrigger(nodes[i])
  }

  /** The second filter keeps a node that is no trigger, and the first email trigger. */
  predicate KeptAfter(before: seq<Json>, node: Json) {
    !IsTriggerNode(node) || (IsEmailTrigger(node) && !HasEmailTrigger(before))
  }

  function OneTrigger(nodes: seq<Json>): seq<Json> {
    if nodes == [] then []
    else
      var init, last := nodes[..|nodes| - 1], nodes[|nodes| - 1];
      OneTrigger(init) + if KeptAfter(init, last) then [last] else []
  }

  /** The nodes the first filter drops. */
  function Disallowed(nodes: seq<Json>, disabled: set<string>): seq<Json> {
    if nodes == [] then []
    else
      Disallowed(nodes[..|nodes| - 1], disabled) +
      if Allowed(nodes[|nodes| - 1], disabled) then [] else [nodes[|nodes| - 1]]
  }

  /** The nodes the second filter drops. */
  function ExtraTriggers(nodes: seq<Json>): seq<Json> {
    if nodes == [] then []
    else
      var init, last := nodes[..|nodes| - 1], nodes[|nodes| - 1];
      ExtraTriggers(init) + if KeptAfter(init, last) then [] else [last]
  }

  /** All dropped nodes. */
  function Dropped(nodes: seq<Json>, disabled: set<string>): seq<Json> {
    Disallowed(nodes, disabled) + ExtraTriggers(Prefiltered(nodes, disabled))
  }

  function FinalNodes(nodes: seq<Json>, disabled: set<string>): seq<Json> {
    OneTrigger(Prefiltered(nodes, disabled))
  }

  // ----- Which edges are kept -----

  function IdsOf(nodes: seq<Json>): set<string> {
    set i | 0 <= i < |nodes| && Truthy(GetString(nodes[i], "id")) :: GetString(nodes[i], "id").value
  }

  predicate Joins(edge: Json, ids: set<string>) {
    var source, target := GetString(edge, "source"), GetString(edge, "target");
    Truthy(source) && Truthy(target) && source.value in ids && target.value in ids
  }

  function FinalEdges(edges: seq<Json>, ids: set<string>): seq<Json> {
    if edges == [] then []
    else FinalEdges(edges[..|edges| - 1], ids) + if Joins(edges[|edges| - 1], ids) then [edges[|edges| - 1]] else []
  }

  /** A configuration the normaliser works on: a record with lists of nodes and edges. */
  predicate HasLists(config: Json) {
    config.Obj? && "nodes" in config.fields && "edges" in config.fields &&
    config.fields["nodes"].Arr? && config.fields["edges"].Arr?
  }

  function TypesOf(nodes: seq<Json>): set<string> {
    set i | 0 <= i < |nodes| && GetString(nodes[i], "type").Some? :: GetString(nodes[i], "type").value
  }

  function NormalizeConfig(config: Json, disabled: set<string>): Normalized {
    if !HasLists(config) then Normalized(config, {}, {})
    else
      var nodes := config.fields["nodes"].items;
      var final, dropped := FinalNodes(nodes, disabled), Dropped(nodes, disabled);
      Normalized(
        Obj(config.fields["nodes" := Arr(final)]
                         ["edges" := Arr(FinalEdges(config.fields["edges"].items, IdsOf(final)))]),
        TypesOf(dropped), IdsOf(dropped))
  }

  // ----- The procedure, whose filters note what they drop -----

  /** What the filter callbacks have noted after `dropped`. */
  ghost predicate Noted(dropped: seq<Json>, types: set<string>, ids: set<string>) {
    types == TypesOf(dropped) && ids == IdsOf(dropped)
  }

  function NoteType(types: set<string>, node: Json): set<string> {
    var t := GetString(node, "type");
    if t.Some? then types + {t.value} else types
  }

  function NoteId(ids: set<string>, node: Json): set<string> {
    var id := GetString(node, "id");
    if Truthy(id) then ids + {id.value} else ids
  }

  lemma NoteOneMore(dropped: seq<Json>, node: Json)
    ensures TypesOf(dropped + [node]) == NoteType(TypesOf(dropped), node)
    ensures IdsOf(dropped + [node]) == NoteId(IdsOf(dropped), node)
  {
    var all := dropped + [node];
    assert all[|dropped|] == node;
    forall i | 0 <= i < |dropped|
      ensures all[i] == dropped[i]
    {
    }
    forall t | t in TypesOf(dropped)
      ensures t in TypesOf(all)
    {
      var i :| 0 <= i < |dropped| && GetString(dropped[i], "type") == Some(t);
      assert all[i] == dropped[i];
    }
    forall id | id in IdsOf(dropped)
      ensures id in IdsOf(all)
    {
      var i :| 0 <= i < |dropped| && GetString(dropped[i], "id") == Some(id);
      assert all[i] == dropped[i];
    }
  }

  method Prefilter(nodes: seq<Json>, disabled: set<string>)
    returns (kept: seq<Json>, removedTypes: set<string>, removedNodeIds: set<string>)
    ensures kept == Prefiltered(nodes, disabled)
    ensures Noted(Disallowed(nodes, disabled), removedTypes, removedNodeIds)
  {
    kept, removedTypes, removedNodeIds := [], {}, {};
    for i := 0 to |nodes|
      invariant kept == Prefiltered(nodes[..i], disabled)
      invariant Noted(Disallowed(nodes[..i], disabled), removedTypes, removedNodeIds)
    {
      assert nodes[..i + 1][..i] == nodes[..i];
      var node := nodes[i];
      if Allowed(node, disabled) {
        kept := kept + [node];
        assert Disallowed(nodes[..i], disabled) + [] == Disallowed(nodes[..i], disabled);
      } else {
        NoteOneMore(Disallowed(nodes[..i], disabled), node);
        removedTypes, removedNodeIds := NoteType(removedTypes, node), NoteId(removedNodeIds, node);
      }
    }
    assert nodes[..|nodes|] == nodes;
  }

  method KeepOneTrigger(nodes: seq<Json>, types: set<string>, ids: set<string>, ghost before: seq<Json>)
    returns (kept: seq<Json>, removedTypes: set<string>, removedNodeIds: set<string>)
    requires Noted(before, types, ids)
    ensures kept == OneTrigger(nodes)
    ensures Noted(before + ExtraTriggers(nodes), removedTypes, removedNodeIds)
  {
    kept, removedTypes, removedNodeIds := [], types, ids;
    var keptEmailTrigger := false;
    assert before + [] == before;
    for i := 0 to |nodes|
      invariant kept == OneTrigger(nodes[..i]) && keptEmailTrigger == HasEmailTrigger(nodes[..i])
      invariant Noted(before + ExtraTriggers(nodes[..i]), removedTypes, removedNodeIds)
    {
      assert nodes[..i + 1][..i] == nodes[..i];
      var node := nodes[i];
      EmailTriggerSnoc(nodes[..i], node);
      assert nodes[..i + 1] == nodes[..i] + [node];
      assert ExtraTriggers(nodes[..i]) + [] == ExtraTriggers(nodes[..i]);
      if !IsTriggerNode(node) {
        kept := kept + [node];
      } else if !IsEmailTrigger(node) || keptEmailTrigger {
        NoteOneMore(before + ExtraTriggers(nodes[..i]), node);
        assert before + (ExtraTriggers(nodes[..i]) + [node]) == before + ExtraTriggers(nodes[..i]) + [node];
        removedTypes, removedNodeIds := NoteType(removedTypes, node), NoteId(removedNodeIds, node);
      } else {
        keptEmailTrigger := true;
        kept := kept + [node];
      }
    }
    assert nodes[..|nodes|] == nodes;
  }

  lemma EmailTriggerSnoc(nodes: seq<Json>, node: Json)
    ensures HasEmailTrigger(nodes + [node]) <==> HasEmailTrigger(nodes) || IsEmailTrigger(node)
  {
    var all := nodes + [node];
    assert all[|nodes|] == node;
    forall i | 0 <= i < |nodes|
      ensures all[i] == nodes[i]
    {
    }
    if HasEmailTrigger(nodes) {
      var i :| 0 <= i < |nodes| && IsEmailTrigger(nodes[i]);
      assert IsEmailTrigger(all[i]);
    }
  }

  method Normalize(config: Json, disabled: set<string>) returns (result: Normalized)
    ensures result == NormalizeConfig(config, disabled)
  {
    if !HasLists(config) {
      return Normalized(config, {}, {});
    }
    var nodes, edges := config.fields["nodes"].items, config.fields["edges"].items;
    var prefiltered, types, ids := Prefilter(nodes, disabled);
    var final, removedTypes, removedNodeIds := KeepOneTrigger(prefiltered, types, ids, Disallowed(nodes, disabled));
    var keptNodeIds := IdsOf(final);
    var finalEdges: seq<Json> := [];
    for i := 0 to |edges|
      invariant finalEdges == FinalEdges(edges[..i], keptNodeIds)
    {
      assert edges[..i + 1][..i] == edges[..i];
      if Joins(edges[i], keptNodeIds) {
        finalEdges := finalEdges + [edges[i]];
      }
    }
    assert edges[..|edges|] == edges;
    result := Normalized(
      Obj(config.fields["nodes" := Arr(final)]["edges" := Arr(finalEdges)]), removedTypes, removedNodeIds);
  }

  // ----- Order and membership -----

  /** `a` is `b` with some elements left out. */
  ghost predicate IsSubsequence(a: seq<Json>, b: seq<Json>) {
    a == [] ||
    (b != [] &&
     ((a[|a| - 1] == b[|b| - 1] && IsSubsequence(a[..|a| - 1], b[..|b| - 1])) || IsSubsequence(a, b[..|b| - 1])))
  }

  /** Appending an element to the longer sequence, and perhaps also to the shorter one. */
  lemma SubsequenceStep(a: seq<Json>, b: seq<Json>, x: Json)
    requires IsSubsequence(a, b)
    ensures IsSubsequence(a + [x], b + [x]) && IsSubsequence(a, b + [x])
  {
    assert (a + [x])[..|a|] == a && (b + [x])[..|b|] == b;
  }

  lemma {:induction false} SubsequenceTransitive(a: seq<Json>, b: seq<Json>, c: seq<Json>)
    requires IsSubsequence(a, b) && IsSubsequence(b, c)
    ensures IsSubsequence(a, c)
    decreases |c|
  {
    if a != [] {
      var b', c' := b[..|b| - 1], c[..|c| - 1];
      if IsSubsequence(b, c') {
        SubsequenceTransitive(a, b, c');
      } else if IsSubsequence(a, b') {
        SubsequenceTransitive(a, b', c');
      } else {
        SubsequenceTransitive(a[..|a| - 1], b', c');
      }
    }
  }

  lemma {:induction false} PrefilteredInOrder(nodes: seq<Json>, disabled: set<string>)
    ensures IsSubsequence(Prefiltered(nodes, disabled), nodes)
    ensures forall n :: n in Prefiltered(nodes, disabled) <==> n in nodes && Allowed(n, disabled)
  {
    if nodes != [] {
      var init, last := nodes[..|nodes| - 1], nodes[|nodes| - 1];
      assert nodes == init + [last];
      PrefilteredInOrder(init, disabled);
      SubsequenceStep(Prefiltered(init, disabled), init, last);
      assert Prefiltered(init, disabled) + [] == Prefiltered(init, disabled);
    }
  }

  lemma {:induction false} OneTriggerInOrder(nodes: seq<Json>)
    ensures IsSubsequence(OneTrigger(nodes), nodes)
    ensures forall n :: n in OneTrigger(nodes) ==> n in nodes
    ensures forall n :: n in nodes && !IsTriggerNode(n) ==> n in OneTrigger(nodes)
  {
    if nodes != [] {
      var init, last := nodes[..|nodes| - 1], nodes[|nodes| - 1];
      assert nodes == init + [last];
      OneTriggerInOrder(init);
      SubsequenceStep(OneTrigger(init), init, last);
      assert OneTrigger(init) + [] == OneTrigger(init);
    }
  }

  lemma {:induction false} EdgesInOrder(edges: seq<Json>, ids: set<string>)
    ensures IsSubsequence(FinalEdges(edges, ids), edges)
    ensures forall e :: e in FinalEdges(edges, ids) <==> e in edges && Joins(e, ids)
  {
    if edges != [] {
      var init, last := edges[..|edges| - 1], edges[|edges| - 1];
      assert edges == init + [last];
      EdgesInOrder(init, ids);
      SubsequenceStep(FinalEdges(init, ids), init, last);
      assert FinalEdges(init, ids) + [] == FinalEdges(init, ids);
    }
  }

  function NodesOf(config: Json): seq<Json>
    requires HasLists(config)
  {
    config.fields["nodes"].items
  }

  function EdgesOf(config: Json): seq<Json>
    requires HasLists(config)
  {
    config.fields["edges"].items
  }

  /** The order of nodes and edges is kept, every other field is untouched, and an edge stays exactly
      when both its ends are among the kept nodes. */
  lemma NormalizationKeepsOrder(config: Json, disabled: set<string>, out: Json)
    requires HasLists(config) && out == NormalizeConfig(config, disabled).config
    ensures HasLists(out)
    ensures IsSubsequence(NodesOf(out), NodesOf(config)) && IsSubsequence(EdgesOf(out), EdgesOf(config))
    ensures forall e :: e in EdgesOf(out) <==> e in EdgesOf(config) && Joins(e, IdsOf(NodesOf(out)))
    ensures forall n :: n in NodesOf(config) && Allowed(n, disabled) && !IsTriggerNode(n) ==> n in NodesOf(out)
    ensures out.fields - {"nodes", "edges"} == config.fields - {"nodes", "edges"}
  {
    var nodes := NodesOf(config);
    var before := Prefiltered(nodes, disabled);
    PrefilteredInOrder(nodes, disabled);
    OneTriggerInOrder(before);
    SubsequenceTransitive(OneTrigger(before), before, nodes);
    EdgesInOrder(EdgesOf(config), IdsOf(OneTrigger(before)));
  }

  // ----- One trigger, the first surviving email trigger -----

  predicate FirstEmailAt(nodes: seq<Json>, i: nat) {
    i < |nodes| && IsEmailTrigger(nodes[i]) && !HasEmailTrigger(nodes[..i])
  }

  function TriggersIn(nodes: seq<Json>): seq<Json> {
    if nodes == [] then []
    else TriggersIn(nodes[..|nodes| - 1]) + if IsTriggerNode(nodes[|nodes| - 1]) then [nodes[|nodes| - 1]] else []
  }

  /** `only` is the one trigger left of `nodes`: the first email trigger among them. */
  ghost predicate OnlyTrigger(nodes: seq<Json>, only: seq<Json>) {
    exists i: nat :: FirstEmailAt(nodes, i) && only == [nodes[i]]
  }

  /** What is left has the first email trigger as its only trigger, or none at all. */
  lemma {:induction false} OneTriggerExact(nodes: seq<Json>)
    ensures !HasEmailTrigger(nodes) ==> TriggersIn(OneTrigger(nodes)) == []
    ensures HasEmailTrigger(nodes) ==> OnlyTrigger(nodes, TriggersIn(OneTrigger(nodes)))
  {
    if nodes != [] {
      var init, last := nodes[..|nodes| - 1], nodes[|nodes| - 1];
      assert nodes == init + [last];
      OneTriggerExact(init);
      EmailTriggerSnoc(init, last);
      var kept := OneTrigger(init);
      assert (kept + [last])[..|kept|] == kept && kept + [] == kept;
      assert TriggersIn(kept) + [] == TriggersIn(kept);
      if HasEmailTrigger(init) {
        var i: nat :| FirstEmailAt(init, i) && TriggersIn(kept) == [init[i]];
        assert init[..i] == nodes[..i];
        assert FirstEmailAt(nodes, i);
      } else if IsEmailTrigger(last) {
        EmailIsTrigger(last);
        assert FirstEmailAt(nodes, |nodes| - 1);
      }
    }
  }

  lemma EmailIsTrigger(node: Json)
    requires IsEmailTrigger(node)
    ensures IsTriggerNode(node)
  {
    assert EMAIL[..|TRIGGER|] == TRIGGER;
  }

  // ----- Normalising twice -----

  lemma {:induction false} AllowedStay(nodes: seq<Json>, disabled: set<string>)
    requires forall i :: 0 <= i < |nodes| ==> Allowed(nodes[i], disabled)
    ensures Prefiltered(nodes, disabled) == nodes && Disallowed(nodes, disabled) == []
  {
    if nodes != [] {
      var init, last := nodes[..|nodes| - 1], nodes[|nodes| - 1];
      AllowedStay(init, disabled);
      assert Allowed(last, disabled) && init + [last] == nodes;
    }
  }

  lemma {:induction false} OneTriggerTwice(nodes: seq<Json>)
    ensures OneTrigger(OneTrigger(nodes)) == OneTrigger(nodes)
    ensures ExtraTriggers(OneTrigger(nodes)) == []
    ensures HasEmailTrigger(OneTrigger(nodes)) <==> HasEmailTrigger(nodes)
  {
    if nodes != [] {
      var init, last := nodes[..|nodes| - 1], nodes[|nodes| - 1];
      assert nodes == init + [last];
      OneTriggerTwice(init);
      EmailTriggerSnoc(init, last);
      var kept := OneTrigger(init);
      EmailTriggerSnoc(kept, last);
      assert (kept + [last])[..|kept|] == kept && kept + [] == kept;
      if IsEmailTrigger(last) {
        EmailIsTrigger(last);
      }
    }
  }

  lemma {:induction false} FinalEdgesTwice(edges: seq<Json>, ids: set<string>)
    ensures FinalEdges(FinalEdges(edges, ids), ids) == FinalEdges(edges, ids)
  {
    if edges != [] {
      var init, last := edges[..|edges| - 1], edges[|edges| - 1];
      FinalEdgesTwice(init, ids);
      var kept := FinalEdges(init, ids);
      assert (kept + [last])[..|kept|] == kept && kept + [] == kept;
    }
  }

  lemma FinalNodesTwice(nodes: seq<Json>, disabled: set<string>)
    ensures FinalNodes(FinalNodes(nodes, disabled), disabled) == FinalNodes(nodes, disabled)
    ensures Dropped(FinalNodes(nodes, disabled), disabled) == []
  {
    var before := Prefiltered(nodes, disabled);
    PrefilteredInOrder(nodes, disabled);
    OneTriggerInOrder(before);
    AllowedStay(OneTrigger(before), disabled);
    OneTriggerTwice(before);
  }

  lemma NothingDropped(config: Json, disabled: set<string>)
    requires HasLists(config)
    requires FinalNodes(NodesOf(config), disabled) == NodesOf(config) && Dropped(NodesOf(config), disabled) == []
    requires FinalEdges(EdgesOf(config), IdsOf(NodesOf(config))) == EdgesOf(config)
    ensures NormalizeConfig(config, disabled) == Normalized(config, {}, {})
  {
    var result := NormalizeConfig(config, disabled);
    assert result.config.fields == config.fields;
    assert TypesOf([]) == {} && IdsOf([]) == {};
  }

  /** Normalising a normalised configuration changes nothing and removes nothing. */
  lemma NormalizationIsIdempotent(config: Json, disabled: set<string>)
    ensures var once := NormalizeConfig(config, disabled).config;
            NormalizeConfig(once, disabled) == Normalized(once, {}, {})
  {
    if HasLists(config) {
      var once := NormalizeConfig(config, disabled).config;
      var final := FinalNodes(NodesOf(config), disabled);
      FinalNodesTwice(NodesOf(config), disabled);
      FinalEdgesTwice(EdgesOf(config), IdsOf(final));
      NothingDropped(once, disabled);
    }
  }

  // ----- What stays, read off the input -----

  /** Node `i` stays: it has no type, or a type that is neither disabled nor retired and that is no trigger,
      unless it is the first email trigger of all. */
  predicate Stays(nodes: seq<Json>, i: nat, disabled: set<string>)
    requires i < |nodes|
  {
    match GetString(nodes[i], "type")
    case None => true
    case Some(t) =>
      t == "" ||
      (t !in disabled && t != "trigger:schedule" && t != "trigger:manual" &&
        ("trigger:" <= t ==>
          t == "trigger:email" && forall j :: 0 <= j < i ==> GetString(nodes[j], "type") != Some("trigger:email")))
  }

  function Staying(nodes: seq<Json>, disabled: set<string>): seq<Json> {
    if nodes == [] then []
    else
      Staying(nodes[..|nodes| - 1], disabled) +
      if Stays(nodes, |nodes| - 1, disabled) then [nodes[|nodes| - 1]] else []
  }

  /** The last node passes both filters exactly when it stays. */
  lemma LastStaysIff(init: seq<Json>, last: Json, disabled: set<string>)
    ensures Stays(init + [last], |init|, disabled) <==>
            Allowed(last, disabled) && KeptAfter(Prefiltered(init, disabled), last)
  {
    var nodes := init + [last];
    assert nodes[|init|] == last && forall j :: 0 <= j < |init| ==> nodes[j] == init[j];
    if IsEmailTrigger(last) && Allowed(last, disabled) {
      EmailTriggerIsTrigger();
      EmailLeftIff(init, disabled);
    }
  }

  lemma EmailTriggerIsTrigger()
    ensures TRIGGER <= EMAIL && EMAIL != SCHEDULE && EMAIL != MANUAL && EMAIL != ""
  {
    assert EMAIL[..|TRIGGER|] == TRIGGER;
    assert EMAIL[8] == 'e' && SCHEDULE[8] == 's' && MANUAL[8] == 'm';
  }

  /** An email trigger is left by the first filter exactly when there is one and the type is not disabled. */
  lemma {:induction false} EmailLeftIff(nodes: seq<Json>, disabled: set<string>)
    requires EMAIL !in disabled
    ensures HasEmailTrigger(Prefiltered(nodes, disabled)) <==>
            exists j :: 0 <= j < |nodes| && GetString(nodes[j], "type") == Some("trigger:email")
  {
    EmailTriggerIsTrigger();
    PrefilteredInOrder(nodes, disabled);
    var left := Prefiltered(nodes, disabled);
    if HasEmailTrigger(left) {
      var i :| 0 <= i < |left| && IsEmailTrigger(left[i]);
      assert left[i] in left && left[i] in nodes;
    }
    if j :| 0 <= j < |nodes| && GetString(nodes[j], "type") == Some("trigger:email") {
      assert Allowed(nodes[j], disabled) && nodes[j] in left;
    }
  }

  /** The two filters leave exactly the nodes that stay, in their order. */
  lemma {:induction false} FinalNodesStay(nodes: seq<Json>, disabled: set<string>)
    ensures FinalNodes(nodes, disabled) == Staying(nodes, disabled)
  {
    if nodes != [] {
      var init, last := nodes[..|nodes| - 1], nodes[|nodes| - 1];
      assert nodes == init + [last];
      FinalNodesStay(init, disabled);
      LastStaysIff(init, last, disabled);
      var left := Prefiltered(init, disabled);
      assert (left + [last])[..|left|] == left && left + [] == left;
    }
  }

  /** Exactly the nodes that do not stay are dropped. */
  lemma {:induction false} DroppedExact(nodes: seq<Json>, disabled: set<string>, n: Json)
    ensures n in Dropped(nodes, disabled) <==>
            exists i :: 0 <= i < |nodes| && nodes[i] == n && !Stays(nodes, i, disabled)
  {
    if nodes != [] {
      var init, last := nodes[..|nodes| - 1], nodes[|nodes| - 1];
      assert nodes == init + [last];
      DroppedExact(init, disabled, n);
      LastStaysIff(init, last, disabled);
      var left := Prefiltered(init, disabled);
      assert (left + [last])[..|left|] == left && left + [] == left;
      assert forall i :: 0 <= i < |init| ==> nodes[i] == init[i];
      assert forall i :: 0 <= i < |init| ==> (Stays(nodes, i, disabled) <==> Stays(init, i, disabled));
    }
  }

  /** The name is that of some node of the list. */
  predicate IsNodeId(nodes: seq<Json>, id: string) {
    id != "" && exists n :: n in nodes && GetString(n, "id") == Some(id)
  }

  predicate JoinsNodes(edge: Json, nodes: seq<Json>) {
    match (GetString(edge, "source"), GetString(edge, "target"))
    case (Some(source), Some(target)) => IsNodeId(nodes, source) && IsNodeId(nodes, target)
    case _ => false
  }

  lemma IdsIff(nodes: seq<Json>, id: string)
    ensures id in IdsOf(nodes) <==> IsNodeId(nodes, id)
  {
    if IsNodeId(nodes, id) {
      var n :| n in nodes && GetString(n, "id") == Some(id);
      var i :| 0 <= i < |nodes| && nodes[i] == n;
    }
  }

  lemma TypesIff(nodes: seq<Json>, t: string)
    ensures t in TypesOf(nodes) <==> exists n :: n in nodes && GetString(n, "type") == Some(t)
  {
    if n :| n in nodes && GetString(n, "type") == Some(t) {
      var i :| 0 <= i < |nodes| && nodes[i] == n;
    }
  }

  lemma JoinsIff(edge: Json, nodes: seq<Json>)
    ensures Joins(edge, IdsOf(nodes)) <==> JoinsNodes(edge, nodes)
  {
    forall id
      ensures id in IdsOf(nodes) <==> IsNodeId(nodes, id)
    {
      IdsIff(nodes, id);
    }
  }

  /** A configuration that is no record with lists of nodes and edges is left alone. */
  lemma OthersAreLeftAlone(config: Json, disabled: set<string>)
    requires !config.Obj? || "nodes" !in config.fields || "edges" !in config.fields ||
             !config.fields["nodes"].Arr? || !config.fields["edges"].Arr?
    ensures NormalizeConfig(config, disabled) == Normalized(config, {}, {})
  {
  }

  /** Exactly the nodes that stay are left, in their order, and exactly the edges whose ends are names of nodes
      left; the types and names noted are those of the nodes that do not stay. */
  lemma NormalizationIsExact(config: Json, disabled: set<string>, nodes: seq<Json>, edges: seq<Json>)
    requires config.Obj? && "nodes" in config.fields && "edges" in config.fields
    requires config.fields["nodes"] == Arr(nodes) && config.fields["edges"] == Arr(edges)
    ensures var r := NormalizeConfig(config, disabled);
            && HasLists(r.config) && NodesOf(r.config) == Staying(nodes, disabled)
            && (forall e :: e in EdgesOf(r.config) <==> e in edges && JoinsNodes(e, Staying(nodes, disabled)))
            && (forall t :: t in r.removedTypes <==> IsNotedText(nodes, disabled, "type", t))
            && (forall id :: id in r.removedNodeIds <==> id != "" && IsNotedText(nodes, disabled, "id", id))
  {
    FinalNodesStay(nodes, disabled);
    EdgesInOrder(edges, IdsOf(Staying(nodes, disabled)));
    forall e
      ensures Joins(e, IdsOf(Staying(nodes, disabled))) <==> JoinsNodes(e, Staying(nodes, disabled))
    {
      JoinsIff(e, Staying(nodes, disabled));
    }
    forall text
      ensures text in TypesOf(Dropped(nodes, disabled)) <==> IsNotedText(nodes, disabled, "type", text)
      ensures text in IdsOf(Dropped(nodes, disabled)) <==> text != "" && IsNotedText(nodes, disabled, "id", text)
    {
      NotedExact(nodes, disabled, text);
    }
  }

  /** A node that does not stay has the text under the key. */
  predicate IsNotedText(nodes: seq<Json>, disabled: set<string>, key: string, text: string) {
    exists i :: 0 <= i < |nodes| && !Stays(nodes, i, disabled) && GetString(nodes[i], key) == Some(text)
  }

  lemma NotedExact(nodes: seq<Json>, disabled: set<string>, text: string)
    ensures text in TypesOf(Dropped(nodes, disabled)) <==> IsNotedText(nodes, disabled, "type", text)
    ensures text in IdsOf(Dropped(nodes, disabled)) <==> text != "" && IsNotedText(nodes, disabled, "id", text)
  {
    var dropped := Dropped(nodes, disabled);
    forall n
      ensures n in dropped <==> exists i :: 0 <= i < |nodes| && nodes[i] == n && !Stays(nodes, i, disabled)
    {
      DroppedExact(nodes, disabled, n);
    }
    TypesIff(dropped, text);
    IdsIff(dropped, text);
    forall i | 0 <= i < |nodes| && !Stays(nodes, i, disabled)
      ensures nodes[i] in dropped
    {
    }
  }
}
