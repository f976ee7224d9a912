/** The consent text a resource server authors next to the policies it compiles. */
module Presentations {
  import opened Strings
  import opened Cedar
  import opened Schemas
  import opened Compiler

  datatype GrantDetail = GrantDetail(actions: seq<string>, resourceType: string, resource: string,
                                     conditions: seq<string>)

  datatype Presentation = Presentation(title: string, summary: string, grants: seq<GrantDetail>)

  /** How a match map prints when a resource has no caption of its own. */
  type Printer = map<string, string> -> string

  // ---------- Labels ----------

  function ActionTitles(actions: seq<Action>): map<string, (string, string)>
  {
    if actions == [] then map[]
    else
      var last := actions[|actions| - 1];
      ActionTitles(actions[..|actions| - 1])[last.name := (last.title, last.description)]
  }

  function GroupTitles(groups: seq<Group>): map<string, (string, string)>
  {
    if groups == [] then map[]
    else
      var last := groups[|groups| - 1];
      GroupTitles(groups[..|groups| - 1])[last.name := (last.title, last.description)]
  }

  /** Here, unlike in the lattice, a group hides an action of its name. */
  function Titles(s: Schema): map<string, (string, string)>
  {
    ActionTitles(s.actions) + GroupTitles(s.groups)
  }

  /** The description of a name, else its title, else the name itself. */
  function ActionLabel(s: Schema, name: string): string
  {
    if name in Titles(s) && Titles(s)[name].1 != "" then Titles(s)[name].1
    else if name in Titles(s) && Titles(s)[name].0 != "" then Titles(s)[name].0
    else name
  }

  /** A description, failing that a title, failing that the name. */
  lemma LabelOfGroup(s: Schema, j: nat)
    requires j < |s.groups| && LastNamed(GroupNames(s.groups), j)
    ensures ActionLabel(s, s.groups[j].name) ==
            if s.groups[j].description != "" then s.groups[j].description
            else if s.groups[j].title != "" then s.groups[j].title else s.groups[j].name
  {
    GroupTitlesLast(s.groups, j);
  }

  lemma LabelOfAction(s: Schema, j: nat)
    requires j < |s.actions| && LastNamed(ActionNames(s.actions), j) && s.actions[j].name !in GroupNames(s.groups)
    ensures ActionLabel(s, s.actions[j].name) ==
            if s.actions[j].description != "" then s.actions[j].description
            else if s.actions[j].title != "" then s.actions[j].title else s.actions[j].name
  {
    ActionTitlesLast(s.actions, j);
    GroupTitlesKeys(s.groups, s.actions[j].name);
  }

  lemma LabelOfUnknown(s: Schema, name: string)
    requires name !in ActionNames(s.actions) && name !in GroupNames(s.groups)
    ensures ActionLabel(s, name) == name
  {
    GroupTitlesKeys(s.groups, name);
    ActionTitlesKeys(s.actions, name);
  }

  lemma {:induction false} GroupTitlesKeys(groups: seq<Group>, n: string)
    ensures n in GroupTitles(groups) <==> n in GroupNames(groups)
  {
    if groups != [] {
      var init, last := groups[..|groups| - 1], groups[|groups| - 1];
      GroupTitlesKeys(init, n);
      assert GroupNames(groups) == GroupNames(init) + [last.name];
    }
  }

  lemma {:induction false} ActionTitlesKeys(actions: seq<Action>, n: string)
    ensures n in ActionTitles(actions) <==> n in ActionNames(actions)
  {
    if actions != [] {
      var init, last := actions[..|actions| - 1], actions[|actions| - 1];
      ActionTitlesKeys(init, n);
      assert ActionNames(actions) == ActionNames(init) + [last.name];
    }
  }

  lemma {:induction false} GroupTitlesLast(groups: seq<Group>, i: nat)
    requires i < |groups| && LastNamed(GroupNames(groups), i)
    ensures groups[i].name in GroupTitles(groups)
    ensures GroupTitles(groups)[groups[i].name] == (groups[i].title, groups[i].description)
  {
    if i < |groups| - 1 {
      assert GroupNames(groups)[|groups| - 1] == groups[|groups| - 1].name;
      assert LastNamed(GroupNames(groups[..|groups| - 1]), i) by {
        assert forall j :: i < j < |groups| - 1 ==> GroupNames(groups[..|groups| - 1])[j] == GroupNames(groups)[j];
      }
      GroupTitlesLast(groups[..|groups| - 1], i);
    }
  }

  lemma {:induction false} ActionTitlesLast(actions: seq<Action>, i: nat)
    requires i < |actions| && LastNamed(ActionNames(actions), i)
    ensures actions[i].name in ActionTitles(actions)
    ensures ActionTitles(actions)[actions[i].name] == (actions[i].title, actions[i].description)
  {
    if i < |actions| - 1 {
      assert ActionNames(actions)[|actions| - 1] == actions[|actions| - 1].name;
      assert LastNamed(ActionNames(actions[..|actions| - 1]), i) by {
        assert forall j :: i < j < |actions| - 1 ==>
            ActionNames(actions[..|actions| - 1])[j] == ActionNames(actions)[j];
      }
      ActionTitlesLast(actions[..|actions| - 1], i);
    }
  }

  method ActionLabels(s: Schema, names: seq<string>) returns (out: seq<string>)
    ensures |out| == |names|
    ensures forall i :: 0 <= i < |names| ==> out[i] == ActionLabel(s, names[i])
    ensures forall i, j :: 0 <= i < |names| && 0 <= j < |s.groups|
                           && s.groups[j].name == names[i] && LastNamed(GroupNames(s.groups), j) ==>
              out[i] == (if s.groups[j].description != "" then s.groups[j].description
                         else if s.groups[j].title != "" then s.groups[j].title else names[i])
    ensures forall i, j :: 0 <= i < |names| && 0 <= j < |s.actions| && s.actions[j].name == names[i]
                           && LastNamed(ActionNames(s.actions), j) && names[i] !in GroupNames(s.groups) ==>
              out[i] == (if s.actions[j].description != "" then s.actions[j].description
                         else if s.actions[j].title != "" then s.actions[j].title else names[i])
    ensures forall i :: 0 <= i < |names| && names[i] !in ActionNames(s.actions) && names[i] !in GroupNames(s.groups) ==>
              out[i] == names[i]
  {
    out := LabelNames(s, names);
    forall j | 0 <= j < |s.groups| && LastNamed(GroupNames(s.groups), j) {
      LabelOfGroup(s, j);
    }
    forall j | 0 <= j < |s.actions| && LastNamed(ActionNames(s.actions), j)
        && s.actions[j].name !in GroupNames(s.groups) {
      LabelOfAction(s, j);
    }
    forall name | name !in ActionNames(s.actions) && name !in GroupNames(s.groups) {
      LabelOfUnknown(s, name);
    }
  }

  method LabelNames(s: Schema, names: seq<string>) returns (out: seq<string>)
    ensures |out| == |names|
    ensures forall i :: 0 <= i < |names| ==> out[i] == ActionLabel(s, names[i])
  {
    var titles: map<string, (string, string)> := map[];
    for i := 0 to |s.actions|
      invariant titles == ActionTitles(s.actions[..i])
    {
      titles := titles[s.actions[i].name := (s.actions[i].title, s.actions[i].description)];
      assert s.actions[..i + 1][..i] == s.actions[..i];
    }
    assert s.actions[..|s.actions|] == s.actions;
    for i := 0 to |s.groups|
      invariant titles == ActionTitles(s.actions) + GroupTitles(s.groups[..i])
    {
      titles := titles[s.groups[i].name := (s.groups[i].title, s.groups[i].description)];
      assert s.groups[..i + 1][..i] == s.groups[..i];
    }
    assert s.groups[..|s.groups|] == s.groups;
    out := [];
    for i := 0 to |names|
      invariant |out| == i
      invariant forall j :: 0 <= j < i ==> out[j] == ActionLabel(s, names[j])
    {
      var n := names[i];
      if n in titles && titles[n].1 != "" {
        out := out + [titles[n].1];
      } else if n in titles && titles[n].0 != "" {
        out := out + [titles[n].0];
      } else {
        out := out + [n];
      }
    }
  }

  function ResourceTypeName(resources: seq<ResourceType>, key: string): string
  {
    if resources == [] then key
    else if resources[0].entity == key || resources[0].name == key then
      if resources[0].title != "" then resources[0].title else resources[0].name
    else ResourceTypeName(resources[1..], key)
  }

  /** The first resource type with the key as its entity or its name gives the human name, its title if it has one. */
  lemma {:induction false} TypeNameIsFirst(resources: seq<ResourceType>, i: nat, key: string)
    requires i <= |resources| && forall j :: 0 <= j < i ==> resources[j].entity != key && resources[j].name != key
    requires i < |resources| ==> resources[i].entity == key || resources[i].name == key
    ensures ResourceTypeName(resources, key) ==
            if i == |resources| then key
            else if resources[i].title != "" then resources[i].title else resources[i].name
  {
    if i > 0 {
      TypeNameIsFirst(resources[1..], i - 1, key);
    }
  }

  /** The human name and value of the resource a selector picks. */
  function ScopeResource(s: Schema, show: Printer, sel: ResourceSelector): (string, string)
  {
    if s.scope.Some? && s.scope.value(sel).Ok? then
      var scoped := s.scope.value(sel).value;
      (ResourceTypeName(s.resources, scoped.entity.typ), if scoped.caption == "" then show(sel.fields)
          else scoped.caption)
    else
      (ResourceTypeName(s.resources, sel.typ), sel.typ + " " + show(sel.fields))
  }

  /** The detail names the capability's actions, in order, and the resource its selector resolves to. */
  ghost predicate Describes(s: Schema, show: Printer, c: Capability, d: GrantDetail)
  {
    && |d.actions| == |c.actions|
    && (forall i :: 0 <= i < |c.actions| ==> d.actions[i] == ActionLabel(s, c.actions[i]))
    && (d.resourceType, d.resource) == ScopeResource(s, show, c.resource)
    && d.conditions == []
  }

  method BuildPresentation(s: Schema, show: Printer, reason: string, caps: seq<Capability>) returns (p: Presentation)
    ensures p.title == "Access request"
    ensures p.summary == if reason != "" then reason else "Grant " + Decimal(|caps|) + " permission set(s)."
    ensures |p.grants| == |caps| && forall i :: 0 <= i < |caps| ==> Describes(s, show, caps[i], p.grants[i])
    ensures forall i :: 0 <= i < |caps| ==> |p.grants[i].actions| == |caps[i].actions| && p.grants[i].conditions == []
    ensures forall i :: 0 <= i < |caps| && s.scope.Some? && s.scope.value(caps[i].resource).Ok? ==>
              var scoped := s.scope.value(caps[i].resource).value;
              && p.grants[i].resourceType == ResourceTypeName(s.resources, scoped.entity.typ)
              && p.grants[i].resource == (if scoped.caption == "" then show(caps[i].resource.fields)
                  else scoped.caption)
    ensures forall i :: 0 <= i < |caps| && (s.scope.None? || s.scope.value(caps[i].resource).Err?) ==>
              && p.grants[i].resourceType == ResourceTypeName(s.resources, caps[i].resource.typ)
              && p.grants[i].resource == caps[i].resource.typ + " " + show(caps[i].resource.fields)
  {
    var grants: seq<GrantDetail> := [];
    for i := 0 to |caps|
      invariant |grants| == i
      invariant forall j :: 0 <= j < i ==> Describes(s, show, caps[j], grants[j])
    {
      var (typeName, caption) := ScopeResource(s, show, caps[i].resource);
      var labels := ActionLabels(s, caps[i].actions);
      grants := grants + [GrantDetail(labels, typeName, caption, [])];
    }
    var summary := "Grant " + Decimal(|grants|) + " permission set(s).";
    if reason != "" {
      summary := reason;
    }
    p := Presentation("Access request", summary, grants);
  }

  /** What a human reads about a permit: its action names' labels and its scope's human name. */
  ghost predicate Explains(s: Schema, d: GrantDetail, p: Policy)
  {
    && |d.actions| == |p.actions|
    && (forall i :: 0 <= i < |p.actions| ==>
        p.actions[i].typ == s.actionType && d.actions[i] == ActionLabel(s, p.actions[i].id))
    && d.resourceType == ResourceTypeName(s.resources, p.scope.typ)
  }

  /** The presentation and the policies frozen together are index-aligned: each detail explains its own permit. */
  lemma PresentationAligned(s: Schema, show: Printer, caps: seq<Capability>, policies: seq<Policy>, p: Presentation)
    requires Compiled(s, caps, policies)
    requires |p.grants| == |caps| && forall i :: 0 <= i < |caps| ==> Describes(s, show, caps[i], p.grants[i])
    ensures |p.grants| == |policies|
    ensures forall i :: 0 <= i < |policies| ==> Explains(s, p.grants[i], policies[i])
    ensures forall i :: 0 <= i < |policies| ==>
              ScopesTo(s, caps[i].resource, policies[i].scope)
              && p.grants[i].resource == (if s.scope.value(caps[i].resource).value.caption == ""
                                          then show(caps[i].resource.fields)
                                          else s.scope.value(caps[i].resource).value.caption)
  {
    forall i | 0 <= i < |policies|
      ensures Explains(s, p.grants[i], policies[i]) && ScopesTo(s, caps[i].resource, policies[i].scope)
    {
      assert HasHeadOf(s, caps[i], policies[i]) && Describes(s, show, caps[i], p.grants[i]);
    }
  }
}
