/** The permission vocabulary of a resource server. */
module Schemas {
  import opened Basics
  import opened Cedar

  datatype ResourceType = ResourceType(name: string, title: string, entity: string, parent: string)

  datatype Group = Group(name: string, title: string, description: string, parents: seq<string>)

  datatype Action = Action(name: string, title: string, description: string, groups: seq<string>)

  datatype TemplateParam = TemplateParam(
    name: string, required: bool, default: string, fixed: string, field: string, attr: string, op: string)

  datatype Template = Template(
    name: string, title: string, summary: string, actions: seq<string>, scope: string, params: seq<TemplateParam>)

  datatype ResourceSelector = ResourceSelector(typ: string, fields: map<string, string>)

  datatype Capability = Capability(actions: seq<string>, resource: ResourceSelector)

  /** What a scope resolver answers: the entity a permit is scoped to and its caption for humans. */
  datatype Scoped = Scoped(entity: EntityRef, caption: string)

  type ScopeFunc = ResourceSelector -> Result<Scoped, string>

  datatype Schema = Schema(
    agentType: string, actionType: string, agentId: string,
    resources: seq<ResourceType>, groups: seq<Group>, actions: seq<Action>, templates: seq<Template>,
    scope: Option<ScopeFunc>)

  function Agent(s: Schema): EntityRef { EntityRef(s.agentType, s.agentId) }

  function ActionRef(s: Schema, name: string): EntityRef { EntityRef(s.actionType, name) }

  /** The declared parents of each group; the last declaration of a name counts. */
  function GroupParents(groups: seq<Group>): map<string, seq<string>>
  {
    if groups == [] then map[]
    else
      var last := groups[|groups| - 1];
      GroupParents(groups[..|groups| - 1])[last.name := last.parents]
  }

  function ActionGroups(actions: seq<Action>): map<string, seq<string>>
  {
    if actions == [] then map[]
    else
      var last := actions[|actions| - 1];
      ActionGroups(actions[..|actions| - 1])[last.name := last.groups]
  }

  /** Every action and group name with its direct parents. An action hides a group of its name. */
  function Lattice(s: Schema): map<string, seq<string>>
  {
    GroupParents(s.groups) + ActionGroups(s.actions)
  }

  method ActionLattice(s: Schema) returns (lattice: map<string, seq<string>>)
    ensures lattice == Lattice(s)
    ensures forall n :: n in lattice <==>
              (exists g :: g in s.groups && g.name == n) || (exists a :: a in s.actions && a.name == n)
    ensures forall i :: 0 <= i < |s.actions| && LastNamed(ActionNames(s.actions), i) ==>
              lattice[s.actions[i].name] == s.actions[i].groups
    ensures forall i :: 0 <= i < |s.groups| && LastGroup(s, i) ==>
              lattice[s.groups[i].name] == s.groups[i].parents
  {
    lattice := FillLattice(s);
    LatticeInFields(s);
  }

  method FillLattice(s: Schema) returns (lattice: map<string, seq<string>>)
    ensures lattice == Lattice(s)
  {
    lattice := map[];
    for i := 0 to |s.groups|
      invariant lattice == GroupParents(s.groups[..i])
    {
      lattice := lattice[s.groups[i].name := s.groups[i].parents];
      assert s.groups[..i + 1][..i] == s.groups[..i];
    }
    assert s.groups[..|s.groups|] == s.groups;
    for i := 0 to |s.actions|
      invariant lattice == GroupParents(s.groups) + ActionGroups(s.actions[..i])
    {
      lattice := lattice[s.actions[i].name := s.actions[i].groups];
      assert s.actions[..i + 1][..i] == s.actions[..i];
    }
    assert s.actions[..|s.actions|] == s.actions;
  }

  /** No later entry bears the same name. */
  ghost predicate LastNamed(names: seq<string>, i: nat)
    requires i < |names|
  {
    forall j :: i < j < |names| ==> names[j] != names[i]
  }

  /** The last declaration of a group no action hides. */
  ghost predicate LastGroup(s: Schema, i: nat)
    requires i < |s.groups|
  {
    LastNamed(GroupNames(s.groups), i) && s.groups[i].name !in ActionNames(s.actions)
  }

  function ActionNames(actions: seq<Action>): (names: seq<string>)
    ensures |names| == |actions| && forall i :: 0 <= i < |actions| ==> names[i] == actions[i].name
  {
    seq(|actions|, i requires 0 <= i < |actions| => actions[i].name)
  }

  function GroupNames(groups: seq<Group>): (names: seq<string>)
    ensures |names| == |groups| && forall i :: 0 <= i < |groups| ==> names[i] == groups[i].name
  {
    seq(|groups|, i requires 0 <= i < |groups| => groups[i].name)
  }

  lemma {:induction false} GroupParentsLast(groups: seq<Group>, i: nat)
    requires i < |groups| && LastNamed(GroupNames(groups), i)
    ensures groups[i].name in GroupParents(groups) && GroupParents(groups)[groups[i].name] == groups[i].parents
  {
    if i < |groups| - 1 {
      assert GroupNames(groups)[|groups| - 1] == groups[|groups| - 1].name;
      assert LastNamed(GroupNames(groups[..|groups| - 1]), i) by {
        assert forall j :: i < j < |groups| - 1 ==> GroupNames(groups[..|groups| - 1])[j] == GroupNames(groups)[j];
      }
      GroupParentsLast(groups[..|groups| - 1], i);
    }
  }

  lemma {:induction false} ActionGroupsLast(actions: seq<Action>, i: nat)
    requires i < |actions| && LastNamed(ActionNames(actions), i)
    ensures actions[i].name in ActionGroups(actions) && ActionGroups(actions)[actions[i].name] == actions[i].groups
  {
    if i < |actions| - 1 {
      assert ActionNames(actions)[|actions| - 1] == actions[|actions| - 1].name;
      assert LastNamed(ActionNames(actions[..|actions| - 1]), i) by {
        assert forall j :: i < j < |actions| - 1 ==>
            ActionNames(actions[..|actions| - 1])[j] == ActionNames(actions)[j];
      }
      ActionGroupsLast(actions[..|actions| - 1], i);
    }
  }

  /** The lattice, declaration by declaration. */
  lemma LatticeInFields(s: Schema)
    ensures forall n :: n in Lattice(s) <==>
              (exists g :: g in s.groups && g.name == n) || (exists a :: a in s.actions && a.name == n)
    ensures forall i :: 0 <= i < |s.actions| && LastNamed(ActionNames(s.actions), i) ==>
              Lattice(s)[s.actions[i].name] == s.actions[i].groups
    ensures forall i :: 0 <= i < |s.groups| && LastGroup(s, i) ==>
              Lattice(s)[s.groups[i].name] == s.groups[i].parents
  {
    GroupParentsKeys(s.groups);
    ActionGroupsKeys(s.actions);
    forall i | 0 <= i < |s.actions| && LastNamed(ActionNames(s.actions), i)
      ensures Lattice(s)[s.actions[i].name] == s.actions[i].groups
    {
      ActionGroupsLast(s.actions, i);
    }
    forall i | 0 <= i < |s.groups| && LastGroup(s, i)
      ensures Lattice(s)[s.groups[i].name] == s.groups[i].parents
    {
      GroupParentsLast(s.groups, i);
      DeclaredAction(s.actions, s.groups[i].name);
    }
  }

  lemma {:induction false} DeclaredAction(actions: seq<Action>, n: string)
    ensures n in ActionGroups(actions) <==> n in ActionNames(actions)
  {
    if actions != [] {
      var init, last := actions[..|actions| - 1], actions[|actions| - 1];
      DeclaredAction(init, n);
      assert ActionNames(actions) == ActionNames(init) + [last.name];
    }
  }

  lemma {:induction false} GroupParentsKeys(groups: seq<Group>)
    ensures forall n :: n in GroupParents(groups) <==> exists g :: g in groups && g.name == n
  {
    if groups != [] {
      var init, last := groups[..|groups| - 1], groups[|groups| - 1];
      GroupParentsKeys(init);
      assert groups == init + [last];
    }
  }

  lemma {:induction false} ActionGroupsKeys(actions: seq<Action>)
    ensures forall n :: n in ActionGroups(actions) <==> exists a :: a in actions && a.name == n
  {
    if actions != [] {
      var init, last := actions[..|actions| - 1], actions[|actions| - 1];
      ActionGroupsKeys(init);
      assert actions == init + [last];
    }
  }

  predicate HasAction(s: Schema, name: string) { name in Lattice(s) }

  /** The vocabulary is exactly the declared groups and actions. */
  lemma HasActionMeansDeclared(s: Schema, name: string)
    ensures HasAction(s, name) <==>
            (exists g :: g in s.groups && g.name == name) || (exists a :: a in s.actions && a.name == name)
  {
    GroupParentsKeys(s.groups);
    ActionGroupsKeys(s.actions);
  }

  /** The entity type of a resource type; the empty type when the name is unknown. */
  function EntityTypeOf(resources: seq<ResourceType>, name: string): string
  {
    if resources == [] then ""
    else if resources[0].name == name then resources[0].entity
    else EntityTypeOf(resources[1..], name)
  }

  /** The first resource type of a name gives its entity type. */
  lemma {:induction false} EntityTypeIsFirst(resources: seq<ResourceType>, i: nat, name: string)
    requires i <= |resources| && forall j :: 0 <= j < i ==> resources[j].name != name
    requires i < |resources| ==> resources[i].name == name
    ensures EntityTypeOf(resources, name) == if i < |resources| then resources[i].entity else ""
  {
    if i > 0 {
      EntityTypeIsFirst(resources[1..], i - 1, name);
    }
  }

  /** A resource being acted on, with its chain of parents in the catalog. */
  datatype ResourceRef = ResourceRef(typ: string, id: string, attrs: map<string, Json>, parent: Option<ResourceRef>)

  datatype Requirement = Requirement(action: string, resource: ResourceRef, context: map<string, string>)

  function EntityRefOf(s: Schema, r: ResourceRef): EntityRef
  {
    EntityRef(EntityTypeOf(s.resources, r.typ), r.id)
  }

  /** The resource and everything it is cataloged under, nearest first. */
  function Ancestry(s: Schema, r: ResourceRef): seq<EntityRef>
  {
    [EntityRefOf(s, r)] + match r.parent case None => [] case Some(p) => Ancestry(s, p)
  }
}
