/** The GitHub resource server: its references, its scope resolver, and what a scope covers. */
module GitHub {
  import opened Basics
  import opened Strings
  import opened Reachability
  import opened Cedar
  import opened Schemas
  import opened Compiler
  import opened CompilerLaws
  import opened Templates

  // ---------- References ----------

  /** The reference an operation declares. */
  datatype AuthzRef = AuthzRef(typ: string, id: string, attrs: map<string, Json>, parent: Option<AuthzRef>)

  function OrgRef(owner: string): AuthzRef { AuthzRef("github.org", owner, map[], None) }

  /** The text before the first slash; all of it when there is none. */
  function OwnerOf(full: string): string
  {
    match Cut(full, '/') case Some((owner, _)) => owner case None => full
  }

  function RepoRef(full: string): AuthzRef { AuthzRef("github.repo", full, map[], Some(OrgRef(OwnerOf(full)))) }

  function NumberedId(full: string, number: int): string { full + "#" + FormatInt(number) }

  function IssueRef(full: string, number: int): AuthzRef
  {
    AuthzRef("github.issue", NumberedId(full, number), map[], Some(RepoRef(full)))
  }

  function PullRef(full: string, number: int): AuthzRef
  {
    AuthzRef("github.pull", NumberedId(full, number), map[], Some(RepoRef(full)))
  }

  function ApiRef(): AuthzRef { AuthzRef("github.api", "github", map[], None) }

  function ConvertRef(r: AuthzRef): ResourceRef
  {
    ResourceRef(r.typ, r.id, r.attrs, match r.parent case None => None case Some(p) => Some(ConvertRef(p)))
  }

  /** Every kind of thing an operation or a proxied request can act on. */
  datatype Target = Org(owner: string) | Repo(full: string) | Issue(full: string, number: int)
      | Pull(full: string, number: int) | Api

  function RefOf(t: Target): ResourceRef
  {
    ConvertRef(match t
      case Org(owner) => OrgRef(owner)
      case Repo(full) => RepoRef(full)
      case Issue(full, number) => IssueRef(full, number)
      case Pull(full, number) => PullRef(full, number)
      case Api => ApiRef())
  }

  /** Issue and pull request ids determine the repository and the number. */
  lemma NumberedIdInjective(full: string, number: int, full': string, number': int)
    requires NumberedId(full, number) == NumberedId(full', number')
    ensures full == full' && number == number'
  {
    DecimalDigits(if number < 0 then -number else number);
    DecimalDigits(if number' < 0 then -number' else number');
    LastSeparatorSplits(full, FormatInt(number), full', FormatInt(number'), '#');
    FormatIntInjective(number, number');
  }

  // ---------- The schema ----------

  function ResourceTypes(): seq<ResourceType>
  {
    [ResourceType("github.org", "Organization / owner", "GitHub::Org", ""),
     ResourceType("github.repo", "Repository", "GitHub::Repo", "github.org"),
     ResourceType("github.issue", "Issue", "GitHub::Issue", "github.repo"),
     ResourceType("github.comment", "Issue comment", "GitHub::IssueComment", "github.issue"),
     ResourceType("github.pull", "Pull request", "GitHub::PullRequest", "github.repo"),
     ResourceType("github.branch", "Branch", "GitHub::Branch", "github.repo")]
  }

  function Field(sel: ResourceSelector, name: string): string
  {
    if name in sel.fields then sel.fields[name] else ""
  }

  /** A repository, or its owner when the name is missing or a wildcard. */
  function Scope(sel: ResourceSelector): Result<Scoped, string>
  {
    if sel.typ != "github.repo" then Err("unsupported resource type")
    else
      var owner, name := Field(sel, "owner"), Field(sel, "name");
      if owner == "" then Err("resource match requires an owner")
      else if name != "" && name != "*" then
        Ok(Scoped(EntityRef("GitHub::Repo", owner + "/" + name), owner + "/" + name))
      else
        Ok(Scoped(EntityRef("GitHub::Org", owner), "all repositories under " + owner))
  }

  /** The GitHub schema over any vocabulary of groups, actions and templates. */
  function GitHubSchema(groups: seq<Group>, actions: seq<Action>, templates: seq<Template>): Schema
  {
    Schema("GitHub::Agent", "GitHub::Action", "agent", ResourceTypes(), groups, actions, templates, Some(Scope))
  }

  ghost predicate IsGitHub(s: Schema)
  {
    s == GitHubSchema(s.groups, s.actions, s.templates)
  }

  function TypeOf(t: Target): string
  {
    match t
    case Org(_) => "GitHub::Org"
    case Repo(_) => "GitHub::Repo"
    case Issue(_, _) => "GitHub::Issue"
    case Pull(_, _) => "GitHub::PullRequest"
    case Api => ""
  }

  lemma LookUpFrom(rs: seq<ResourceType>, i: nat, name: string)
    requires i < |rs|
    ensures EntityTypeOf(rs[i..], name) == if rs[i].name == name then rs[i].entity else EntityTypeOf(rs[i + 1..], name)
  {
    assert rs[i..][1..] == rs[i + 1..];
  }

  lemma EntityTypes(name: string)
    ensures EntityTypeOf(ResourceTypes(), name) ==
            if name == "github.org" then "GitHub::Org"
            else if name == "github.repo" then "GitHub::Repo"
            else if name == "github.issue" then "GitHub::Issue"
            else if name == "github.comment" then "GitHub::IssueComment"
            else if name == "github.pull" then "GitHub::PullRequest"
            else if name == "github.branch" then "GitHub::Branch" else ""
  {
    var rs := ResourceTypes();
    assert rs[0..] == rs && rs[6..] == [];
    LookUpFrom(rs, 0, name);
    LookUpFrom(rs, 1, name);
    LookUpFrom(rs, 2, name);
    LookUpFrom(rs, 3, name);
    LookUpFrom(rs, 4, name);
    LookUpFrom(rs, 5, name);
  }

  lemma TargetType(s: Schema, t: Target)
    requires IsGitHub(s)
    ensures EntityRefOf(s, RefOf(t)).typ == TypeOf(t)
  {
    EntityTypes(RefOf(t).typ);
  }

  function ParentOf(t: Target): Option<Target>
  {
    match t
    case Org(_) => None
    case Repo(full) => Some(Org(OwnerOf(full)))
    case Issue(full, _) => Some(Repo(full))
    case Pull(full, _) => Some(Repo(full))
    case Api => None
  }

  lemma ParentRef(t: Target)
    ensures RefOf(t).parent == match ParentOf(t) case None => None case Some(p) => Some(RefOf(p))
  {
  }

  /** The entity a target is sent as determines the target. */
  lemma TargetOfEntity(s: Schema, t: Target, t': Target)
    requires IsGitHub(s) && EntityRefOf(s, RefOf(t)) == EntityRefOf(s, RefOf(t'))
    ensures t == t'
  {
    TargetType(s, t);
    TargetType(s, t');
    assert TypeOf(t) == TypeOf(t');
    assert RefOf(t).id == RefOf(t').id;
    if t.Issue? || t.Pull? {
      NumberedIdInjective(t.full, t.number, t'.full, t'.number);
    }
  }

  // ---------- GitHub references make a well-formed world ----------

  ghost predicate OnTargets(reqs: seq<Requirement>)
  {
    forall r :: r in reqs ==> exists t :: r.resource == RefOf(t)
  }

  ghost predicate IsTargetEntity(s: Schema, e: Entity)
  {
    exists t :: e == ResourceEntity(s, RefOf(t))
  }

  lemma {:induction false} ChainOfTargets(s: Schema, t: Target)
    ensures forall e :: e in ChainEntities(s, RefOf(t)) ==> IsTargetEntity(s, e)
    decreases RefOf(t)
  {
    ParentRef(t);
    if ParentOf(t).Some? {
      ChainOfTargets(s, ParentOf(t).value);
    }
  }

  lemma {:induction false} ChainsOfTargets(s: Schema, reqs: seq<Requirement>)
    requires OnTargets(reqs)
    ensures forall e :: e in ChainsEntities(s, reqs) ==> IsTargetEntity(s, e)
  {
    if reqs != [] {
      var last := reqs[|reqs| - 1];
      assert last in reqs;
      var t :| last.resource == RefOf(t);
      ChainOfTargets(s, t);
      ChainsOfTargets(s, reqs[..|reqs| - 1]);
    }
  }

  lemma AgentNulFree()
    ensures '\0' !in "GitHub::Agent" && '\0' !in "GitHub::Action"
  {
  }

  lemma EntityTypesNulFree()
    ensures '\0' !in "GitHub::Org" && '\0' !in "GitHub::Repo" && '\0' !in "GitHub::Issue"
    ensures '\0' !in "GitHub::IssueComment"
  {
  }

  lemma MoreEntityTypesNulFree()
    ensures '\0' !in "GitHub::PullRequest" && '\0' !in "GitHub::Branch"
  {
  }

  lemma GitHubIsNulFree(s: Schema)
    requires IsGitHub(s)
    ensures NulFree(s)
  {
    AgentNulFree();
    EntityTypesNulFree();
    MoreEntityTypesNulFree();
  }

  lemma TargetTypesDisjoint(s: Schema, t: Target)
    requires IsGitHub(s)
    ensures s.agentType != s.actionType
    ensures EntityRefOf(s, RefOf(t)).typ != s.agentType && EntityRefOf(s, RefOf(t)).typ != s.actionType
  {
    TargetType(s, t);
    assert |s.agentType| == 13 && |s.actionType| == 14 && s.actionType[8] == 'A' && s.agentType[8] == 'A';
    assert TypeOf(t) != "" ==> TypeOf(t)[8] != 'A';
  }

  /** Whatever GitHub operations ask about, the assumptions of the meaning theorem hold. */
  lemma GitHubIsWellFormed(s: Schema, reqs: seq<Requirement>)
    requires IsGitHub(s) && OnTargets(reqs)
    ensures WellFormed(s, reqs) && CoherentAttrs(s, reqs)
  {
    GitHubIsNulFree(s);
    TargetTypesDisjoint(s, Api);
    ChainsOfTargets(s, reqs);
    forall e | e in ChainsEntities(s, reqs)
      ensures e.ref.typ != s.agentType && e.ref.typ != s.actionType
    {
      var t :| e == ResourceEntity(s, RefOf(t));
      TargetTypesDisjoint(s, t);
    }
    forall e, f | e in ChainsEntities(s, reqs) && f in ChainsEntities(s, reqs) && e.ref == f.ref
      ensures e == f
    {
      var t :| e == ResourceEntity(s, RefOf(t));
      var t' :| f == ResourceEntity(s, RefOf(t'));
      TargetOfEntity(s, t, t');
    }
  }

  // ---------- What a scope covers ----------

  /** The owner lies before the first slash: no other text is an owner's. */
  lemma OwnerIsBeforeSlash(full: string, owner: string)
    ensures OwnerOf(full) == owner <==> '/' !in owner && (full == owner || owner + "/" <= full)
  {
    CutIsExact(full, '/');
    if '/' !in owner && owner + "/" <= full {
      var rest := full[|owner| + 1..];
      assert full == owner + ['/'] + rest;
      CutAt(owner, rest, '/');
    } else if '/' !in owner && full == owner {
      CutNone(full, '/');
    }
  }

  /**
     In text: an owner's entity is above that owner's own references only, a repository's above that
     repository's only.
   */
  lemma {:induction false} TargetAncestry(s: Schema, t: Target, e: EntityRef)
    requires IsGitHub(s)
    ensures e.typ == "GitHub::Repo" ==>
              (e in Ancestry(s, RefOf(t)) <==> (t.Repo? || t.Issue? || t.Pull?) && t.full == e.id)
    ensures e.typ == "GitHub::Org" ==>
              (e in Ancestry(s, RefOf(t)) <==>
                 || (t.Org? && t.owner == e.id)
                 || ((t.Repo? || t.Issue? || t.Pull?) && '/' !in e.id && (t.full == e.id || e.id + "/" <= t.full)))
    decreases RefOf(t)
  {
    TargetType(s, t);
    ParentRef(t);
    if t.Repo? || t.Issue? || t.Pull? {
      OwnerIsBeforeSlash(t.full, e.id);
    }
    if ParentOf(t).Some? {
      TargetAncestry(s, ParentOf(t).value, e);
    }
  }

  predicate Named(sel: ResourceSelector)
  {
    "name" in sel.fields && sel.fields["name"] != "" && sel.fields["name"] != "*"
  }

  /** The selector picks the target: its exact repository, or anything of its owner. */
  predicate Selects(sel: ResourceSelector, t: Target)
  {
    && sel.typ == "github.repo" && "owner" in sel.fields && sel.fields["owner"] != ""
    && var owner := sel.fields["owner"];
       if Named(sel) then (t.Repo? || t.Issue? || t.Pull?) && t.full == owner + "/" + sel.fields["name"]
       else || (t.Org? && t.owner == owner)
            || ((t.Repo? || t.Issue? || t.Pull?) && '/' !in owner && (t.full == owner || owner + "/" <= t.full))
  }

  /** Scoping is exact: a capability covers a target exactly when its selector picks it. */
  lemma ScopeIsExact(s: Schema, c: Capability, r: Requirement, t: Target)
    requires IsGitHub(s) && r.resource == RefOf(t)
    ensures Covers(s, c, r)
            <==> (exists a :: a in c.actions && Reaches(Lattice(s), r.action, a)) && Selects(c.resource, t)
  {
    if Scope(c.resource).Ok? {
      var e := Scope(c.resource).value.entity;
      TargetAncestry(s, t, e);
      assert ScopesTo(s, c.resource, e);
      assert e in Ancestry(s, RefOf(t)) <==> Selects(c.resource, t);
    }
  }

  /** A selector with an owner and no name covers exactly what lies under that owner. */
  lemma OwnerWideIsExact(s: Schema, c: Capability, r: Requirement, t: Target, owner: string)
    requires IsGitHub(s) && r.resource == RefOf(t) && (t.Repo? || t.Issue? || t.Pull?)
    requires c.resource.typ == "github.repo" && owner != "" && '/' !in owner
    requires "owner" in c.resource.fields && c.resource.fields["owner"] == owner
    requires "name" !in c.resource.fields || c.resource.fields["name"] == "" || c.resource.fields["name"] == "*"
    ensures Covers(s, c, r) <==>
              && (exists a :: a in c.actions && Reaches(Lattice(s), r.action, a))
              && (t.full == owner || owner + "/" <= t.full)
  {
    ScopeIsExact(s, c, r, t);
  }

  /** A selector with an owner and a name covers exactly that repository with its issues and pull requests. */
  lemma RepositoryIsExact(s: Schema, c: Capability, r: Requirement, t: Target, owner: string, name: string)
    requires IsGitHub(s) && r.resource == RefOf(t)
    requires c.resource.typ == "github.repo" && owner != "" && name != "" && name != "*"
    requires "owner" in c.resource.fields && c.resource.fields["owner"] == owner
    requires "name" in c.resource.fields && c.resource.fields["name"] == name
    ensures Covers(s, c, r) <==>
              && (exists a :: a in c.actions && Reaches(Lattice(s), r.action, a))
              && (t.Repo? || t.Issue? || t.Pull?) && t.full == owner + "/" + name
  {
    ScopeIsExact(s, c, r, t);
  }

  /** Naming a repository covers nothing that its owner alone would not. */
  lemma RepositoryIsWithinOwner(s: Schema, c: Capability, wide: Capability, r: Requirement, t: Target)
    requires IsGitHub(s) && r.resource == RefOf(t) && Covers(s, c, r)
    requires "owner" in c.resource.fields && '/' !in c.resource.fields["owner"] && Named(c.resource)
    requires wide.actions == c.actions && wide.resource
             == ResourceSelector("github.repo", map["owner" := c.resource.fields["owner"]])
    ensures Covers(s, wide, r)
  {
    ScopeIsExact(s, c, r, t);
    ScopeIsExact(s, wide, r, t);
  }

  /** The entity each reference is sent as. */
  lemma TargetsAsSent(s: Schema, r: Requirement, t: Target)
    requires IsGitHub(s) && r.resource == RefOf(t)
    ensures t.Org? ==> Question(s, r).resource == EntityRef("GitHub::Org", t.owner)
    ensures t.Repo? ==> Question(s, r).resource == EntityRef("GitHub::Repo", t.full)
    ensures t.Issue? ==> Question(s, r).resource == EntityRef("GitHub::Issue", t.full + "#" + FormatInt(t.number))
    ensures t.Pull? ==> Question(s, r).resource == EntityRef("GitHub::PullRequest", t.full + "#" + FormatInt(t.number))
    ensures t.Api? ==> Question(s, r).resource == EntityRef("", "github")
  {
    TargetType(s, t);
  }

  /** What a compiled GitHub bundle allows, said without policies or entities. */
  lemma GitHubDecision(s: Schema, caps: seq<Capability>, policies: seq<Policy>, reqs: seq<Requirement>,
                       targets: seq<Target>, world: seq<Entity>)
    requires IsGitHub(s) && Compiled(s, caps, policies) && IsWorld(s, reqs, world)
    requires |targets| == |reqs| && forall k :: 0 <= k < |reqs| ==> reqs[k].resource == RefOf(targets[k])
    ensures Decision(LastWins(world), policies, Questions(s, reqs)) <==>
            reqs != [] && forall k :: 0 <= k < |reqs| ==>
              exists i :: 0 <= i < |caps| && Selects(caps[i].resource, targets[k])
                          && exists a :: a in caps[i].actions && Reaches(Lattice(s), reqs[k].action, a)
  {
    forall r | r in reqs
      ensures exists t :: r.resource == RefOf(t)
    {
      var k :| 0 <= k < |reqs| && reqs[k] == r;
      assert r.resource == RefOf(targets[k]);
    }
    GitHubIsWellFormed(s, reqs);
    CompilationPreservesMeaning(s, caps, policies, reqs, world);
    forall k, i | 0 <= k < |reqs| && 0 <= i < |caps|
      ensures Covers(s, caps[i], reqs[k]) <==>
              && Selects(caps[i].resource, targets[k])
              && exists a :: a in caps[i].actions && Reaches(Lattice(s), reqs[k].action, a)
    {
      ScopeIsExact(s, caps[i], reqs[k], targets[k]);
    }
    forall k | 0 <= k < |reqs|
      ensures reqs[k] in reqs
    {
    }
  }

  lemma NoAttributesNoConditions(t: Template, bindings: map<string, string>)
    ensures ConditionsHold(t, bindings, map[]) <==> Conditions(t.params, bindings) == []
  {
    if Conditions(t.params, bindings) != [] {
      assert EvalPred(RecordFrom(map[]), Conditions(t.params, bindings)[0]) == Failed;
    }
  }

  lemma TargetsCarryNoAttributes(reqs: seq<Requirement>, r: Requirement)
    requires OnTargets(reqs) && r in reqs
    ensures r.resource.attrs == map[]
  {
  }

  /**
   GitHub references carry no attributes, so a template with any condition in force allows nothing
   on them, and one without allows what its freeform capability covers.
   */
  lemma ConditionedTemplatesAllowNothing(s: Schema, t: Template, bindings: map<string, string>, p: Policy,
                                         reqs: seq<Requirement>, world: seq<Entity>, r: Requirement)
    requires IsGitHub(s) && OnTargets(reqs) && IsWorld(s, reqs, world) && r in reqs && IsExpansion(s, t, bindings, p)
    ensures Satisfied(LastWins(world), p, Question(s, r)) <==>
            Conditions(t.params, bindings) == [] && Covers(s, Freeform(t, bindings), r)
  {
    TargetsCarryNoAttributes(reqs, r);
    NoAttributesNoConditions(t, bindings);
    GitHubIsWellFormed(s, reqs);
    ExpansionMeaning(s, t, bindings, p, reqs, world, r);
  }

  // ---------- The shipped conditional template ----------

  function OwnerParam(): TemplateParam { TemplateParam("owner", true, "", "", "owner", "", "") }

  function NameParam(): TemplateParam { TemplateParam("name", false, "", "", "name", "", "") }

  function StateParam(): TemplateParam { TemplateParam("state", false, "", "open", "", "state", "eq") }

  function LabelParam(): TemplateParam { TemplateParam("label", false, "", "", "", "labels", "contains") }

  function CommentOnOpenIssues(): Template
  {
    Template("comment-on-open-issues", "Comment on open issues",
        "Comment on open issues in {owner}/{name} labeled {label}",
             ["issue.comment"], "github.repo", [OwnerParam(), NameParam(), StateParam(), LabelParam()])
  }

  lemma ConditionsOfTwoMore(params: seq<TemplateParam>, a: TemplateParam, b: TemplateParam,
                            bindings: map<string, string>)
    ensures Conditions(params + [a, b], bindings)
            == Conditions(params, bindings) + ConditionOf(a, bindings) + ConditionOf(b, bindings)
  {
    assert (params + [a, b])[..|params| + 1] == params + [a];
    assert (params + [a])[..|params|] == params;
  }

  /** Whatever the client binds, the state condition is in force, and the label condition when a label is given. */
  lemma ConditionsOnOpenIssues(bindings: map<string, string>)
    ensures Conditions(CommentOnOpenIssues().params, bindings) ==
            [Eq("state", "open")] + if ValueOf(LabelParam(), bindings) == "" then []
                else [Contains("labels", ValueOf(LabelParam(), bindings))]
  {
    var scopeParams := [OwnerParam(), NameParam()];
    assert CommentOnOpenIssues().params == scopeParams + [StateParam(), LabelParam()];
    ConditionsOfTwoMore(scopeParams, StateParam(), LabelParam(), bindings);
    ConditionsOfTwoMore([], OwnerParam(), NameParam(), bindings);
    assert [] + scopeParams == scopeParams;
  }

  /** The shipped template for commenting on open issues never authorizes anything, whatever it is bound to. */
  lemma CommentOnOpenIssuesAllowsNothing(s: Schema, bindings: map<string, string>, p: Policy, reqs: seq<Requirement>,
                                         world: seq<Entity>, r: Requirement)
    requires IsGitHub(s) && OnTargets(reqs) && IsWorld(s, reqs, world) && r in reqs
             && IsExpansion(s, CommentOnOpenIssues(), bindings, p)
    ensures !Satisfied(LastWins(world), p, Question(s, r))
  {
    ConditionsOnOpenIssues(bindings);
    ConditionedTemplatesAllowNothing(s, CommentOnOpenIssues(), bindings, p, reqs, world, r);
  }

  lemma FaultsOfOpenIssues(bindings: map<string, string>)
    ensures FirstParamFault(CommentOnOpenIssues().params, bindings) ==
            if ValueOf(OwnerParam(), bindings) == "" then Some(MissingParameter("owner")) else None
  {
    var params := CommentOnOpenIssues().params;
    assert ParamFault(NameParam(), bindings) == None && ParamFault(StateParam(), bindings) == None;
    assert ParamFault(LabelParam(), bindings) == None;
    if ParamFault(OwnerParam(), bindings) == None {
      FirstParamFaultAt(params, bindings, 4);
      assert params[4..] == [];
    }
  }

  lemma FieldsOfTwoMore(params: seq<TemplateParam>, a: TemplateParam, b: TemplateParam, bindings: map<string, string>)
    requires a.field == "" && b.field == ""
    ensures ScopeFields(params + [a, b], bindings) == ScopeFields(params, bindings)
  {
    assert (params + [a, b])[..|params| + 1] == params + [a];
    assert (params + [a])[..|params|] == params;
  }

  lemma OwnerOfOpenIssues(bindings: map<string, string>)
    ensures Field(Freeform(CommentOnOpenIssues(), bindings).resource, "owner") == ValueOf(OwnerParam(), bindings)
  {
    var scopeParams := [OwnerParam(), NameParam()];
    assert CommentOnOpenIssues().params == scopeParams + [StateParam(), LabelParam()];
    FieldsOfTwoMore(scopeParams, StateParam(), LabelParam(), bindings);
    assert scopeParams[..1] == [OwnerParam()] && [OwnerParam()][..0] == [];
    assert ScopeFields([], bindings) == map[];
    assert "owner" != "name" by { assert |"owner"| != |"name"|; }
  }

  /** Yet it is signed and shown for approval whenever an owner is given. */
  lemma CommentOnOpenIssuesIsIssued(s: Schema, bindings: map<string, string>)
    requires IsGitHub(s) && FindTemplate(s.templates, CommentOnOpenIssues().name) == Some(CommentOnOpenIssues())
             && HasAction(s, "issue.comment")
    ensures ExpansionFault(s, CommentOnOpenIssues().name, bindings) == None <==> ValueOf(OwnerParam(), bindings) != ""
  {
    FaultsOfOpenIssues(bindings);
    OwnerOfOpenIssues(bindings);
    FirstUnknownNone(s, CommentOnOpenIssues().actions);
  }
}
