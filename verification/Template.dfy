/** Permission templates: parameterized shapes expanded into one conditional permit. */
module Templates {
  import opened Basics
  import opened Cedar
  import opened Schemas
  import opened Compiler
  import opened CompilerLaws
  import opened Presentations
  import opened Substitution

  function FindTemplate(templates: seq<Template>, name: string): Option<Template>
  {
    if templates == [] then None
    else if templates[0].name == name then Some(templates[0])
    else FindTemplate(templates[1..], name)
  }

  /** The first template of the name is found, and nothing exactly when none bears it. */
  lemma {:induction false} FoundIsFirst(templates: seq<Template>, name: string)
    ensures FindTemplate(templates, name) == None <==> forall t :: t in templates ==> t.name != name
    ensures FindTemplate(templates, name).Some? ==>
              exists i :: 0 <= i < |templates| && templates[i] == FindTemplate(templates, name).value
                          && templates[i].name == name && forall j :: 0 <= j < i ==> templates[j].name != name
  {
    if templates != [] && templates[0].name != name {
      FoundIsFirst(templates[1..], name);
      assert templates == [templates[0]] + templates[1..];
      if FindTemplate(templates[1..], name).Some? {
        var i :| 0 <= i < |templates[1..]| && templates[1..][i] == FindTemplate(templates[1..], name).value
                 && templates[1..][i].name == name && forall j :: 0 <= j < i ==> templates[1..][j].name != name;
        assert templates[i + 1] == templates[1..][i] && forall j :: 0 < j < i + 1 ==>
            templates[j] == templates[1..][j - 1];
      }
    }
  }

  // ---------- Parameters ----------

  /** The author's pinned value, else the client's, else the default. */
  function ValueOf(pm: TemplateParam, bindings: map<string, string>): string
  {
    if pm.fixed != "" then pm.fixed
    else if pm.name in bindings && bindings[pm.name] != "" then bindings[pm.name]
    else pm.default
  }

  /** A condition for the policy and the same condition for the human. */
  function ConditionLiteral(attr: string, op: string, value: string): Result<(Pred, string), SignError>
  {
    if op == "eq" || op == "" then Ok((Eq(attr, value), attr + " is " + value))
    else if op == "contains" then Ok((Contains(attr, value), attr + " contains " + value))
    else if op == "like" then Ok((Like(attr, value), attr + " matches " + value))
    else Err(UnsupportedOperator(op))
  }

  function Phrase(p: Pred): string
  {
    match p
    case Eq(attr, value) => attr + " is " + value
    case Contains(attr, value) => attr + " contains " + value
    case Like(attr, value) => attr + " matches " + value
  }

  predicate IsCondition(pm: TemplateParam, bindings: map<string, string>)
  {
    pm.field == "" && pm.attr != "" && ValueOf(pm, bindings) != ""
  }

  predicate IsScopeField(pm: TemplateParam, bindings: map<string, string>)
  {
    pm.field != "" && ValueOf(pm, bindings) != ""
  }

  /** What makes a parameter fail, if anything. */
  function ParamFault(pm: TemplateParam, bindings: map<string, string>): Option<SignError>
  {
    var v := ValueOf(pm, bindings);
    if v == "" && pm.required then Some(MissingParameter(pm.name))
    else if IsCondition(pm, bindings) && ConditionLiteral(pm.attr, pm.op, v).Err?
    then Some(ConditionLiteral(pm.attr, pm.op, v).error)
    else None
  }

  function FirstParamFault(params: seq<TemplateParam>, bindings: map<string, string>): Option<SignError>
  {
    if params == [] then None
    else if ParamFault(params[0], bindings).Some? then ParamFault(params[0], bindings)
    else FirstParamFault(params[1..], bindings)
  }

  lemma {:induction false} FirstParamFaultAt(params: seq<TemplateParam>, bindings: map<string, string>, i: nat)
    requires i <= |params| && forall j :: 0 <= j < i ==> ParamFault(params[j], bindings) == None
    ensures FirstParamFault(params, bindings) == FirstParamFault(params[i..], bindings)
  {
    if i > 0 {
      FirstParamFaultAt(params[1..], bindings, i - 1);
      assert params[1..][i - 1..] == params[i..];
    } else {
      assert params[0..] == params;
    }
  }

  /** The condition one parameter contributes, if any. */
  function ConditionOf(pm: TemplateParam, bindings: map<string, string>): seq<Pred>
  {
    if IsCondition(pm, bindings) then
      match ConditionLiteral(pm.attr, pm.op, ValueOf(pm, bindings))
      case Ok((pred, _)) => [pred]
      case Err(_) => []
    else []
  }

  /** The conditions of a template under given bindings, in declaration order. */
  function Conditions(params: seq<TemplateParam>, bindings: map<string, string>): seq<Pred>
  {
    if params == [] then []
    else
      var init, last := params[..|params| - 1], params[|params| - 1];
      Conditions(init, bindings) + ConditionOf(last, bindings)
  }

  function Phrases(preds: seq<Pred>): seq<string>
  {
    seq(|preds|, i requires 0 <= i < |preds| => Phrase(preds[i]))
  }

  /** The scope selector's fields; the last parameter filling a field counts. */
  function ScopeFields(params: seq<TemplateParam>, bindings: map<string, string>): map<string, string>
  {
    if params == [] then map[]
    else
      var init, last := params[..|params| - 1], params[|params| - 1];
      if IsScopeField(last, bindings) then ScopeFields(init, bindings)[last.field := ValueOf(last, bindings)]
      else ScopeFields(init, bindings)
  }

  function Values(params: seq<TemplateParam>, bindings: map<string, string>): map<string, string>
  {
    if params == [] then map[]
    else
      var init, last := params[..|params| - 1], params[|params| - 1];
      Values(init, bindings)[last.name := ValueOf(last, bindings)]
  }

  /** The freeform capability a template instance stands for, its conditions aside. */
  function Freeform(t: Template, bindings: map<string, string>): Capability
  {
    Capability(t.actions, ResourceSelector(t.scope, ScopeFields(t.params, bindings)))
  }

  // ---------- Expansion ----------

  /** Why an expansion fails, in the order the checks are made. */
  function ExpansionFault(s: Schema, name: string, bindings: map<string, string>): Option<SignError>
  {
    var found := FindTemplate(s.templates, name);
    if found.None? then Some(UnknownTemplate)
    else if s.scope.None? then Some(NoScopeResolver)
    else
      var t := found.value;
      if FirstParamFault(t.params, bindings).Some? then FirstParamFault(t.params, bindings)
      else match s.scope.value(Freeform(t, bindings).resource)
        case Err(e) => Some(ScopeFailed(e))
        case Ok(_) =>
          if FirstUnknown(s, t.actions).Some? then Some(UnknownAction(FirstUnknown(s, t.actions).value)) else None
  }

  /** One permit with the head of the freeform capability, plus the conditions. */
  ghost predicate IsExpansion(s: Schema, t: Template, bindings: map<string, string>, p: Policy)
  {
    HasHeadOf(s, Freeform(t, bindings), p) && p.preds == Conditions(t.params, bindings)
  }

  ghost predicate Presents(s: Schema, t: Template, bindings: map<string, string>, p: Policy, pres: Presentation)
  {
    && pres.title == t.title
    && Rendering(t.summary, Values(t.params, bindings), pres.summary)
    && |pres.grants| == 1
    && Explains(s, pres.grants[0], p)
    && ScopesTo(s, Freeform(t, bindings).resource, p.scope)
    && pres.grants[0].resource == s.scope.value(Freeform(t, bindings).resource).value.caption
    && pres.grants[0].conditions == Phrases(p.preds)
  }

  method ExpandTemplate(s: Schema, name: string, bindings: map<string, string>)
    returns (r: Result<(Policy, Presentation), SignError>)
    ensures r.Err? ==> ExpansionFault(s, name, bindings) == Some(r.error)
    ensures r.Ok? ==> ExpansionFault(s, name, bindings) == None
                      && IsExpansion(s, FindTemplate(s.templates, name).value, bindings, r.value.0)
                      && Presents(s, FindTemplate(s.templates, name).value, bindings, r.value.0, r.value.1)
    ensures r.Ok? ==>
              exists t :: && t in s.templates && t.name == name && r.value.1.title == t.title
                          && r.value.0.preds == Conditions(t.params, bindings)
                          && |r.value.0.actions| == |t.actions|
                          && (forall k :: 0 <= k < |t.actions| ==>
                              r.value.0.actions[k] == EntityRef(s.actionType, t.actions[k]))
                          && s.scope.Some?
                          && s.scope.value(ResourceSelector(t.scope, ScopeFields(t.params, bindings))).Ok?
                          && r.value.0.scope
                              == s.scope.value(ResourceSelector(t.scope, ScopeFields(t.params, bindings))).value.entity
    ensures r.Ok? ==> r.value.0.effect == Permit && r.value.0.principal == EntityRef(s.agentType, s.agentId)
    ensures r.Ok? ==> |r.value.1.grants| == 1 && |r.value.1.grants[0].conditions| == |r.value.0.preds|
    ensures r.Ok? ==>
              forall k :: 0 <= k < |r.value.0.preds| ==>
                var p := r.value.0.preds[k];
                r.value.1.grants[0].conditions[k] ==
                p.attr + (if p.Eq? then " is " else if p.Contains? then " contains " else " matches ") + p.value
  {
    r := Expand(s, name, bindings);
    if r.Ok? {
      FoundIsFirst(s.templates, name);
      ExpansionInFields(s, FindTemplate(s.templates, name).value, bindings, r.value.0, r.value.1);
    }
  }

  lemma ExpansionInFields(s: Schema, t: Template, bindings: map<string, string>, p: Policy, pres: Presentation)
    requires IsExpansion(s, t, bindings, p) && Presents(s, t, bindings, p, pres)
    ensures p.effect == Permit && p.principal == EntityRef(s.agentType, s.agentId)
            && p.preds == Conditions(t.params, bindings)
    ensures |p.actions| == |t.actions|
    ensures forall k :: 0 <= k < |t.actions| ==> p.actions[k] == EntityRef(s.actionType, t.actions[k])
    ensures s.scope.Some? && s.scope.value(ResourceSelector(t.scope, ScopeFields(t.params, bindings))).Ok?
    ensures p.scope == s.scope.value(ResourceSelector(t.scope, ScopeFields(t.params, bindings))).value.entity
    ensures pres.title == t.title && |pres.grants| == 1 && |pres.grants[0].conditions| == |p.preds|
    ensures forall k :: 0 <= k < |p.preds| ==>
              pres.grants[0].conditions[k] ==
              p.preds[k].attr + (if p.preds[k].Eq? then " is " else if p.preds[k].Contains? then " contains "
                  else " matches ")
              + p.preds[k].value
  {
  }

  method Expand(s: Schema, name: string, bindings: map<string, string>)
    returns (r: Result<(Policy, Presentation), SignError>)
    ensures r.Err? ==> ExpansionFault(s, name, bindings) == Some(r.error)
    ensures r.Ok? ==> ExpansionFault(s, name, bindings) == None
                      && IsExpansion(s, FindTemplate(s.templates, name).value, bindings, r.value.0)
                      && Presents(s, FindTemplate(s.templates, name).value, bindings, r.value.0, r.value.1)
  {
    var found := FindTemplate(s.templates, name);
    if found.None? {
      return Err(UnknownTemplate);
    }
    var t := found.value;
    if s.scope.None? {
      return Err(NoScopeResolver);
    }
    var bound := BindParams(t.params, bindings);
    if bound.Err? {
      return Err(bound.error);
    }
    var Bound(values, fields, preds, conditions) := bound.value;
    var scoped := s.scope.value(ResourceSelector(t.scope, fields));
    if scoped.Err? {
      return Err(ScopeFailed(scoped.error));
    }
    var lits: seq<EntityRef> := [];
    for k := 0 to |t.actions|
      invariant |lits| == k
      invariant forall j :: 0 <= j < k ==> HasAction(s, t.actions[j]) && lits[j] == ActionRef(s, t.actions[j])
    {
      if !HasAction(s, t.actions[k]) {
        FirstUnknownAt(s, t.actions, k);
        return Err(UnknownAction(t.actions[k]));
      }
      lits := lits + [ActionRef(s, t.actions[k])];
    }
    FirstUnknownNone(s, t.actions);
    var p := Policy(Permit, Agent(s), lits, scoped.value.entity, preds);
    var summary := RenderSummary(t.summary, values);
    var labels := ActionLabels(s, t.actions);
    var detail := GrantDetail(labels, ResourceTypeName(s.resources, scoped.value.entity.typ), scoped.value.caption,
        conditions);
    return Ok((p, Presentation(t.title, summary, [detail])));
  }

  /** What the loop over the parameters accumulates; conditions are kept in two forms. */
  datatype Bound = Bound(values: map<string, string>, fields: map<string, string>, preds: seq<Pred>,
                         conditions: seq<string>)

  function BoundBy(params: seq<TemplateParam>, bindings: map<string, string>): Bound
  {
    Bound(Values(params, bindings), ScopeFields(params, bindings), Conditions(params, bindings),
          Phrases(Conditions(params, bindings)))
  }

  lemma PhrasesAppend(preds: seq<Pred>, more: seq<Pred>)
    ensures Phrases(preds + more) == Phrases(preds) + Phrases(more)
  {
  }

  lemma BoundByOneMore(params: seq<TemplateParam>, bindings: map<string, string>, i: nat)
    requires i < |params|
    ensures var pm, b := params[i], BoundBy(params[..i], bindings);
            BoundBy(params[..i + 1], bindings) == Bound(
              b.values[pm.name := ValueOf(pm, bindings)],
              if IsScopeField(pm, bindings) then b.fields[pm.field := ValueOf(pm, bindings)] else b.fields,
              b.preds + ConditionOf(pm, bindings),
              b.conditions + Phrases(ConditionOf(pm, bindings)))
  {
    assert params[..i + 1][..i] == params[..i];
    PhrasesAppend(Conditions(params[..i], bindings), ConditionOf(params[i], bindings));
  }

  method BindParam(pm: TemplateParam, bindings: map<string, string>, b: Bound) returns (r: Result<Bound, SignError>)
    ensures r.Err? <==> ParamFault(pm, bindings).Some?
    ensures r.Err? ==> ParamFault(pm, bindings) == Some(r.error)
    ensures r.Ok? ==> r.value == Bound(
                        b.values[pm.name := ValueOf(pm, bindings)],
                        if IsScopeField(pm, bindings) then b.fields[pm.field := ValueOf(pm, bindings)] else b.fields,
                        b.preds + ConditionOf(pm, bindings),
                        b.conditions + Phrases(ConditionOf(pm, bindings)))
    ensures var v := if pm.fixed != "" then pm.fixed
                     else if pm.name in bindings && bindings[pm.name] != "" then bindings[pm.name] else pm.default;
            var known := pm.op == "" || pm.op == "eq" || pm.op == "contains" || pm.op == "like";
            && (r == Err(MissingParameter(pm.name)) <==> v == "" && pm.required)
            && (r == Err(UnsupportedOperator(pm.op)) <==> v != "" && pm.field == "" && pm.attr != "" && !known)
            && (r.Ok? <==> (v != "" || !pm.required) && (v != "" && pm.field == "" && pm.attr != "" ==> known))
            && (r.Ok? ==>
                  && r.value.values == b.values[pm.name := v]
                  && r.value.fields == (if v != "" && pm.field != "" then b.fields[pm.field := v] else b.fields)
                  && (if v != "" && pm.field == "" && pm.attr != "" then
                        && r.value.preds == b.preds + [if pm.op == "contains" then Contains(pm.attr, v)
                                                       else if pm.op == "like" then Like(pm.attr, v)
                                                           else Eq(pm.attr, v)]
                        && r.value.conditions == b.conditions
                                                 + [pm.attr + (if pm.op == "contains" then " contains "
                                                               else if pm.op == "like" then " matches "
                                                                   else " is ") + v]
                      else r.value.preds == b.preds && r.value.conditions == b.conditions))
  {
    var v := pm.fixed;
    if v == "" && pm.name in bindings {
      v := bindings[pm.name];
    }
    if v == "" {
      v := pm.default;
    }
    var bound := b.(values := b.values[pm.name := v]);
    if v == "" {
      if pm.required {
        return Err(MissingParameter(pm.name));
      }
      return Ok(bound);
    }
    if pm.field != "" {
      bound := bound.(fields := bound.fields[pm.field := v]);
    } else if pm.attr != "" {
      var condition := ConditionLiteral(pm.attr, pm.op, v);
      if condition.Err? {
        return Err(condition.error);
      }
      bound := bound.(preds := bound.preds + [condition.value.0], conditions := bound.conditions + [condition.value.1]);
    }
    return Ok(bound);
  }

  method BindParams(params: seq<TemplateParam>, bindings: map<string, string>) returns (r: Result<Bound, SignError>)
    ensures r.Err? <==> FirstParamFault(params, bindings).Some?
    ensures r.Err? ==> FirstParamFault(params, bindings) == Some(r.error)
    ensures r.Ok? ==> r.value == BoundBy(params, bindings)
  {
    var bound := Bound(map[], map[], [], []);
    for i := 0 to |params|
      invariant forall j :: 0 <= j < i ==> ParamFault(params[j], bindings) == None
      invariant bound == BoundBy(params[..i], bindings)
    {
      FirstParamFaultAt(params, bindings, i);
      var next := BindParam(params[i], bindings, bound);
      if next.Err? {
        return next;
      }
      BoundByOneMore(params, bindings, i);
      bound := next.value;
    }
    FirstParamFaultAt(params, bindings, |params|);
    assert params[..|params|] == params;
    r := Ok(bound);
  }

  /** Which parameters the conditions come from: in the order of declaration, none left out. */
  ghost predicate ComeFrom(params: seq<TemplateParam>, bindings: map<string, string>, preds: seq<Pred>, from: seq<nat>)
  {
    && |from| == |preds|
    && (forall k :: 0 <= k < |from| ==> from[k] < |params| && ConditionOf(params[from[k]], bindings) == [preds[k]])
    && (forall k, l :: 0 <= k < l < |from| ==> from[k] < from[l])
    && (forall i :: 0 <= i < |params| && ConditionOf(params[i], bindings) != [] ==> i in from)
  }

  lemma OneMoreCondition(params: seq<TemplateParam>, bindings: map<string, string>, preds: seq<Pred>, from: seq<nat>,
                         pm: TemplateParam)
    requires ComeFrom(params, bindings, preds, from)
    ensures if ConditionOf(pm, bindings) == [] then ComeFrom(params + [pm], bindings, preds, from)
            else ComeFrom(params + [pm], bindings, preds + ConditionOf(pm, bindings), from + [|params|])
  {
    var all := params + [pm];
    assert forall i :: 0 <= i < |params| ==> all[i] == params[i];
    assert forall i :: i in from ==> i in from + [|params|];
  }

  /** Each condition comes from one parameter, in the order of declaration, and none is left out. */
  lemma {:induction false} ConditionsInOrder(params: seq<TemplateParam>, bindings: map<string, string>)
      returns (from: seq<nat>)
    ensures ComeFrom(params, bindings, Conditions(params, bindings), from)
  {
    if params == [] {
      from := [];
    } else {
      var init, last := params[..|params| - 1], params[|params| - 1];
      from := ConditionsInOrder(init, bindings);
      OneMoreCondition(init, bindings, Conditions(init, bindings), from, last);
      assert init + [last] == params;
      if ConditionOf(last, bindings) != [] {
        from := from + [|init|];
      }
    }
  }

  /** The last parameter with a value for a field of the scope selector fills it. */
  lemma {:induction false} FieldIsLast(params: seq<TemplateParam>, bindings: map<string, string>, i: nat)
    requires i < |params| && params[i].field != "" && ValueOf(params[i], bindings) != ""
    requires forall j :: i < j < |params| ==> params[j].field != params[i].field || ValueOf(params[j], bindings) == ""
    ensures params[i].field in ScopeFields(params, bindings)
    ensures ScopeFields(params, bindings)[params[i].field] == ValueOf(params[i], bindings)
  {
    if i < |params| - 1 {
      FieldIsLast(params[..|params| - 1], bindings, i);
    }
  }

  lemma {:induction false} FieldsAreFilled(params: seq<TemplateParam>, bindings: map<string, string>, f: string)
    ensures f in ScopeFields(params, bindings) <==>
            exists i :: 0 <= i < |params| && params[i].field == f && f != "" && ValueOf(params[i], bindings) != ""
  {
    if params != [] {
      FieldsAreFilled(params[..|params| - 1], bindings, f);
    }
  }

  /** The last parameter of a name gives the value its placeholder is replaced by. */
  lemma {:induction false} ValueIsLast(params: seq<TemplateParam>, bindings: map<string, string>, i: nat)
    requires i < |params| && forall j :: i < j < |params| ==> params[j].name != params[i].name
    ensures params[i].name in Values(params, bindings)
    ensures Values(params, bindings)[params[i].name] == ValueOf(params[i], bindings)
  {
    if i < |params| - 1 {
      ValueIsLast(params[..|params| - 1], bindings, i);
    }
  }

  /** When an expansion fails, and why, in the order of the checks. */
  lemma ExpansionFaultsExactly(s: Schema, name: string, bindings: map<string, string>)
    ensures ExpansionFault(s, name, bindings) == Some(UnknownTemplate)
            <==> forall t :: t in s.templates ==> t.name != name
    ensures ExpansionFault(s, name, bindings) == None <==>
            && FindTemplate(s.templates, name).Some? && s.scope.Some?
            && var t := FindTemplate(s.templates, name).value;
               && (forall pm :: pm in t.params ==> ParamFault(pm, bindings) == None)
               && s.scope.value(ResourceSelector(t.scope, ScopeFields(t.params, bindings))).Ok?
               && forall a :: a in t.actions ==> HasAction(s, a)
  {
    FoundIsFirst(s.templates, name);
    if FindTemplate(s.templates, name).Some? {
      NoParamFault(FindTemplate(s.templates, name).value.params, bindings);
      FirstUnknownNone(s, FindTemplate(s.templates, name).value.actions);
      NoParamFaultIsNoExpansionFault(s, FindTemplate(s.templates, name).value, bindings);
    }
  }

  lemma NoParamFaultIsNoExpansionFault(s: Schema, t: Template, bindings: map<string, string>)
    ensures FirstParamFault(t.params, bindings) != Some(UnknownTemplate)
  {
    FirstFaultIsOfParam(t.params, bindings);
  }

  lemma {:induction false} FirstFaultIsOfParam(params: seq<TemplateParam>, bindings: map<string, string>)
    ensures FirstParamFault(params, bindings).Some? ==>
              exists i :: 0 <= i < |params| && FirstParamFault(params, bindings) == ParamFault(params[i], bindings)
                          && forall j :: 0 <= j < i ==> ParamFault(params[j], bindings) == None
  {
    if params != [] && ParamFault(params[0], bindings) == None {
      FirstFaultIsOfParam(params[1..], bindings);
      if FirstParamFault(params[1..], bindings).Some? {
        var i :| 0 <= i < |params[1..]| && FirstParamFault(params[1..], bindings)
            == ParamFault(params[1..][i], bindings)
                 && forall j :: 0 <= j < i ==> ParamFault(params[1..][j], bindings) == None;
        assert params[i + 1] == params[1..][i] && forall j :: 0 < j < i + 1 ==> params[j] == params[1..][j - 1];
      }
    }
  }

  lemma {:induction false} NoParamFault(params: seq<TemplateParam>, bindings: map<string, string>)
    ensures FirstParamFault(params, bindings) == None
            <==> forall pm :: pm in params ==> ParamFault(pm, bindings) == None
  {
    if params != [] {
      NoParamFault(params[1..], bindings);
      assert params == [params[0]] + params[1..];
    }
  }

  // ---------- What an expansion authorizes ----------

  /** All the template's conditions hold of the resource's own attributes. */
  ghost predicate ConditionsHold(t: Template, bindings: map<string, string>, attrs: map<string, Json>)
  {
    forall p :: p in Conditions(t.params, bindings) ==> EvalPred(RecordFrom(attrs), p) == True
  }

  /** A template narrows: in any world, what its permit satisfies, the freeform permit satisfies. */
  lemma ExpansionRefinesFreeform(s: Schema, t: Template, bindings: map<string, string>, p: Policy, free: Policy,
                                 em: EntityMap, q: Request)
    requires IsExpansion(s, t, bindings, p) && IsPermitFor(s, Freeform(t, bindings), free)
    ensures Satisfied(em, p, q) <==>
            Satisfied(em, free, q) && forall c :: c in p.preds ==> EvalPred(AttrsOf(em, q.resource), c) == True
  {
    assert p.actions == free.actions;
    EvalAllTrue(AttrsOf(em, q.resource), p.preds);
  }

  /** With no condition in force and at least one action, it is the freeform capability's own permit. */
  lemma UnconditionalExpansionIsFreeform(s: Schema, name: string, bindings: map<string, string>, p: Policy)
    requires ExpansionFault(s, name, bindings) == None
    requires IsExpansion(s, FindTemplate(s.templates, name).value, bindings, p)
    requires FindTemplate(s.templates, name).value.actions != []
    ensures Compiled(s, [Freeform(FindTemplate(s.templates, name).value, bindings)], [p])
            <==> Conditions(FindTemplate(s.templates, name).value.params, bindings) == []
  {
    var c := Freeform(FindTemplate(s.templates, name).value, bindings);
    FirstUnknownNone(s, c.actions);
    assert Fault(s, c) == None;
    if p.preds == [] {
      assert IsPermitFor(s, c, p);
    }
    if Compiled(s, [c], [p]) {
      assert IsPermitFor(s, [c][0], [p][0]);
    }
  }

  /** Two sets of bindings that agree wherever the author left the value open. */
  predicate AgreeOnOpen(params: seq<TemplateParam>, b: map<string, string>, b': map<string, string>)
  {
    forall i :: 0 <= i < |params| && params[i].fixed == "" ==>
      var n := params[i].name;
      (if n in b then b[n] else "") == (if n in b' then b'[n] else "")
  }

  lemma AgreeOnFirst(params: seq<TemplateParam>, b: map<string, string>, b': map<string, string>)
    requires AgreeOnOpen(params, b, b') && params != []
    ensures AgreeOnOpen(params[..|params| - 1], b, b')
            && ValueOf(params[|params| - 1], b) == ValueOf(params[|params| - 1], b')
  {
  }

  lemma {:induction false} SameConditions(params: seq<TemplateParam>, b: map<string, string>, b': map<string, string>)
    requires AgreeOnOpen(params, b, b')
    ensures Conditions(params, b) == Conditions(params, b')
  {
    if params != [] {
      AgreeOnFirst(params, b, b');
      SameConditions(params[..|params| - 1], b, b');
    }
  }

  lemma {:induction false} SameScopeFields(params: seq<TemplateParam>, b: map<string, string>, b': map<string, string>)
    requires AgreeOnOpen(params, b, b')
    ensures ScopeFields(params, b) == ScopeFields(params, b')
  {
    if params != [] {
      AgreeOnFirst(params, b, b');
      SameScopeFields(params[..|params| - 1], b, b');
    }
  }

  lemma {:induction false} SameValues(params: seq<TemplateParam>, b: map<string, string>, b': map<string, string>)
    requires AgreeOnOpen(params, b, b')
    ensures Values(params, b) == Values(params, b')
  {
    if params != [] {
      AgreeOnFirst(params, b, b');
      SameValues(params[..|params| - 1], b, b');
    }
  }

  lemma BindingsCannotTouchFixed(params: seq<TemplateParam>, b: map<string, string>, b': map<string, string>)
    requires AgreeOnOpen(params, b, b')
    ensures Conditions(params, b) == Conditions(params, b')
    ensures ScopeFields(params, b) == ScopeFields(params, b')
    ensures Values(params, b) == Values(params, b')
  {
    SameConditions(params, b, b');
    SameScopeFields(params, b, b');
    SameValues(params, b, b');
  }

  lemma {:induction false} FaultsCannotTouchFixed(params: seq<TemplateParam>, b: map<string, string>,
                                                  b': map<string, string>)
    requires AgreeOnOpen(params, b, b')
    ensures FirstParamFault(params, b) == FirstParamFault(params, b')
  {
    if params != [] {
      assert ValueOf(params[0], b) == ValueOf(params[0], b');
      assert AgreeOnOpen(params[1..], b, b') by {
        assert forall i :: 0 <= i < |params| - 1 ==> params[1..][i] == params[i + 1];
      }
      FaultsCannotTouchFixed(params[1..], b, b');
    }
  }

  /** A client cannot influence what the author pinned: only open parameters matter, to success and result alike. */
  lemma ExpansionDependsOnOpenParameters(s: Schema, name: string, b: map<string, string>, b': map<string, string>,
                                         p: Policy, p': Policy)
    requires FindTemplate(s.templates, name).Some? ==> AgreeOnOpen(FindTemplate(s.templates, name).value.params, b, b')
    ensures ExpansionFault(s, name, b) == ExpansionFault(s, name, b')
    ensures (FindTemplate(s.templates, name).Some?
             && IsExpansion(s, FindTemplate(s.templates, name).value, b, p)
             && IsExpansion(s, FindTemplate(s.templates, name).value, b', p')) ==> p == p'
  {
    if FindTemplate(s.templates, name).Some? {
      var t := FindTemplate(s.templates, name).value;
      BindingsCannotTouchFixed(t.params, b, b');
      FaultsCannotTouchFixed(t.params, b, b');
      if IsExpansion(s, t, b, p) && IsExpansion(s, t, b', p') {
        assert p.actions == p'.actions;
      }
    }
  }

  // ---------- Decisions on expanded templates ----------

  /** References to one entity agree on attributes as well as parents. */
  ghost predicate CoherentAttrs(s: Schema, reqs: seq<Requirement>)
  {
    forall e, f :: e in ChainsEntities(s, reqs) && f in ChainsEntities(s, reqs) && e.ref == f.ref ==> e == f
  }

  /** The entity kept under an offered entity's key. */
  lemma KeptFor(offered: seq<Entity>, e: Entity) returns (f: Entity)
    requires e in offered
    ensures f in FirstWins(offered) && f in offered && Key(f.ref) == Key(e.ref)
  {
    FirstWinsKeys(offered);
    assert Key(e.ref) in Keys(FirstWins(offered));
    f :| f in FirstWins(offered) && Key(f.ref) == Key(e.ref);
  }

  /** An entity offered under a resource's key is that resource. */
  lemma KeptIsSame(s: Schema, reqs: seq<Requirement>, order: seq<string>, e: Entity, f: Entity)
    requires WellFormed(s, reqs) && CoherentAttrs(s, reqs) && IterationOrder(order, Lattice(s))
    requires e in ChainsEntities(s, reqs) && f in Offered(s, order, reqs) && Key(f.ref) == Key(e.ref)
    ensures e == f
  {
    assert e in Offered(s, order, reqs);
    OfferedAgree(s, reqs, order, e, f);
    LatticeEntities(s, order, f);
  }

  lemma WorldKeepsAttrs(s: Schema, reqs: seq<Requirement>, world: seq<Entity>, e: Entity)
    requires WellFormed(s, reqs) && CoherentAttrs(s, reqs) && IsWorld(s, reqs, world) && e in ChainsEntities(s, reqs)
    ensures AttrsOf(LastWins(world), e.ref) == RecordFrom(e.attrs)
  {
    var order :| IterationOrder(order, Lattice(s)) && world == FirstWins(Offered(s, order, reqs));
    var offered := Offered(s, order, reqs);
    assert e in offered;
    var f := KeptFor(offered, e);
    KeptIsSame(s, reqs, order, e, f);
    DeduplicatedLookup(offered);
  }

  /** What a permit with a capability's head and some conditions allows, in the schema's terms. */
  lemma ConditionedPermitMeaning(s: Schema, c: Capability, p: Policy, reqs: seq<Requirement>, world: seq<Entity>,
                                 r: Requirement)
    requires WellFormed(s, reqs) && CoherentAttrs(s, reqs) && IsWorld(s, reqs, world) && r in reqs && HasHeadOf(s, c, p)
    ensures Satisfied(LastWins(world), p, Question(s, r)) <==>
            Covers(s, c, r) && EvalAll(RecordFrom(r.resource.attrs), p.preds) == True
  {
    HeadMeansCovers(s, reqs, world, c, p, r);
    var i :| 0 <= i < |reqs| && reqs[i] == r;
    ChainsContain(s, reqs, i);
    assert ResourceEntity(s, r.resource) in ChainEntities(s, r.resource);
    WorldKeepsAttrs(s, reqs, world, ResourceEntity(s, r.resource));
  }

  /** Exactly what an expanded template allows: its freeform cover, where its conditions hold. */
  lemma ExpansionMeaning(s: Schema, t: Template, bindings: map<string, string>, p: Policy, reqs: seq<Requirement>,
                         world: seq<Entity>, r: Requirement)
    requires WellFormed(s, reqs) && CoherentAttrs(s, reqs) && IsWorld(s, reqs, world) && r in reqs
    requires IsExpansion(s, t, bindings, p)
    ensures Satisfied(LastWins(world), p, Question(s, r)) <==>
            Covers(s, Freeform(t, bindings), r) && ConditionsHold(t, bindings, r.resource.attrs)
  {
    ConditionedPermitMeaning(s, Freeform(t, bindings), p, reqs, world, r);
    EvalAllTrue(RecordFrom(r.resource.attrs), p.preds);
  }

  // ---------- What the resource server ever issues ----------

  /** A permit some capability or template of the schema compiles to. */
  ghost predicate Issued(s: Schema, p: Policy)
  {
    exists c :: HasHeadOf(s, c, p) && forall a :: a in c.actions ==> HasAction(s, a)
  }

  lemma CompiledAreIssued(s: Schema, caps: seq<Capability>, policies: seq<Policy>)
    requires Compiled(s, caps, policies)
    ensures forall p :: p in policies ==> Issued(s, p)
  {
    forall i | 0 <= i < |policies|
      ensures Issued(s, policies[i])
    {
      assert Fault(s, caps[i]) == None && IsPermitFor(s, caps[i], policies[i]);
      FirstUnknownNone(s, caps[i].actions);
    }
  }

  lemma ExpandedAreIssued(s: Schema, name: string, bindings: map<string, string>, p: Policy)
    requires ExpansionFault(s, name, bindings) == None
             && IsExpansion(s, FindTemplate(s.templates, name).value, bindings, p)
    ensures Issued(s, p)
  {
    var c := Freeform(FindTemplate(s.templates, name).value, bindings);
    FirstUnknownNone(s, c.actions);
    assert HasHeadOf(s, c, p);
  }
}
