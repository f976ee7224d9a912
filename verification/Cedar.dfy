/**
 The policy language the authorization server evaluates, and the server's decision procedure.
 Policies are data: a head (principal, actions, scope) plus attribute conditions.
 */
module Cedar {
  import opened Reachability

  datatype EntityRef = EntityRef(typ: string, id: string)

  /** A JSON-decoded attribute. `JScalar` carries the text every other kind of value prints as. */
  datatype Json = JString(s: string) | JList(elems: seq<Json>) | JScalar(text: string)

  /** An entity as the resource server sends it. */
  datatype Entity = Entity(ref: EntityRef, parents: seq<EntityRef>, attrs: map<string, Json>)

  /** A native value of the policy language. */
  datatype Value = VString(s: string) | VSet(elems: set<Value>)

  datatype EntityData = EntityData(parents: seq<EntityRef>, attrs: map<string, Value>)

  type EntityMap = map<EntityRef, EntityData>

  datatype Request = Request(principal: EntityRef, action: EntityRef, resource: EntityRef, context: map<string, string>)

  datatype Effect = Permit | Forbid

  /** A condition on an attribute of the resource. */
  datatype Pred = Eq(attr: string, value: string) | Contains(attr: string, value: string)
      | Like(attr: string, value: string)

  datatype Policy = Policy(effect: Effect, principal: EntityRef, actions: seq<EntityRef>, scope: EntityRef,
                           preds: seq<Pred>)

  datatype Truth = True | False | Failed

  // ---------- Values and conditions ----------

  function ValueFrom(v: Json): Value
  {
    match v
    case JString(s) => VString(s)
    case JList(elems) => VSet(set e | e in elems :: ValueFrom(e))
    case JScalar(text) => VString(text)
  }

  function RecordFrom(attrs: map<string, Json>): map<string, Value>
  {
    map k | k in attrs :: ValueFrom(attrs[k])
  }

  /** The `like` operator: `*` stands for any text, every other character for itself. */
  predicate Glob(pattern: string, text: string)
    decreases |pattern| + |text|
  {
    if pattern == [] then text == []
    else if pattern[0] == '*' then Glob(pattern[1..], text) || (text != [] && Glob(pattern, text[1..]))
    else text != [] && text[0] == pattern[0] && Glob(pattern[1..], text[1..])
  }

  /** A missing attribute, or an operand of the wrong kind, is an evaluation error. */
  function EvalPred(attrs: map<string, Value>, p: Pred): Truth
  {
    if p.attr !in attrs then Failed
    else
      var v := attrs[p.attr];
      match p
      case Eq(_, value) => if v == VString(value) then True else False
      case Contains(_, value) =>
        if v.VString? then Failed else if VString(value) in v.elems then True else False
      case Like(_, value) =>
        if v.VSet? then Failed else if Glob(value, v.s) then True else False
  }

  /** Short-circuit conjunction, left to right. */
  function EvalAll(attrs: map<string, Value>, preds: seq<Pred>): Truth
  {
    if preds == [] then True
    else
      var first := EvalPred(attrs, preds[0]);
      if first != True then first else EvalAll(attrs, preds[1..])
  }

  /** Errors and short-circuiting never let a condition through: all of them must hold. */
  lemma {:induction false} EvalAllTrue(attrs: map<string, Value>, preds: seq<Pred>)
    ensures EvalAll(attrs, preds) == True <==> forall p :: p in preds ==> EvalPred(attrs, p) == True
  {
    if preds != [] {
      EvalAllTrue(attrs, preds[1..]);
      assert preds == [preds[0]] + preds[1..];
    }
  }

  function AttrsOf(em: EntityMap, r: EntityRef): map<string, Value>
  {
    if r in em then em[r].attrs else map[]
  }

  function Hierarchy(em: EntityMap): map<EntityRef, seq<EntityRef>>
  {
    map r | r in em :: em[r].parents
  }

  // ---------- The meaning of a policy set ----------

  ghost predicate HeadSatisfied(em: EntityMap, p: Policy, req: Request)
  {
    && p.principal == req.principal
    && (exists a :: a in p.actions && Reaches(Hierarchy(em), req.action, a))
    && Reaches(Hierarchy(em), req.resource, p.scope)
  }

  ghost predicate Satisfied(em: EntityMap, p: Policy, req: Request)
  {
    HeadSatisfied(em, p, req) && EvalAll(AttrsOf(em, req.resource), p.preds) == True
  }

  ghost predicate Allows(em: EntityMap, policies: seq<Policy>, req: Request)
  {
    && (exists p :: p in policies && p.effect == Permit && Satisfied(em, p, req))
    && !(exists p :: p in policies && p.effect == Forbid && Satisfied(em, p, req))
  }

  /** Every question must be allowed; no policy or no question at all is a denial. */
  ghost predicate Decision(em: EntityMap, policies: seq<Policy>, requests: seq<Request>)
  {
    policies != [] && requests != [] && forall q :: q in requests ==> Allows(em, policies, q)
  }

  /** Head and conditions spelled out: equality, membership by walking up, and every single condition true. */
  ghost predicate Applies(em: EntityMap, p: Policy, req: Request)
  {
    && p.principal == req.principal
    && (exists a :: a in p.actions && Reaches(map r | r in em :: em[r].parents, req.action, a))
    && Reaches(map r | r in em :: em[r].parents, req.resource, p.scope)
    && forall c :: c in p.preds ==> EvalPred(if req.resource in em then em[req.resource].attrs else map[], c) == True
  }

  lemma AppliesMeansSatisfied(em: EntityMap, p: Policy, req: Request)
    ensures Applies(em, p, req) <==> Satisfied(em, p, req)
  {
    EvalAllTrue(AttrsOf(em, req.resource), p.preds);
  }

  /** A condition on an attribute as it was sent: text and other scalars compare as text, lists as sets of texts. */
  lemma ConditionAsSent(attrs: map<string, Json>, attr: string, value: string)
    ensures attr !in attrs ==>
              && EvalPred(RecordFrom(attrs), Eq(attr, value)) == Failed
              && EvalPred(RecordFrom(attrs), Contains(attr, value)) == Failed
              && EvalPred(RecordFrom(attrs), Like(attr, value)) == Failed
    ensures attr in attrs ==>
              && EvalPred(RecordFrom(attrs), Eq(attr, value)) ==
                 (if attrs[attr] == JString(value) || attrs[attr] == JScalar(value) then True else False)
              && EvalPred(RecordFrom(attrs), Contains(attr, value)) ==
                 (if !attrs[attr].JList? then Failed
                  else if JString(value) in attrs[attr].elems || JScalar(value) in attrs[attr].elems then True
                      else False)
              && EvalPred(RecordFrom(attrs), Like(attr, value)) ==
                 (if attrs[attr].JList? then Failed
                  else if Glob(value, if attrs[attr].JString? then attrs[attr].s else attrs[attr].text) then True
                      else False)
  {
    if attr in attrs && attrs[attr].JList? {
      var v := ValueFrom(attrs[attr]);
      forall e | e in attrs[attr].elems
        ensures ValueFrom(e) == VString(value) <==> e == JString(value) || e == JScalar(value)
      {
      }
      assert VString(value) in v.elems <==> exists e :: e in attrs[attr].elems && ValueFrom(e) == VString(value);
    }
  }

  /** Without a star a pattern matches itself only. */
  lemma {:induction false} GlobOfText(pattern: string, text: string)
    requires '*' !in pattern
    ensures Glob(pattern, text) <==> pattern == text
  {
    if pattern != [] && text != [] {
      GlobOfText(pattern[1..], text[1..]);
      assert pattern == [pattern[0]] + pattern[1..] && text == [text[0]] + text[1..];
    }
  }

  /** A star stands for any text: what follows it may match from anywhere on. */
  lemma {:induction false} GlobAtStar(before: string, after: string, text: string)
    requires '*' !in before
    ensures Glob(before + ['*'] + after, text) <==>
            exists i :: |before| <= i <= |text| && text[..|before|] == before && Glob(after, text[i..])
  {
    var pattern := before + ['*'] + after;
    if before == [] {
      assert pattern[1..] == after;
      StarAnywhere(pattern, text);
      assert text[..0] == [];
    } else if text == [] || text[0] != before[0] {
      assert pattern[0] == before[0];
      assert |text| >= |before| ==> text[..|before|][0] == text[0];
    } else {
      assert pattern[1..] == before[1..] + ['*'] + after;
      GlobAtStar(before[1..], after, text[1..]);
      GlobShifts(before, after, text);
    }
  }

  lemma GlobShifts(before: string, after: string, text: string)
    requires before != [] && text != [] && text[0] == before[0]
    ensures (exists i :: |before| <= i <= |text| && text[..|before|] == before && Glob(after, text[i..]))
            <==> exists i :: |before[1..]| <= i <= |text[1..]| && text[1..][..|before[1..]|] == before[1..]
                             && Glob(after, text[1..][i..])
  {
    assert |text| >= |before| ==> (text[..|before|] == before <==> text[1..][..|before| - 1] == before[1..]) by {
      if |text| >= |before| {
        assert text[..|before|] == [text[0]] + text[1..][..|before| - 1];
        assert before == [before[0]] + before[1..];
      }
    }
    if i :| |before| <= i <= |text| && text[..|before|] == before && Glob(after, text[i..]) {
      assert text[1..][i - 1..] == text[i..];
    }
    if i :|
        && |before[1..]| <= i <= |text[1..]| && text[1..][..|before[1..]|] == before[1..]
        && Glob(after, text[1..][i..]) {
      assert text[1..][i..] == text[i + 1..];
    }
  }

  lemma {:induction false} StarAnywhere(pattern: string, text: string)
    requires pattern != [] && pattern[0] == '*'
    ensures Glob(pattern, text) <==> exists i :: 0 <= i <= |text| && Glob(pattern[1..], text[i..])
    decreases |text|
  {
    assert text[0..] == text;
    if text != [] {
      StarAnywhere(pattern, text[1..]);
      if i :| 0 <= i <= |text[1..]| && Glob(pattern[1..], text[1..][i..]) {
        assert text[1..][i..] == text[i + 1..];
      }
      if i :| 0 < i <= |text| && Glob(pattern[1..], text[i..]) {
        assert text[1..][i - 1..] == text[i..];
      }
    }
  }

  // ---------- The decision procedure ----------

  function DataOf(e: Entity): EntityData
  {
    EntityData(e.parents, RecordFrom(e.attrs))
  }

  /** Entities inserted one after the other, a later one replacing an earlier one. */
  function LastWins(entities: seq<Entity>): EntityMap
  {
    if entities == [] then map[]
    else
      var last := entities[|entities| - 1];
      LastWins(entities[..|entities| - 1])[last.ref := DataOf(last)]
  }

  method BuildEntities(entities: seq<Entity>) returns (em: EntityMap)
    ensures em == LastWins(entities)
  {
    em := map[];
    for i := 0 to |entities|
      invariant em == LastWins(entities[..i])
    {
      em := em[entities[i].ref := DataOf(entities[i])];
      assert entities[..i + 1][..i] == entities[..i];
    }
    assert entities[..|entities|] == entities;
  }

  /** The last entity of a reference counts, as it was sent. */
  lemma {:induction false} LastOneCounts(entities: seq<Entity>, i: nat)
    requires i < |entities| && forall j :: i < j < |entities| ==> entities[j].ref != entities[i].ref
    ensures entities[i].ref in LastWins(entities)
    ensures LastWins(entities)[entities[i].ref] == EntityData(entities[i].parents, RecordFrom(entities[i].attrs))
  {
    if i < |entities| - 1 {
      LastOneCounts(entities[..|entities| - 1], i);
    }
  }

  /** When no two entities share a reference, insertion order does not matter. */
  lemma {:induction false} LastWinsOfDistinct(entities: seq<Entity>)
    requires forall i, j :: 0 <= i < j < |entities| ==> entities[i].ref != entities[j].ref
    ensures forall e :: e in entities ==> e.ref in LastWins(entities) && LastWins(entities)[e.ref] == DataOf(e)
    ensures forall r :: r in LastWins(entities) ==> exists e :: e in entities && e.ref == r
  {
    if entities != [] {
      var init := entities[..|entities| - 1];
      var last := entities[|entities| - 1];
      LastWinsOfDistinct(init);
      assert entities == init + [last];
    }
  }

  /** One question put to the policy engine, with `in` decided by walking up the hierarchy. */
  method Authorize(em: EntityMap, policies: seq<Policy>, req: Request) returns (allowed: bool)
    ensures allowed <==> Allows(em, policies, req)
    ensures allowed <==>
              && (exists p :: p in policies && p.effect == Permit && Applies(em, p, req))
              && !(exists p :: p in policies && p.effect == Forbid && Applies(em, p, req))
  {
    forall p
      ensures Applies(em, p, req) <==> Satisfied(em, p, req)
    {
      AppliesMeansSatisfied(em, p, req);
    }
    var aboveAction := AncestorsOf(Hierarchy(em), req.action);
    var aboveResource := AncestorsOf(Hierarchy(em), req.resource);
    var attrs := AttrsOf(em, req.resource);
    var permitted, forbidden := false, false;
    for i := 0 to |policies|
      invariant permitted <==> exists p :: p in policies[..i] && p.effect == Permit && Satisfied(em, p, req)
      invariant forbidden <==> exists p :: p in policies[..i] && p.effect == Forbid && Satisfied(em, p, req)
    {
      var p := policies[i];
      assert policies[..i + 1] == policies[..i] + [p];
      var satisfied := p.principal == req.principal && (exists a :: a in p.actions && a in aboveAction)
                       && p.scope in aboveResource && EvalAll(attrs, p.preds) == True;
      assert satisfied <==> Satisfied(em, p, req);
      if satisfied && p.effect == Permit {
        permitted := true;
      }
      if satisfied && p.effect == Forbid {
        forbidden := true;
      }
    }
    assert policies[..|policies|] == policies;
    allowed := permitted && !forbidden;
  }

  /** Whether the texts of some policies, put together, parse; left unspecified. */
  type Parser = seq<Policy> -> bool

  datatype Evaluation = Verdict(allowed: bool) | ParseError

  method Evaluate(parses: Parser, policies: seq<Policy>, entities: seq<Entity>, requests: seq<Request>)
      returns (r: Evaluation)
    ensures r == ParseError <==> policies != [] && requests != [] && !parses(policies)
    ensures r.Verdict? ==> (r.allowed <==> Decision(LastWins(entities), policies, requests))
    ensures r == Verdict(true) ==>
              && policies != [] && requests != []
              && forall q :: q in requests ==>
                   && (exists p :: p in policies && p.effect == Permit && Satisfied(LastWins(entities), p, q))
                   && !(exists p :: p in policies && p.effect == Forbid && Satisfied(LastWins(entities), p, q))
    ensures r == Verdict(false) ==>
              || policies == [] || requests == []
              || exists q :: q in requests &&
                   !(&& (exists p :: p in policies && p.effect == Permit && Satisfied(LastWins(entities), p, q))
                     && !(exists p :: p in policies && p.effect == Forbid && Satisfied(LastWins(entities), p, q)))
  {
    if |policies| == 0 || |requests| == 0 {
      return Verdict(false);
    }
    if !parses(policies) {
      return ParseError;
    }
    var em := BuildEntities(entities);
    for i := 0 to |requests|
      invariant forall j :: 0 <= j < i ==> Allows(em, policies, requests[j])
    {
      var decision := Authorize(em, policies, requests[i]);
      if !decision {
        return Verdict(false);
      }
    }
    return Verdict(true);
  }
}
