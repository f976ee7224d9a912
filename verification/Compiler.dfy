/**
 The resource server's side of a decision: capabilities compiled into policies, and an
 operation's requirements turned into questions plus the entity world they are asked in.
 */
module Compiler {
  import opened Basics
  import opened Cedar
  import opened Schemas

  // ---------- Capabilities to policies ----------

  datatype SignError =
    | NoCapabilities
    | EmptyActions
    | UnknownAction(name: string)
    | NoScopeResolver
    | ScopeFailed(reason: string)
    | UnknownTemplate
    | MissingParameter(name: string)
    | UnsupportedOperator(op: string)

  function FirstUnknown(s: Schema, actions: seq<string>): Option<string>
  {
    if actions == [] then None
    else if !HasAction(s, actions[0]) then Some(actions[0])
    else FirstUnknown(s, actions[1..])
  }

  lemma {:induction false} FirstUnknownNone(s: Schema, actions: seq<string>)
    ensures FirstUnknown(s, actions) == None <==> forall a :: a in actions ==> HasAction(s, a)
  {
    if actions != [] {
      FirstUnknownNone(s, actions[1..]);
      assert actions == [actions[0]] + actions[1..];
    }
  }

  lemma {:induction false} FirstUnknownAt(s: Schema, actions: seq<string>, i: nat)
    requires i < |actions| && !HasAction(s, actions[i]) && forall j :: 0 <= j < i ==> HasAction(s, actions[j])
    ensures FirstUnknown(s, actions) == Some(actions[i])
  {
    if i > 0 {
      FirstUnknownAt(s, actions[1..], i - 1);
    }
  }

  /** Why a capability cannot be compiled, in the order the checks are made. */
  function Fault(s: Schema, c: Capability): Option<SignError>
  {
    if c.actions == [] then Some(EmptyActions)
    else if FirstUnknown(s, c.actions).Some? then Some(UnknownAction(FirstUnknown(s, c.actions).value))
    else if s.scope.None? then Some(NoScopeResolver)
    else match s.scope.value(c.resource) case Err(e) => Some(ScopeFailed(e)) case Ok(_) => None
  }

  /** The faults, in the order in which they are looked for. */
  lemma FaultsExactly(s: Schema, c: Capability)
    ensures Fault(s, c) == Some(EmptyActions) <==> c.actions == []
    ensures forall a :: Fault(s, c) == Some(UnknownAction(a)) <==>
              exists k :: 0 <= k < |c.actions| && c.actions[k] == a && !HasAction(s, a)
                          && forall j :: 0 <= j < k ==> HasAction(s, c.actions[j])
    ensures Fault(s, c) == Some(NoScopeResolver) <==>
              c.actions != [] && (forall a :: a in c.actions ==> HasAction(s, a)) && s.scope == None
    ensures forall e :: Fault(s, c) == Some(ScopeFailed(e)) <==>
              && c.actions != [] && (forall a :: a in c.actions ==> HasAction(s, a))
              && s.scope.Some? && s.scope.value(c.resource) == Err(e)
    ensures Fault(s, c) == None <==>
              && c.actions != [] && (forall a :: a in c.actions ==> HasAction(s, a))
              && s.scope.Some? && s.scope.value(c.resource).Ok?
  {
    FirstUnknownNone(s, c.actions);
    forall a
      ensures FirstUnknown(s, c.actions) == Some(a) <==>
                exists k :: 0 <= k < |c.actions| && c.actions[k] == a && !HasAction(s, a)
                            && forall j :: 0 <= j < k ==> HasAction(s, c.actions[j])
    {
      FirstUnknownIs(s, c.actions, a);
    }
  }

  lemma {:induction false} FirstUnknownIs(s: Schema, actions: seq<string>, a: string)
    ensures FirstUnknown(s, actions) == Some(a) <==>
              exists k :: 0 <= k < |actions| && actions[k] == a && !HasAction(s, a)
                          && forall j :: 0 <= j < k ==> HasAction(s, actions[j])
  {
    if actions != [] && HasAction(s, actions[0]) {
      FirstUnknownIs(s, actions[1..], a);
      if k :| 0 <= k < |actions[1..]| && actions[1..][k] == a && !HasAction(s, a)
              && forall j :: 0 <= j < k ==> HasAction(s, actions[1..][j]) {
        assert actions[k + 1] == a;
        assert forall j :: 0 < j < k + 1 ==> actions[j] == actions[1..][j - 1];
      }
      if k :| 0 <= k < |actions| && actions[k] == a && !HasAction(s, a) && forall j :: 0 <= j < k ==>
          HasAction(s, actions[j]) {
        assert actions[1..][k - 1] == a;
        assert forall j :: 0 <= j < k - 1 ==> actions[1..][j] == actions[j + 1];
      }
    }
  }

  predicate ScopesTo(s: Schema, sel: ResourceSelector, e: EntityRef)
  {
    s.scope.Some? && s.scope.value(sel).Ok? && s.scope.value(sel).value.entity == e
  }

  /** `p` is a permit whose head names exactly the capability's actions, on the entity it resolves to. */
  ghost predicate HasHeadOf(s: Schema, c: Capability, p: Policy)
  {
    && p.effect == Permit && p.principal == Agent(s)
    && |p.actions| == |c.actions| && (forall i :: 0 <= i < |c.actions| ==> p.actions[i] == ActionRef(s, c.actions[i]))
    && ScopesTo(s, c.resource, p.scope)
  }

  ghost predicate IsPermitFor(s: Schema, c: Capability, p: Policy)
  {
    HasHeadOf(s, c, p) && p.preds == []
  }

  /** The bundle compiles to these policies, index by index. */
  ghost predicate Compiled(s: Schema, caps: seq<Capability>, policies: seq<Policy>)
  {
    && caps != [] && |policies| == |caps|
    && forall i :: 0 <= i < |caps| ==> Fault(s, caps[i]) == None && IsPermitFor(s, caps[i], policies[i])
  }

  method PoliciesFromCapabilities(s: Schema, caps: seq<Capability>) returns (r: Result<seq<Policy>, SignError>)
    ensures r.Ok? <==> caps != [] && forall c :: c in caps ==> Fault(s, c) == None
    ensures r.Ok? ==> Compiled(s, caps, r.value)
    ensures r.Ok? ==> |r.value| == |caps| && s.scope.Some?
    ensures r.Ok? ==>
              forall i :: 0 <= i < |caps| ==>
                && r.value[i].effect == Permit && r.value[i].principal == EntityRef(s.agentType, s.agentId)
                && |r.value[i].actions| == |caps[i].actions| && r.value[i].preds == []
                && (forall k :: 0 <= k < |caps[i].actions| ==>
                      r.value[i].actions[k] == EntityRef(s.actionType, caps[i].actions[k]))
                && s.scope.value(caps[i].resource).Ok?
                && r.value[i].scope == s.scope.value(caps[i].resource).value.entity
    ensures caps == [] ==> r == Err(NoCapabilities)
    ensures r.Err? && caps != [] ==>
              exists i :: 0 <= i < |caps| && Fault(s, caps[i]) == Some(r.error)
                          && forall j :: 0 <= j < i ==> Fault(s, caps[j]) == None
  {
    if |caps| == 0 {
      return Err(NoCapabilities);
    }
    var policies: seq<Policy> := [];
    for i := 0 to |caps|
      invariant |policies| == i
      invariant forall j :: 0 <= j < i ==> Fault(s, caps[j]) == None && IsPermitFor(s, caps[j], policies[j])
    {
      var c := caps[i];
      if |c.actions| == 0 {
        assert Fault(s, c) == Some(EmptyActions);
        return Err(EmptyActions);
      }
      var lits: seq<EntityRef> := [];
      for k := 0 to |c.actions|
        invariant |lits| == k
        invariant forall j :: 0 <= j < k ==> HasAction(s, c.actions[j]) && lits[j] == ActionRef(s, c.actions[j])
      {
        if !HasAction(s, c.actions[k]) {
          FirstUnknownAt(s, c.actions, k);
          assert Fault(s, c) == Some(UnknownAction(c.actions[k]));
          return Err(UnknownAction(c.actions[k]));
        }
        lits := lits + [ActionRef(s, c.actions[k])];
      }
      FirstUnknownNone(s, c.actions);
      if s.scope.None? {
        assert Fault(s, c) == Some(NoScopeResolver);
        return Err(NoScopeResolver);
      }
      var scoped := s.scope.value(c.resource);
      if scoped.Err? {
        assert Fault(s, c) == Some(ScopeFailed(scoped.error));
        return Err(ScopeFailed(scoped.error));
      }
      policies := policies + [Policy(Permit, Agent(s), lits, scoped.value.entity, [])];
    }
    assert Fault(s, caps[0]) == None;
    return Ok(policies);
  }

  // ---------- Requirements to questions ----------

  function Question(s: Schema, r: Requirement): Request
  {
    Request(Agent(s), ActionRef(s, r.action), EntityRefOf(s, r.resource), r.context)
  }

  function Questions(s: Schema, reqs: seq<Requirement>): seq<Request>
  {
    seq(|reqs|, i requires 0 <= i < |reqs| => Question(s, reqs[i]))
  }

  method VerifyRequests(s: Schema, reqs: seq<Requirement>) returns (out: seq<Request>)
    ensures out == Questions(s, reqs)
    ensures |out| == |reqs| && forall i :: 0 <= i < |reqs| ==>
              && out[i].principal == EntityRef(s.agentType, s.agentId)
              && out[i].action == EntityRef(s.actionType, reqs[i].action)
              && out[i].resource == EntityRef(EntityTypeOf(s.resources, reqs[i].resource.typ), reqs[i].resource.id)
              && out[i].context == reqs[i].context
  {
    out := [];
    for i := 0 to |reqs|
      invariant |out| == i
      invariant forall j :: 0 <= j < i ==> out[j] == Question(s, reqs[j])
    {
      out := out + [Question(s, reqs[i])];
    }
  }

  // ---------- The entity world ----------

  /** The deduplication key: type, a NUL byte, id. */
  function Key(r: EntityRef): string { r.typ + ['\0'] + r.id }

  function Keys(es: seq<Entity>): set<string> { set e | e in es :: Key(e.ref) }

  /** The first entity offered under each key is kept, later ones are dropped. */
  function FirstWins(offered: seq<Entity>): seq<Entity>
  {
    if offered == [] then []
    else
      var init, last := offered[..|offered| - 1], offered[|offered| - 1];
      if Key(last.ref) in Keys(init) then FirstWins(init) else FirstWins(init) + [last]
  }

  lemma {:induction false} FirstStaysFirst(offered: seq<Entity>)
    requires offered != []
    ensures FirstWins(offered) != [] && FirstWins(offered)[0] == offered[0]
  {
    if |offered| > 1 {
      FirstStaysFirst(offered[..|offered| - 1]);
    } else {
      assert offered[..0] == [];
    }
  }

  lemma OneMoreOffered(es: seq<Entity>, e: Entity)
    ensures Keys(es + [e]) == Keys(es) + {Key(e.ref)}
    ensures FirstWins(es + [e]) == if Key(e.ref) in Keys(es) then FirstWins(es) else FirstWins(es) + [e]
  {
    KeysAppend(es, e);
    assert (es + [e])[..|es|] == es;
  }

  lemma KeysAppend(es: seq<Entity>, e: Entity)
    ensures Keys(es + [e]) == Keys(es) + {Key(e.ref)}
  {
    forall k | k in Keys(es) + {Key(e.ref)}
      ensures k in Keys(es + [e])
    {
      if k in Keys(es) {
        var x :| x in es && Key(x.ref) == k;
        assert x in es + [e];
      } else {
        assert e in es + [e];
      }
    }
  }

  lemma {:induction false} FirstWinsKeys(offered: seq<Entity>)
    ensures Keys(FirstWins(offered)) == Keys(offered)
    ensures forall e :: e in FirstWins(offered) ==> e in offered
    ensures forall i, j :: 0 <= i < j < |FirstWins(offered)| ==>
              Key(FirstWins(offered)[i].ref) != Key(FirstWins(offered)[j].ref)
  {
    if offered != [] {
      var init, last := offered[..|offered| - 1], offered[|offered| - 1];
      FirstWinsKeys(init);
      assert offered == init + [last];
      var out := FirstWins(init);
      KeysAppend(init, last);
      KeysAppend(out, last);
      if Key(last.ref) !in Keys(init) {
        forall i | 0 <= i < |out|
          ensures Key(out[i].ref) != Key(last.ref)
        {
          assert out[i] in init;
        }
      }
    }
  }

  function ActionEntity(s: Schema, name: string, parents: seq<string>): Entity
  {
    Entity(ActionRef(s, name), seq(|parents|, i requires 0 <= i < |parents| => ActionRef(s, parents[i])), map[])
  }

  /** The names met so far, each once. */
  ghost predicate Listed<V>(order: seq<string>, m: map<string, V>, todo: set<string>)
  {
    NoDuplicates(order) && forall n :: n in order <==> n in m && n !in todo
  }

  lemma OneMoreName<V>(order: seq<string>, m: map<string, V>, todo: set<string>, name: string)
    requires Listed(order, m, todo + {name}) && name in m && name !in todo
    ensures Listed(order + [name], m, todo)
  {
  }

  function ActionEntities(s: Schema, order: seq<string>): seq<Entity>
    requires forall n :: n in order ==> n in Lattice(s)
  {
    seq(|order|, i requires 0 <= i < |order| => ActionEntity(s, order[i], Lattice(s)[order[i]]))
  }

  lemma ActionEntitiesAppend(s: Schema, order: seq<string>, name: string)
    requires forall n :: n in order + [name] ==> n in Lattice(s)
    requires forall n :: n in order ==> n in Lattice(s)
    requires name in Lattice(s)
    ensures ActionEntities(s, order + [name]) == ActionEntities(s, order) + [ActionEntity(s, name, Lattice(s)[name])]
  {
  }

  function ResourceEntity(s: Schema, r: ResourceRef): Entity
  {
    Entity(EntityRefOf(s, r), match r.parent case None => [] case Some(p) => [EntityRefOf(s, p)], r.attrs)
  }

  /** A resource's chain in the order it is registered: the root first. */
  function ChainEntities(s: Schema, r: ResourceRef): seq<Entity>
  {
    (match r.parent case None => [] case Some(p) => ChainEntities(s, p)) + [ResourceEntity(s, r)]
  }

  function ChainsEntities(s: Schema, reqs: seq<Requirement>): seq<Entity>
  {
    if reqs == [] then []
    else ChainsEntities(s, reqs[..|reqs| - 1]) + ChainEntities(s, reqs[|reqs| - 1].resource)
  }

  lemma OneMoreChain(before: seq<Entity>, s: Schema, reqs: seq<Requirement>, i: nat)
    requires i < |reqs|
    ensures before + ChainsEntities(s, reqs[..i]) + ChainEntities(s, reqs[i].resource)
            == before + ChainsEntities(s, reqs[..i + 1])
  {
    assert reqs[..i + 1][..i] == reqs[..i];
  }

  /** Everything registered, in order: the agent, the action lattice, then the resource chains. */
  function Offered(s: Schema, order: seq<string>, reqs: seq<Requirement>): seq<Entity>
    requires forall n :: n in order ==> n in Lattice(s)
  {
    [Entity(Agent(s), [], map[])] + ActionEntities(s, order) + ChainsEntities(s, reqs)
  }

  ghost predicate IsWorld(s: Schema, reqs: seq<Requirement>, world: seq<Entity>)
  {
    exists order :: IterationOrder(order, Lattice(s)) && world == FirstWins(Offered(s, order, reqs))
  }

  /** The variables the deduplicating sink shares with its callers. */
  class WorldBuilder {
    var seen: set<string>
    var out: seq<Entity>
    ghost var offered: seq<Entity>

    ghost predicate Valid()
      reads this
    {
      seen == Keys(offered) && out == FirstWins(offered)
    }

    constructor ()
      ensures Valid() && offered == []
    {
      seen, out, offered := {}, [], [];
    }

    method Add(e: Entity)
      requires Valid()
      modifies this
      ensures Valid() && offered == old(offered) + [e]
    {
      var key := Key(e.ref);
      OneMoreOffered(offered, e);
      offered := offered + [e];
      if key in seen {
        return;
      }
      seen := seen + {key};
      out := out + [e];
    }

    method AddResource(s: Schema, r: ResourceRef)
      requires Valid()
      modifies this
      ensures Valid() && offered == old(offered) + ChainEntities(s, r)
      decreases r
    {
      var parents: seq<EntityRef> := [];
      if r.parent.Some? {
        parents := [EntityRefOf(s, r.parent.value)];
        AddResource(s, r.parent.value);
      }
      Add(Entity(EntityRefOf(s, r), parents, r.attrs));
    }

    /** Registers the action lattice, in whatever order its map is iterated. */
    method AddLattice(s: Schema) returns (ghost order: seq<string>)
      requires Valid()
      modifies this
      ensures Valid() && IterationOrder(order, Lattice(s))
      ensures offered == old(offered) + ActionEntities(s, order)
    {
      var lattice := ActionLattice(s);
      var todo := lattice.Keys;
      order := [];
      while todo != {}
        invariant Valid() && todo <= lattice.Keys
        invariant Listed(order, lattice, todo)
        invariant offered == old(offered) + ActionEntities(s, order)
        decreases todo
      {
        var name :| name in todo;
        todo := todo - {name};
        ActionEntitiesAppend(s, order, name);
        Add(ActionEntity(s, name, lattice[name]));
        OneMoreName(order, lattice, todo, name);
        order := order + [name];
      }
    }

    method AddRequirements(s: Schema, reqs: seq<Requirement>)
      requires Valid()
      modifies this
      ensures Valid() && offered == old(offered) + ChainsEntities(s, reqs)
    {
      for i := 0 to |reqs|
        invariant Valid()
        invariant offered == old(offered) + ChainsEntities(s, reqs[..i])
      {
        OneMoreChain(old(offered), s, reqs, i);
        AddResource(s, reqs[i].resource);
      }
      assert reqs[..|reqs|] == reqs;
    }
  }

  method VerifyWorld(s: Schema, reqs: seq<Requirement>) returns (world: seq<Entity>)
    ensures IsWorld(s, reqs, world)
    ensures world != [] && world[0] == Entity(EntityRef(s.agentType, s.agentId), [], map[])
  {
    var b := new WorldBuilder();
    b.Add(Entity(Agent(s), [], map[]));
    ghost var order := b.AddLattice(s);
    b.AddRequirements(s, reqs);
    assert b.offered == Offered(s, order, reqs);
    FirstStaysFirst(b.offered);
    world := b.out;
  }
}
