/**
 What compilation means: a decision on compiled policies in the compiled world is the same as
 asking, in the schema's own terms, whether some capability covers each requirement.
 */
module CompilerLaws {
  import opened Basics
  import opened Reachability
  import opened Cedar
  import opened Schemas
  import opened Compiler

  // ---------- The meaning of a capability ----------

  /** Some granted name lies above the action, and the scope is the resource or an ancestor of it. */
  ghost predicate Covers(s: Schema, c: Capability, r: Requirement)
  {
    && (exists a :: a in c.actions && Reaches(Lattice(s), r.action, a))
    && (exists e :: ScopesTo(s, c.resource, e) && e in Ancestry(s, r.resource))
  }

  // ---------- Assumptions on a schema and its references ----------

  ghost predicate NulFree(s: Schema)
  {
    && '\0' !in s.agentType && '\0' !in s.actionType
    && forall t :: t in s.resources ==> '\0' !in t.entity
  }

  /** Agent, action and resource entity types do not overlap. */
  ghost predicate DisjointTypes(s: Schema, reqs: seq<Requirement>)
  {
    && s.agentType != s.actionType
    && forall e :: e in ChainsEntities(s, reqs) ==> e.ref.typ != s.agentType && e.ref.typ != s.actionType
  }

  /** Two references to one entity agree on its parents. */
  ghost predicate Coherent(s: Schema, reqs: seq<Requirement>)
  {
    forall e, f :: e in ChainsEntities(s, reqs) && f in ChainsEntities(s, reqs) && e.ref == f.ref ==>
        e.parents == f.parents
  }

  ghost predicate WellFormed(s: Schema, reqs: seq<Requirement>)
  {
    NulFree(s) && DisjointTypes(s, reqs) && Coherent(s, reqs)
  }

  // ---------- The world as a lookup table ----------

  /** The first entity offered under a key. */
  ghost function First(es: seq<Entity>, key: string): Option<Entity>
  {
    if es == [] then None
    else
      var init, last := es[..|es| - 1], es[|es| - 1];
      if First(init, key).Some? then First(init, key)
      else if Key(last.ref) == key then Some(last) else None
  }

  lemma {:induction false} FirstSound(es: seq<Entity>, key: string)
    ensures First(es, key).Some? ==> First(es, key).value in es && Key(First(es, key).value.ref) == key
    ensures First(es, key).None? ==> forall e :: e in es ==> Key(e.ref) != key
  {
    if es != [] {
      FirstSound(es[..|es| - 1], key);
      assert es == es[..|es| - 1] + [es[|es| - 1]];
    }
  }

  lemma {:induction false} FirstAppend(a: seq<Entity>, b: seq<Entity>, key: string)
    ensures First(a + b, key) == if First(a, key).Some? then First(a, key) else First(b, key)
  {
    if b == [] {
      assert a + b == a;
    } else {
      FirstAppend(a, b[..|b| - 1], key);
      assert (a + b)[..|a + b| - 1] == a + b[..|b| - 1];
    }
  }

  /** Deduplication keeps an entity exactly when it is the first under its key. */
  lemma {:induction false} FirstWinsIsFirst(es: seq<Entity>, e: Entity)
    ensures e in FirstWins(es) <==> First(es, Key(e.ref)) == Some(e)
  {
    if es != [] {
      var init, last := es[..|es| - 1], es[|es| - 1];
      FirstWinsIsFirst(init, e);
      FirstSound(init, Key(e.ref));
      FirstSound(init, Key(last.ref));
    }
  }

  /** Last-wins insertion of a first-wins list loses nothing: each kept entity is found as it was offered. */
  lemma DeduplicatedLookup(offered: seq<Entity>)
    ensures forall e :: e in FirstWins(offered) ==>
              e.ref in LastWins(FirstWins(offered)) && LastWins(FirstWins(offered))[e.ref] == DataOf(e)
    ensures forall r :: r in LastWins(FirstWins(offered)) ==> exists e :: e in FirstWins(offered) && e.ref == r
  {
    FirstWinsKeys(offered);
    LastWinsOfDistinct(FirstWins(offered));
  }

  lemma KeyOfAction(s: Schema, m: string, n: string)
    requires Key(ActionRef(s, m)) == Key(ActionRef(s, n))
    ensures m == n
  {
    var prefix := s.actionType + ['\0'];
    assert m == Key(ActionRef(s, m))[|prefix|..];
    assert n == Key(ActionRef(s, n))[|prefix|..];
  }

  ghost predicate IsLatticeEntity(s: Schema, e: Entity)
  {
    e.ref.id in Lattice(s) && e == ActionEntity(s, e.ref.id, Lattice(s)[e.ref.id])
  }

  lemma LatticeEntities(s: Schema, order: seq<string>, e: Entity)
    requires IterationOrder(order, Lattice(s))
    ensures e in ActionEntities(s, order) <==> IsLatticeEntity(s, e)
  {
    if IsLatticeEntity(s, e) {
      var i :| 0 <= i < |order| && order[i] == e.ref.id;
      assert ActionEntities(s, order)[i] == e;
    }
  }

  lemma FirstOfLattice(s: Schema, order: seq<string>, order': seq<string>, key: string)
    requires IterationOrder(order, Lattice(s)) && IterationOrder(order', Lattice(s))
    ensures First(ActionEntities(s, order), key) == First(ActionEntities(s, order'), key)
  {
    var first, first' := First(ActionEntities(s, order), key), First(ActionEntities(s, order'), key);
    FirstSound(ActionEntities(s, order), key);
    FirstSound(ActionEntities(s, order'), key);
    if first.Some? {
      LatticeEntities(s, order, first.value);
      LatticeEntities(s, order', first.value);
      assert first'.Some?;
      LatticeEntities(s, order', first'.value);
      KeyOfAction(s, first.value.ref.id, first'.value.ref.id);
    } else if first'.Some? {
      LatticeEntities(s, order, first'.value);
      LatticeEntities(s, order', first'.value);
      assert false;
    }
  }

  lemma FirstOfOffered(s: Schema, reqs: seq<Requirement>, order: seq<string>, order': seq<string>, key: string)
    requires IterationOrder(order, Lattice(s)) && IterationOrder(order', Lattice(s))
    ensures First(Offered(s, order, reqs), key) == First(Offered(s, order', reqs), key)
  {
    var agent, chains := [Entity(Agent(s), [], map[])], ChainsEntities(s, reqs);
    FirstAppend(agent + ActionEntities(s, order), chains, key);
    FirstAppend(agent + ActionEntities(s, order'), chains, key);
    FirstAppend(agent, ActionEntities(s, order), key);
    FirstAppend(agent, ActionEntities(s, order'), key);
    FirstOfLattice(s, order, order', key);
  }

  lemma SameMembersSameMap(offered: seq<Entity>, offered': seq<Entity>)
    requires forall e :: e in FirstWins(offered) <==> e in FirstWins(offered')
    ensures LastWins(FirstWins(offered)) == LastWins(FirstWins(offered'))
  {
    DeduplicatedLookup(offered);
    DeduplicatedLookup(offered');
  }

  /** The entity map the server builds is the same for every iteration order of the lattice. */
  lemma WorldIgnoresIterationOrder(s: Schema, reqs: seq<Requirement>, world: seq<Entity>, world': seq<Entity>)
    requires IsWorld(s, reqs, world) && IsWorld(s, reqs, world')
    ensures LastWins(world) == LastWins(world')
  {
    var order :| IterationOrder(order, Lattice(s)) && world == FirstWins(Offered(s, order, reqs));
    var order' :| IterationOrder(order', Lattice(s)) && world' == FirstWins(Offered(s, order', reqs));
    forall e
      ensures e in world <==> e in world'
    {
      FirstWinsIsFirst(Offered(s, order, reqs), e);
      FirstWinsIsFirst(Offered(s, order', reqs), e);
      FirstOfOffered(s, reqs, order, order', Key(e.ref));
    }
    SameMembersSameMap(Offered(s, order, reqs), Offered(s, order', reqs));
  }

  // ---------- What a well-formed world contains ----------

  lemma {:induction false} ZeroSplits(a: string, b: string, c: string, d: string)
    requires '\0' !in a && '\0' !in c && a + ['\0'] + b == c + ['\0'] + d
    ensures a == c && b == d
  {
    var l, r := a + ['\0'] + b, c + ['\0'] + d;
    assert l[|a|] == '\0' && r[|c|] == '\0';
    assert forall i :: 0 <= i < |a| ==> l[i] == a[i];
    assert forall i :: 0 <= i < |c| ==> r[i] == c[i];
    assert |a| == |c|;
    assert a == l[..|a|] && c == r[..|c|];
    assert b == l[|a| + 1..] && d == r[|c| + 1..];
  }

  lemma {:induction false} EntityTypeNulFree(resources: seq<ResourceType>, name: string)
    requires forall t :: t in resources ==> '\0' !in t.entity
    ensures '\0' !in EntityTypeOf(resources, name)
  {
    if resources != [] && resources[0].name != name {
      EntityTypeNulFree(resources[1..], name);
    }
  }

  lemma {:induction false} ChainNulFree(s: Schema, r: ResourceRef)
    requires NulFree(s)
    ensures forall e :: e in ChainEntities(s, r) ==> '\0' !in e.ref.typ
    decreases r
  {
    EntityTypeNulFree(s.resources, r.typ);
    if r.parent.Some? {
      ChainNulFree(s, r.parent.value);
    }
  }

  lemma {:induction false} ChainsNulFree(s: Schema, reqs: seq<Requirement>)
    requires NulFree(s)
    ensures forall e :: e in ChainsEntities(s, reqs) ==> '\0' !in e.ref.typ
  {
    if reqs != [] {
      ChainsNulFree(s, reqs[..|reqs| - 1]);
      ChainNulFree(s, reqs[|reqs| - 1].resource);
    }
  }

  /** The hierarchy of the world: the lattice on action entities, the parent chains on resources. */
  ghost predicate Faithful(s: Schema, reqs: seq<Requirement>, h: map<EntityRef, seq<EntityRef>>)
  {
    && (forall n :: ActionRef(s, n) in h <==> n in Lattice(s))
    && (forall n :: n in Lattice(s) ==> h[ActionRef(s, n)] == ActionEntity(s, n, Lattice(s)[n]).parents)
    && (forall e :: e in ChainsEntities(s, reqs) ==> e.ref in h && h[e.ref] == e.parents)
  }

  lemma OfferedAgree(s: Schema, reqs: seq<Requirement>, order: seq<string>, e: Entity, f: Entity)
    requires WellFormed(s, reqs) && IterationOrder(order, Lattice(s))
    requires e in Offered(s, order, reqs) && f in Offered(s, order, reqs) && Key(e.ref) == Key(f.ref)
    ensures e.ref == f.ref && e.parents == f.parents
  {
    ChainsNulFree(s, reqs);
    ZeroSplits(e.ref.typ, e.ref.id, f.ref.typ, f.ref.id);
  }

  /** Whatever was offered is found in the world with the parents it was offered with. */
  lemma OfferedIsFound(s: Schema, reqs: seq<Requirement>, order: seq<string>, e: Entity)
    requires WellFormed(s, reqs) && IterationOrder(order, Lattice(s)) && e in Offered(s, order, reqs)
    ensures var h := Hierarchy(LastWins(FirstWins(Offered(s, order, reqs))));
            e.ref in h && h[e.ref] == e.parents
  {
    var offered := Offered(s, order, reqs);
    DeduplicatedLookup(offered);
    FirstWinsKeys(offered);
    assert Key(e.ref) in Keys(FirstWins(offered));
    var f :| f in FirstWins(offered) && Key(f.ref) == Key(e.ref);
    OfferedAgree(s, reqs, order, e, f);
  }

  lemma FoundActionIsDeclared(s: Schema, reqs: seq<Requirement>, order: seq<string>, n: string)
    requires WellFormed(s, reqs) && IterationOrder(order, Lattice(s))
    requires ActionRef(s, n) in LastWins(FirstWins(Offered(s, order, reqs)))
    ensures n in Lattice(s)
  {
    var offered := Offered(s, order, reqs);
    DeduplicatedLookup(offered);
    FirstWinsKeys(offered);
    var e :| e in FirstWins(offered) && e.ref == ActionRef(s, n);
    assert e in offered;
    LatticeEntities(s, order, e);
  }

  lemma WorldIsFaithful(s: Schema, reqs: seq<Requirement>, world: seq<Entity>)
    requires WellFormed(s, reqs) && IsWorld(s, reqs, world)
    ensures Faithful(s, reqs, Hierarchy(LastWins(world)))
  {
    var order :| IterationOrder(order, Lattice(s)) && world == FirstWins(Offered(s, order, reqs));
    var h := Hierarchy(LastWins(world));
    forall n | n in Lattice(s)
      ensures ActionRef(s, n) in h && h[ActionRef(s, n)] == ActionEntity(s, n, Lattice(s)[n]).parents
    {
      LatticeEntities(s, order, ActionEntity(s, n, Lattice(s)[n]));
      OfferedIsFound(s, reqs, order, ActionEntity(s, n, Lattice(s)[n]));
    }
    forall n | ActionRef(s, n) in h
      ensures n in Lattice(s)
    {
      FoundActionIsDeclared(s, reqs, order, n);
    }
    forall e | e in ChainsEntities(s, reqs)
      ensures e.ref in h && h[e.ref] == e.parents
    {
      OfferedIsFound(s, reqs, order, e);
    }
  }

  // ---------- Reachability in the world ----------

  lemma {:induction false} ActionHops(s: Schema, reqs: seq<Requirement>, h: map<EntityRef, seq<EntityRef>>, m: string,
                                      n: string, k: nat)
    requires Faithful(s, reqs, h)
    ensures Hops(h, ActionRef(s, m), ActionRef(s, n), k) <==> Hops(Lattice(s), m, n, k)
    decreases k
  {
    if k > 0 && m in Lattice(s) {
      var above, refs := Lattice(s)[m], h[ActionRef(s, m)];
      forall i | 0 <= i < |above|
        ensures refs[i] == ActionRef(s, above[i])
        ensures Hops(h, refs[i], ActionRef(s, n), k - 1) <==> Hops(Lattice(s), above[i], n, k - 1)
      {
        ActionHops(s, reqs, h, above[i], n, k - 1);
      }
      if Hops(h, ActionRef(s, m), ActionRef(s, n), k) {
        var i :| 0 <= i < |refs| && Hops(h, refs[i], ActionRef(s, n), k - 1);
        assert above[i] in above;
      }
      if Hops(Lattice(s), m, n, k) {
        var i :| 0 <= i < |above| && Hops(Lattice(s), above[i], n, k - 1);
        assert refs[i] in refs;
      }
    }
  }

  lemma ActionReach(s: Schema, reqs: seq<Requirement>, h: map<EntityRef, seq<EntityRef>>, m: string, n: string)
    requires Faithful(s, reqs, h)
    ensures Reaches(h, ActionRef(s, m), ActionRef(s, n)) <==> Reaches(Lattice(s), m, n)
  {
    forall k: nat
      ensures Hops(h, ActionRef(s, m), ActionRef(s, n), k) <==> Hops(Lattice(s), m, n, k)
    {
      ActionHops(s, reqs, h, m, n, k);
    }
  }

  lemma {:induction false} ResourceReach(s: Schema, reqs: seq<Requirement>, h: map<EntityRef, seq<EntityRef>>,
                                         r: ResourceRef, e: EntityRef)
    requires Faithful(s, reqs, h)
    requires forall x :: x in ChainEntities(s, r) ==> x in ChainsEntities(s, reqs)
    ensures Reaches(h, EntityRefOf(s, r), e) <==> e in Ancestry(s, r)
    decreases r
  {
    assert ResourceEntity(s, r) in ChainEntities(s, r);
    assert h[EntityRefOf(s, r)] == ResourceEntity(s, r).parents;
    ReachesUnfold(h, EntityRefOf(s, r), e);
    if r.parent.Some? {
      assert forall x :: x in ChainEntities(s, r.parent.value) ==> x in ChainEntities(s, r);
      ResourceReach(s, reqs, h, r.parent.value, e);
    }
  }

  lemma {:induction false} ChainsContain(s: Schema, reqs: seq<Requirement>, i: nat)
    requires i < |reqs|
    ensures forall x :: x in ChainEntities(s, reqs[i].resource) ==> x in ChainsEntities(s, reqs)
  {
    if i < |reqs| - 1 {
      ChainsContain(s, reqs[..|reqs| - 1], i);
    }
  }

  /** Every requirement's resource and all of its ancestors are entities of the world. */
  lemma {:induction false} WorldContainsAncestry(s: Schema, reqs: seq<Requirement>, world: seq<Entity>, r: ResourceRef)
    requires WellFormed(s, reqs) && IsWorld(s, reqs, world)
    requires forall x :: x in ChainEntities(s, r) ==> x in ChainsEntities(s, reqs)
    ensures forall e :: e in Ancestry(s, r) ==> e in LastWins(world)
    decreases r
  {
    WorldIsFaithful(s, reqs, world);
    assert ResourceEntity(s, r) in ChainEntities(s, r);
    if r.parent.Some? {
      assert forall x :: x in ChainEntities(s, r.parent.value) ==> x in ChainEntities(s, r);
      WorldContainsAncestry(s, reqs, world, r.parent.value);
    }
  }

  // ---------- The theorem ----------

  lemma ActionsMeanCovered(s: Schema, reqs: seq<Requirement>, h: map<EntityRef, seq<EntityRef>>, c: Capability,
                           p: Policy, r: Requirement)
    requires Faithful(s, reqs, h) && HasHeadOf(s, c, p)
    ensures (exists a :: a in p.actions && Reaches(h, ActionRef(s, r.action), a))
            <==> exists a :: a in c.actions && Reaches(Lattice(s), r.action, a)
  {
    forall k | 0 <= k < |c.actions|
      ensures Reaches(h, ActionRef(s, r.action), p.actions[k]) <==> Reaches(Lattice(s), r.action, c.actions[k])
    {
      ActionReach(s, reqs, h, r.action, c.actions[k]);
    }
  }

  /** A policy's head is satisfied in the world exactly when its capability covers the requirement. */
  lemma HeadMeansCovers(s: Schema, reqs: seq<Requirement>, world: seq<Entity>, c: Capability, p: Policy, r: Requirement)
    requires WellFormed(s, reqs) && IsWorld(s, reqs, world)
    requires r in reqs && HasHeadOf(s, c, p)
    ensures HeadSatisfied(LastWins(world), p, Question(s, r)) <==> Covers(s, c, r)
  {
    var h := Hierarchy(LastWins(world));
    WorldIsFaithful(s, reqs, world);
    var i :| 0 <= i < |reqs| && reqs[i] == r;
    ChainsContain(s, reqs, i);
    ResourceReach(s, reqs, h, r.resource, p.scope);
    ActionsMeanCovered(s, reqs, h, c, p, r);
  }

  lemma PermitMeansCovers(s: Schema, reqs: seq<Requirement>, world: seq<Entity>, c: Capability, p: Policy,
                          r: Requirement)
    requires WellFormed(s, reqs) && IsWorld(s, reqs, world)
    requires r in reqs && IsPermitFor(s, c, p)
    ensures p.effect == Permit && (Satisfied(LastWins(world), p, Question(s, r)) <==> Covers(s, c, r))
  {
    HeadMeansCovers(s, reqs, world, c, p, r);
  }

  /** Permits alone allow a question exactly when one of them is satisfied. */
  lemma AllowsOfPermits(em: EntityMap, policies: seq<Policy>, q: Request)
    requires forall i :: 0 <= i < |policies| ==> policies[i].effect == Permit
    ensures Allows(em, policies, q) <==> exists i :: 0 <= i < |policies| && Satisfied(em, policies[i], q)
  {
    if i :| 0 <= i < |policies| && Satisfied(em, policies[i], q) {
      assert policies[i] in policies;
    }
  }

  lemma AllowsMeansCovered(s: Schema, caps: seq<Capability>, policies: seq<Policy>, reqs: seq<Requirement>,
                           world: seq<Entity>, r: Requirement)
    requires WellFormed(s, reqs) && Compiled(s, caps, policies) && IsWorld(s, reqs, world) && r in reqs
    ensures Allows(LastWins(world), policies, Question(s, r)) <==> exists i :: 0 <= i < |caps| && Covers(s, caps[i], r)
  {
    AllowsOfPermits(LastWins(world), policies, Question(s, r));
    forall i | 0 <= i < |caps|
      ensures Satisfied(LastWins(world), policies[i], Question(s, r)) <==> Covers(s, caps[i], r)
    {
      PermitMeansCovers(s, reqs, world, caps[i], policies[i], r);
    }
  }

  lemma QuestionsMembers(s: Schema, reqs: seq<Requirement>)
    ensures forall r :: r in reqs ==> Question(s, r) in Questions(s, reqs)
    ensures forall q :: q in Questions(s, reqs) ==> exists r :: r in reqs && q == Question(s, r)
  {
    forall i | 0 <= i < |reqs|
      ensures Question(s, reqs[i]) in Questions(s, reqs)
    {
      assert Questions(s, reqs)[i] == Question(s, reqs[i]);
    }
  }

  /** Compilation preserves meaning: the server allows exactly what the capabilities cover. */
  lemma CompilationPreservesMeaning(s: Schema, caps: seq<Capability>, policies: seq<Policy>, reqs: seq<Requirement>,
                                    world: seq<Entity>)
    requires WellFormed(s, reqs) && Compiled(s, caps, policies) && IsWorld(s, reqs, world)
    ensures Decision(LastWins(world), policies, Questions(s, reqs)) <==>
            reqs != [] && forall r :: r in reqs ==> exists i :: 0 <= i < |caps| && Covers(s, caps[i], r)
  {
    QuestionsMembers(s, reqs);
    forall r | r in reqs
      ensures Allows(LastWins(world), policies, Question(s, r))
              <==> exists i :: 0 <= i < |caps| && Covers(s, caps[i], r)
    {
      AllowsMeansCovered(s, caps, policies, reqs, world, r);
    }
  }
}
