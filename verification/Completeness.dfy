/**
 What is signed and approved gets through. Any run of the handlers can be extended so that a signed
 item is submitted, approved and used; hence the guarantees about verifications speak of something.
 */
module Completeness {
  import opened Basics
  import opened Cedar
  import opened Schemas
  import opened Compiler
  import opened CompilerLaws
  import opened Templates
  import opened Proposals
  import opened StoreModel
  import opened StoreLaws
  import opened Handlers
  import opened Authorization

  // ---------- Extending a run ----------

  ghost predicate Extends(moves: seq<Move>, more: seq<Move>)
  {
    |moves| <= |more| && more[..|moves|] == moves
  }

  lemma ExtendsFurther(moves: seq<Move>, more: seq<Move>, most: seq<Move>)
    requires Extends(moves, more) && Extends(more, most)
    ensures Extends(moves, most)
  {
    assert most[..|more|][..|moves|] == most[..|moves|];
  }

  lemma OneMove(c: Config, start: Time, moves: seq<Move>, a: Move)
    requires Possible(c, start, moves) && Enabled(Execute(c, start, moves), a) && Timely(c, Execute(c, start, moves), a)
    ensures Possible(c, start, moves + [a]) && Execute(c, start, moves + [a]) == Act(c, Execute(c, start, moves), a)
    ensures Extends(moves, moves + [a])
  {
    assert (moves + [a])[..|moves|] == moves && (moves + [a])[|moves|] == a;
  }

  /** All readings of the clock at one moment. */
  function At(now: Time): Timing { Timing(now, now, now, [], map[]) }

  lemma {:induction false} Above(ids: set<nat>) returns (bound: nat)
    ensures forall h :: h in ids ==> h < bound
  {
    bound := 0;
    if ids != {} {
      var h :| h in ids;
      var rest := Above(ids - {h});
      bound := if h < rest then rest else h + 1;
      assert forall x :: x in ids ==> x == h || x in ids - {h};
    }
  }

  lemma CanAdvance(c: Config, sys: System, h: nat)
    requires h in sys.handlers
    ensures Enabled(sys, Advance(h, At(sys.now))) && Timely(c, sys, Advance(h, At(sys.now)))
  {
  }

  lemma CanArrive(c: Config, sys: System, h: nat, handler: Handler)
    requires h !in sys.handlers && (handler.Submitting? || handler.Opening? || handler.Verifying?)
    ensures Enabled(sys, Arrive(h, handler)) && Timely(c, sys, Arrive(h, handler))
    ensures Act(c, sys, Arrive(h, handler)) == sys.(handlers := sys.handlers[h := handler])
  {
  }

  /** A handler arrives and makes its first transaction. */
  lemma Begin(c: Config, start: Time, moves: seq<Move>, handler: Handler) returns (more: seq<Move>, h: nat)
    requires Possible(c, start, moves) && (handler.Submitting? || handler.Opening? || handler.Verifying?)
    ensures Possible(c, start, more) && Extends(moves, more)
    ensures var sys := Execute(c, start, moves);
            h !in sys.handlers && Execute(c, start, more)
                == Act(c, sys.(handlers := sys.handlers[h := handler]), Advance(h, At(sys.now)))
  {
    var sys := Execute(c, start, moves);
    h := Above(sys.handlers.Keys);
    CanArrive(c, sys, h, handler);
    OneMove(c, start, moves, Arrive(h, handler));
    var arrived := moves + [Arrive(h, handler)];
    more := Continued(c, start, arrived, h);
    ExtendsFurther(moves, arrived, more);
  }

  lemma Continued(c: Config, start: Time, moves: seq<Move>, h: nat) returns (more: seq<Move>)
    requires Possible(c, start, moves) && h in Execute(c, start, moves).handlers
    ensures Possible(c, start, more) && Extends(moves, more)
    ensures Execute(c, start, more) == Act(c, Execute(c, start, moves), Advance(h, At(Execute(c, start, moves).now)))
  {
    CanAdvance(c, Execute(c, start, moves), h);
    OneMove(c, start, moves, Advance(h, At(Execute(c, start, moves).now)));
    more := moves + [Advance(h, At(Execute(c, start, moves).now))];
  }

  // ---------- The four stages ----------

  /** The token is made known, whatever it held is revoked, and an item is signed. */
  lemma Register(c: Config, start: Time, moves: seq<Move>, token: Token, item: SignedItem) returns (more: seq<Move>)
    requires Possible(c, start, moves)
    ensures Possible(c, start, more) && Extends(moves, more)
    ensures var sys, sys' := Execute(c, start, moves), Execute(c, start, more);
            && sys'.now == sys.now && sys'.log == sys.log + [Signed(item)]
            && sys'.store == Revoked(SubjectCreated(sys.store, token, sys.now), token)
  {
    var now := Execute(c, start, moves).now;
    var create := Other(Event(now, now, now, CreateSubject(token)));
    var revoke := Other(Event(now, now, now, RevokeGrants(token)));
    OneMove(c, start, moves, create);
    OneMove(c, start, moves + [create], revoke);
    OneMove(c, start, moves + [create] + [revoke], SignItem(item));
    more := moves + [create] + [revoke] + [SignItem(item)];
    assert more[..|moves|] == moves;
  }

  lemma Submit(c: Config, start: Time, moves: seq<Move>, sub: Submission) returns (more: seq<Move>, p: Proposal)
    requires Possible(c, start, moves) && sub.token != "" && sub.token in Execute(c, start, moves).store.subjects
    requires sub.email != "" && sub.items != [] && ItemsVerify(c, sub.items)
    ensures Possible(c, start, more) && Extends(moves, more)
    ensures var sys, sys' := Execute(c, start, moves), Execute(c, start, more);
            && p == NewProposal(sys.store, sub.token, c.lower(sub.email), sub.reason, sub.items, c.requestTTL, sys.now)
            && sys'.now == sys.now && sys'.log == sys.log + [Submitted(sub, p)]
                && sys'.store == ProposalCreated(sys.store, p)
  {
    var sys := Execute(c, start, moves);
    var first, h := Begin(c, start, moves, Submitting(sub));
    more := Continued(c, start, first, h);
    p := NewProposal(sys.store, sub.token, c.lower(sub.email), sub.reason, sub.items, c.requestTTL, sys.now);
    ExtendsFurther(moves, first, more);
  }

  lemma Decide(c: Config, start: Time, moves: seq<Move>, f: DecisionForm) returns (more: seq<Move>)
    requires Possible(c, start, moves) && f.choice.Approval?
    requires var sys := Execute(c, start, moves);
             && f.id in sys.store.proposals && Gate(c, f.session, sys.store.proposals[f.id])
             && sys.store.proposals[f.id].status == Pending && sys.now < sys.store.proposals[f.id].expiresAt
    ensures Possible(c, start, more) && Extends(moves, more)
    ensures var sys, sys' := Execute(c, start, moves), Execute(c, start, more);
            && sys'.now == sys.now && sys'.log == sys.log + [Resolved(f.id, true, f.session, sys.now)]
            && sys'.store == ApproveResult(sys.store, f.id, ParseTTL(f.ttl), sys.now, []).0
  {
    var sys := Execute(c, start, moves);
    var first, h := Begin(c, start, moves, Opening(f));
    more := Continued(c, start, first, h);
    ExtendsFurther(moves, first, more);
  }

  lemma Verify(c: Config, start: Time, moves: seq<Move>, token: Token) returns (more: seq<Move>)
    requires Possible(c, start, moves)
    ensures Possible(c, start, more) && Extends(moves, more)
    ensures var sys := Execute(c, start, moves);
            Execute(c, start, more).log
                == sys.log + [Used(token, ActiveFor(sys.store.grants, token, map[], sys.now), sys.now, sys.now)]
  {
    var h;
    more, h := Begin(c, start, moves, Verifying(token));
  }

  // ---------- From signature to decision ----------

  /** The grant an approval makes for a proposal of one item, all clocks standing still. */
  function OnlyGrant(st: State, p: Proposal, ttl: int, now: Time): Grant
    requires p.items != []
  {
    Grant(st.nextId, p.token, p.id, p.items[0], now, now + ttl)
  }

  lemma ApprovalOfOne(st: State, id: Id, ttl: int, now: Time)
    requires Consistent(st) && StoreModel.Decide(st, id, now).Done? && |st.proposals[id].items| == 1
    ensures ApproveResult(st, id, ttl, now, []).0.grants
            == st.grants[st.nextId := OnlyGrant(st, st.proposals[id], ttl, now)]
    ensures st.nextId !in st.grants
  {
    var p := st.proposals[id].(status := Approved);
    assert GrantsFor(p, st.nextId, 0, now, [], ttl) == map[];
    assert GrantsFor(p, st.nextId, 1, now, [], ttl) == map[st.nextId := OnlyGrant(st, p, ttl, now)];
  }

  /** After an approval a token that held nothing holds one active grant, for the proposal's item. */
  lemma ApprovedIsHeld(st: State, id: Id, ttl: int, now: Time)
    requires Consistent(st) && StoreModel.Decide(st, id, now).Done? && |st.proposals[id].items| == 1 && ttl > 0
    requires Held(st.grants, st.proposals[id].token) == {}
    ensures ActiveFor(ApproveResult(st, id, ttl, now, []).0.grants, st.proposals[id].token, map[], now)
            == {OnlyGrant(st, st.proposals[id], ttl, now)}
  {
    var token, after := st.proposals[id].token, ApproveResult(st, id, ttl, now, []).0.grants;
    ApprovalOfOne(st, id, ttl, now);
    assert forall k :: k in st.grants ==> st.grants[k].token != token by {
      assert forall k :: k in st.grants && st.grants[k].token == token ==> k in Held(st.grants, token);
    }
    assert Held(after, token) == {st.nextId};
    assert Stale(after, token, map[], now) == {};
  }

  lemma SubmittedGetsUsed(c: Config, start: Time, moves: seq<Move>, p: Proposal)
    returns (more: seq<Move>, d: Entry, u: Entry, g: Grant)
    requires Possible(c, start, moves) && |p.items| == 1
    requires var sys := Execute(c, start, moves);
             && p.id in sys.store.proposals && sys.store.proposals[p.id] == p && p.status == Pending
                 && sys.now < p.expiresAt
             && Held(sys.store.grants, p.token) == {}
    ensures Possible(c, start, more) && Extends(moves, more)
    ensures Execute(c, start, more).log == Execute(c, start, moves).log + [d] + [u]
    ensures d.Resolved? && u.Used? && u.token == p.token && u.grants == {g} && g.item == p.items[0]
  {
    var sys := Execute(c, start, moves);
    RunKeepsInvariant(c, start, moves);
    var f := DecisionForm(p.id, Some(p.approverEmail), Approval, None);
    var decided := Decide(c, start, moves, f);
    more := Verify(c, start, decided, p.token);
    ExtendsFurther(moves, decided, more);
    ApprovedIsHeld(sys.store, p.id, ParseTTL(f.ttl), sys.now);
    g := OnlyGrant(sys.store, p, ParseTTL(f.ttl), sys.now);
    d := Resolved(f.id, true, f.session, sys.now);
    u := Used(p.token, {g}, sys.now, sys.now);
  }

  /** Any run can be extended so that a verified item's grant is the one a verification uses. */
  lemma SignedGetsUsed(c: Config, start: Time, moves: seq<Move>, item: SignedItem, token: Token, email: string)
    returns (more: seq<Move>, sub: Submission, p: Proposal, d: Entry, u: Entry, g: Grant)
    requires Possible(c, start, moves) && ItemVerifies(c, item) && token != "" && email != "" && c.requestTTL > 0
    ensures Possible(c, start, more) && Extends(moves, more)
    ensures Execute(c, start, more).log == Execute(c, start,
            moves).log + [Signed(item)] + [Submitted(sub, p)] + [d] + [u]
    ensures p.items == [item] && d.Resolved? && u.Used? && u.token == token && u.grants == {g} && g.item == item
  {
    var registered := Register(c, start, moves, token, item);
    var submitted;
    sub := Submission(token, email, "", [item]);
    submitted, p := Submit(c, start, registered, sub);
    more, d, u, g := SubmittedGetsUsed(c, start, submitted, p);
    ExtendsFurther(moves, registered, submitted);
    ExtendsFurther(moves, submitted, more);
  }

  /** The four new entries keep the run honest. */
  lemma StaysHonest(schemas: Vocabularies, log: seq<Entry>, item: SignedItem, sub: Submission, p: Proposal, d: Entry,
                    u: Entry)
    requires SignsIssued(schemas, log) && Unforged(log) && IssuedBy(schemas, item) && p.items == [item] && d.Resolved?
             && u.Used?
    ensures SignsIssued(schemas, log + [Signed(item)] + [Submitted(sub, p)] + [d] + [u])
    ensures Unforged(log + [Signed(item)] + [Submitted(sub, p)] + [d] + [u])
  {
    var all := log + [Signed(item)] + [Submitted(sub, p)] + [d] + [u];
    forall h, i | 0 <= h < |all| && all[h].Submitted? && i in all[h].proposal.items
      ensures SignedBefore(all, h, i)
    {
      if h < |log| {
        assert SignedBefore(log, h, i);
        var f :| 0 <= f < h && log[f].Signed? && Canonical(log[f].item) == Canonical(i);
        assert all[f] == log[f];
      } else {
        assert all[|log|] == Signed(item);
      }
    }
  }

  lemma CoveredIsGranted(schemas: Vocabularies, id: string, caps: seq<Capability>, g: Grant, r: Requirement, i: nat)
    requires id in schemas && g.item.serverId == id && Compiled(schemas[id], caps, g.item.policies)
    requires i < |caps| && Covers(schemas[id], caps[i], r)
    ensures Grants(schemas, id, g, r)
  {
    assert IsPermitFor(schemas[id], caps[i], g.item.policies[i]);
  }

  /** The bundle covers an operation, whose world and questions are as the resource server builds them. */
  ghost predicate CoversAll(s: Schema, caps: seq<Capability>, reqs: seq<Requirement>, world: seq<Entity>)
  {
    && WellFormed(s, reqs) && CoherentAttrs(s, reqs) && IsWorld(s, reqs, world)
    && reqs != [] && forall r :: r in reqs ==> CoveredBy(s, caps, r)
  }

  /** An operation the bundle covers is answered with yes, whatever order the policies come in. */
  ghost predicate YesWhenCovered(w: Wire, s: Schema, caps: seq<Capability>, used: set<Grant>, reqs: seq<Requirement>,
                                 world: seq<Entity>, policies: seq<Policy>, reply: Reply)
  {
    CoversAll(s, caps, reqs, world) && Replies(w, LastWins(world), used, Questions(s, reqs), policies, reply) ==>
        reply == Answer(true)
  }

  ghost predicate AnswersYes(w: Wire, s: Schema, caps: seq<Capability>, used: set<Grant>)
  {
    forall reqs, world, policies, reply :: YesWhenCovered(w, s, caps, used, reqs, world, policies, reply)
  }

  /**
   Signing is enough to be granted what was asked: whatever has happened before, a compiled bundle
   whose policies parse can be submitted, approved and then used, and the verification answers yes to
   every operation whose requirements the bundle's capabilities cover.
   */
  lemma CoveredGetsThrough(c: Config, w: Wire, schemas: Vocabularies, id: string, start: Time, moves: seq<Move>,
                           caps: seq<Capability>, item: SignedItem, token: Token, email: string)
    returns (more: seq<Move>)
    requires Possible(c, start, moves) && OwnAgents(schemas) && id in schemas
    requires SignsIssued(schemas, Execute(c, start, moves).log) && Unforged(Execute(c, start, moves).log)
    requires ItemVerifies(c, item) && item.serverId == id && Compiled(schemas[id], caps, item.policies)
             && w.parses(item.policies)
    requires token != "" && email != "" && c.requestTTL > 0
    ensures Possible(c, start, more) && Extends(moves, more)
    ensures var log := Execute(c, start, more).log;
            && SignsIssued(schemas, log) && Unforged(log)
            && log != [] && log[|log| - 1].Used? && log[|log| - 1].token == token
            && AnswersYes(w, schemas[id], caps, log[|log| - 1].grants)
  {
    var sub, p, d, u, g;
    more, sub, p, d, u, g := SignedGetsUsed(c, start, moves, item, token, email);
    CompiledAreIssued(schemas[id], caps, item.policies);
    StaysHonest(schemas, Execute(c, start, moves).log, item, sub, p, d, u);
    forall reqs, world, policies, reply
      ensures YesWhenCovered(w, schemas[id], caps, u.grants, reqs, world, policies, reply)
    {
      if CoversAll(schemas[id], caps, reqs, world) && Replies(w, LastWins(world), u.grants,
          Questions(schemas[id], reqs), policies, reply) {
        CoveredIsAllowed(schemas, id, caps, g, reqs, world);
        GatheredFromOne(g, policies);
        YesMeansDecided(w, LastWins(world), u.grants, Questions(schemas[id], reqs), policies, reply);
      }
    }
  }

  ghost predicate CoveredBy(s: Schema, caps: seq<Capability>, r: Requirement)
  {
    exists i :: 0 <= i < |caps| && Covers(s, caps[i], r)
  }

  lemma CoveredIsAllowed(schemas: Vocabularies, id: string, caps: seq<Capability>, g: Grant, reqs: seq<Requirement>,
                         world: seq<Entity>)
    requires OwnAgents(schemas) && id in schemas && IssuedBy(schemas, g.item)
    requires g.item.serverId == id && Compiled(schemas[id], caps, g.item.policies)
             && CoversAll(schemas[id], caps, reqs, world)
    ensures DecisionOn(LastWins(world), {g}, Questions(schemas[id], reqs))
  {
    DecisionMeansAuthorized(schemas, id, {g}, reqs, world);
    forall r | r in reqs
      ensures exists used :: used in {g} && Grants(schemas, id, used, r)
    {
      assert CoveredBy(schemas[id], caps, r);
      var i :| 0 <= i < |caps| && Covers(schemas[id], caps[i], r);
      CoveredIsGranted(schemas, id, caps, g, r, i);
      assert g in {g};
    }
  }
}
