/**
 The authorization server's handlers as concurrent programs over the store. A handler is a few
 store transactions with checks in between; any number of them interleave with each other, with
 the administrator and with the janitor. The log records what the handlers achieved.
 */
module Handlers {
  import opened Basics
  import opened Proposals
  import opened StoreModel
  import opened StoreLaws

  /** `lower` is lower-casing of e-mail addresses; `secrets` are the registered resource servers. */
  datatype Config = Config(mac: Mac, secrets: map<string, string>, lower: string -> string, authEnabled: bool,
                           requestTTL: int)

  datatype Submission = Submission(token: Token, email: string, reason: string, items: seq<SignedItem>)

  datatype Choice = Approval | Rejection | Invalid

  /**
   A decision form posted with the e-mail of the signed-in session, if any; `ttl` is what its
   duration text reads as.
   */
  datatype DecisionForm = DecisionForm(id: Id, session: Option<string>, choice: Choice, ttl: Option<int>)

  /** Two minutes, in nanoseconds. */
  const DefaultTTL := 120_000_000_000

  function ParseTTL(ttl: Option<int>): (lifetime: int)
    ensures lifetime > 0
  {
    if ttl.Some? && ttl.value > 0 then ttl.value else DefaultTTL
  }

  datatype Handler =
    | Submitting(s: Submission)        // about to look the subject up
    | Accepted(s: Submission)          // subject known and items verified: about to create the proposal
    | Opening(form: DecisionForm)      // about to load the proposal
    | Gated(form: DecisionForm)        // past the approver gate: about to decide
    | Verifying(token: Token)          // authenticated resource server: about to read the grants
    | Finished

  datatype Entry =
    | Signed(item: SignedItem)
    | Submitted(sub: Submission, proposal: Proposal)
    | Resolved(id: Id, approved: bool, session: Option<string>, at: Time)
    | Used(token: Token, grants: set<Grant>, at: Time, until: Time)

  datatype System = System(store: State, handlers: map<nat, Handler>, log: seq<Entry>, now: Time)

  /** The clock readings of one transaction. */
  datatype Timing = Timing(lo: Time, at: Time, hi: Time, stamps: seq<Stamp>, readings: map<Id, Time>)

  datatype Move =
    | Arrive(h: nat, handler: Handler)
    | Advance(h: nat, t: Timing)
    | Other(e: Event)
    | SignItem(item: SignedItem)

  predicate ItemVerifies(c: Config, i: SignedItem)
  {
    i.serverId in c.secrets && Verifies(c.mac, c.secrets[i.serverId], i)
  }

  predicate ItemsVerify(c: Config, items: seq<SignedItem>)
  {
    forall i :: i in items ==> ItemVerifies(c, i)
  }

  /** Only the named approver passes, unless authentication is off. */
  predicate Gate(c: Config, session: Option<string>, p: Proposal)
  {
    !c.authEnabled || session == Some(p.approverEmail)
  }

  /** The transaction a handler makes next. */
  function NextOp(c: Config, h: Handler, t: Timing): Op
  {
    match h
    case Submitting(s) => SubjectExists(s.token)
    case Accepted(s) => CreateProposal(s.token, c.lower(s.email), s.reason, s.items, c.requestTTL)
    case Opening(f) => GetProposal(f.id)
    case Gated(f) => if f.choice.Approval? then Approve(f.id, ParseTTL(f.ttl), t.stamps) else Reject(f.id)
    case Verifying(token) => ReadSubject(token, t.readings)
    case Finished => AllProposals
  }

  function EventOf(c: Config, h: Handler, t: Timing): Event
  {
    Event(t.lo, t.at, t.hi, NextOp(c, h, t))
  }

  /** Where the handler goes, given what its transaction showed. */
  function Continue(c: Config, h: Handler, seen: Seen): Handler
  {
    match h
    case Submitting(s) =>
      if seen == Known(true) && s.email != "" && s.items != [] && ItemsVerify(c, s.items) then Accepted(s) else Finished
    case Opening(f) =>
      if seen.Looked? && seen.found.Some? && Gate(c, f.session, seen.found.value) && !f.choice.Invalid?
      then Gated(f) else Finished
    case _ => Finished
  }

  function Logged(h: Handler, seen: Seen, t: Timing): seq<Entry>
  {
    match h
    case Accepted(s) => if seen.Created? then [Submitted(s, seen.proposal)] else []
    case Gated(f) =>
      if seen.Decided? && seen.outcome.Done? then [Resolved(f.id, f.choice.Approval?, f.session, t.at)] else []
    case Verifying(token) => if seen.Listed? then [Used(token, seen.grants, t.lo, t.hi)] else []
    case _ => []
  }

  /** Requests arrive at the beginning of their handler; what else touches the store decides nothing. */
  predicate Enabled(sys: System, a: Move)
  {
    match a
    case Arrive(h, handler) => h !in sys.handlers && (handler.Submitting? || handler.Opening? || handler.Verifying?)
    case Advance(h, t) => h in sys.handlers && sys.now <= t.lo
    case SignItem(_) => true
    case Other(e) => sys.now <= e.lo && !e.op.CreateProposal? && !e.op.Approve? && !e.op.Reject?
  }

  ghost predicate Timely(c: Config, sys: System, a: Move)
  {
    match a
    case Arrive(_, _) => true
    case Advance(h, t) => h in sys.handlers && InWindow(EventOf(c, sys.handlers[h], t))
    case SignItem(_) => true
    case Other(e) => InWindow(e)
  }

  function Act(c: Config, sys: System, a: Move): System
  {
    match a
    case Arrive(h, handler) => sys.(handlers := sys.handlers[h := handler])
    case Advance(h, t) =>
      if h !in sys.handlers then sys
      else
        var handler := sys.handlers[h];
        var (store, seen) := Step(sys.store, EventOf(c, handler, t));
        System(store, sys.handlers[h := Continue(c, handler, seen)], sys.log + Logged(handler, seen, t), t.hi)
    case SignItem(item) => sys.(log := sys.log + [Signed(item)])
    case Other(e) => sys.(store := Step(sys.store, e).0, now := e.hi)
  }

  function Empty(start: Time): System { System(State(map[], map[], map[], 0), map[], [], start) }

  function Execute(c: Config, start: Time, moves: seq<Move>): System
  {
    if moves == [] then Empty(start)
    else Act(c, Execute(c, start, moves[..|moves| - 1]), moves[|moves| - 1])
  }

  /** Every move was possible, and well timed, when it was taken. */
  ghost predicate Possible(c: Config, start: Time, moves: seq<Move>)
  {
    moves != [] ==>
      var before := Execute(c, start, moves[..|moves| - 1]);
      Possible(c, start, moves[..|moves| - 1])
      && Enabled(before, moves[|moves| - 1]) && Timely(c, before, moves[|moves| - 1])
  }

  // ---------- The invariant ----------

  /** Some logged submission, of verified items, is where a proposal comes from. */
  ghost predicate Sourced(c: Config, log: seq<Entry>, p: Proposal)
  {
    exists h :: 0 <= h < |log| && log[h].Submitted? && SameButStatus(log[h].proposal, p) && ItemsVerify(c, p.items)
  }

  /** The submission `sub`, then the approval `dec`, justify the grant. */
  ghost predicate Justifies(c: Config, sub: Entry, dec: Entry, g: Grant)
  {
    && sub.Submitted? && dec.Resolved? && dec.approved
    && sub.proposal.id == dec.id == g.proposalId && sub.proposal.token == g.token
    && g.item in sub.proposal.items && ItemsVerify(c, sub.proposal.items)
    && dec.at < sub.proposal.expiresAt && dec.at <= g.createdAt
    && sub.proposal.approverEmail == c.lower(sub.sub.email)
    && (c.authEnabled ==> dec.session == Some(c.lower(sub.sub.email)))
  }

  ghost predicate Backed(c: Config, log: seq<Entry>, g: Grant)
  {
    exists h, i :: 0 <= h < i < |log| && Justifies(c, log[h], log[i], g)
  }

  function StatusOf(approved: bool): Status { if approved then Approved else Rejected }

  ghost predicate HandlerOk(c: Config, store: State, h: Handler)
  {
    match h
    case Accepted(s) => ItemsVerify(c, s.items)
    case Gated(f) => f.id in store.proposals && Gate(c, f.session, store.proposals[f.id])
    case _ => true
  }

  /** The proposal was submitted before, and with authentication on the session is of the approver named then. */
  ghost predicate ByNamed(c: Config, log: seq<Entry>, j: nat, id: Id, session: Option<string>)
    requires j <= |log|
  {
    exists h :: 0 <= h < j && log[h].Submitted? && log[h].proposal.id == id
                && (c.authEnabled ==> session == Some(c.lower(log[h].sub.email)))
  }

  ghost predicate EntryOk(c: Config, store: State, log: seq<Entry>, j: nat)
    requires j < |log|
  {
    match log[j]
    case Signed(_) => true
    case Submitted(sub, p) =>
      && p.approverEmail == c.lower(sub.email) && p.token == sub.token && p.reason == sub.reason && p.items == sub.items
    case Resolved(id, approved, session, at) =>
      && id in store.proposals && store.proposals[id].status == StatusOf(approved)
      && Gate(c, session, store.proposals[id]) && at < store.proposals[id].expiresAt && ByNamed(c, log, j, id, session)
      && forall i :: 0 <= i < j ==> !(log[i].Resolved? && log[i].id == id)
    case Used(token, grants, at, _) =>
      forall g :: g in grants ==> g.token == token && at < g.expiresAt && Backed(c, log[..j], g)
  }

  ghost predicate Invariant(c: Config, sys: System)
  {
    && Consistent(sys.store)
    && (forall h :: h in sys.handlers ==> HandlerOk(c, sys.store, sys.handlers[h]))
    && (forall k :: k in sys.store.proposals ==> Sourced(c, sys.log, sys.store.proposals[k]))
    && (forall k :: k in sys.store.grants ==> Backed(c, sys.log, sys.store.grants[k]))
    && (forall j :: 0 <= j < |sys.log| ==> EntryOk(c, sys.store, sys.log, j))
  }

  // ---------- What a step of the store preserves ----------

  lemma SourcedGrows(c: Config, log: seq<Entry>, more: seq<Entry>, p: Proposal, q: Proposal)
    requires Sourced(c, log, p) && SameButStatus(p, q)
    ensures Sourced(c, log + more, q)
  {
    var h :| 0 <= h < |log| && log[h].Submitted? && SameButStatus(log[h].proposal, p);
    assert (log + more)[h] == log[h];
  }

  lemma BackedGrows(c: Config, log: seq<Entry>, more: seq<Entry>, g: Grant)
    requires Backed(c, log, g)
    ensures Backed(c, log + more, g)
  {
    var h, i :| 0 <= h < i < |log| && Justifies(c, log[h], log[i], g);
    assert (log + more)[h] == log[h] && (log + more)[i] == log[i];
  }

  lemma HandlerStaysOk(c: Config, store: State, e: Event, h: Handler)
    requires Consistent(store) && HandlerOk(c, store, h)
    ensures HandlerOk(c, Step(store, e).0, h)
  {
    if h.Gated? {
      ProposalStep(store, e, h.form.id);
    }
  }

  lemma EntryStaysOk(c: Config, store: State, e: Event, log: seq<Entry>, more: seq<Entry>, j: nat)
    requires Consistent(store) && j < |log| && EntryOk(c, store, log, j)
    ensures EntryOk(c, Step(store, e).0, log + more, j)
  {
    assert (log + more)[j] == log[j] && (log + more)[..j] == log[..j];
    if log[j].Resolved? {
      ProposalStep(store, e, log[j].id);
      forall i | 0 <= i < j
        ensures (log + more)[i] == log[i]
      {
      }
      var h :| 0 <= h < j && log[h].Submitted? && log[h].proposal.id == log[j].id
               && (c.authEnabled ==> log[j].session == Some(c.lower(log[h].sub.email)));
      assert (log + more)[h] == log[h];
    }
  }

  /** A proposal after any step but its own creation was there before. */
  lemma ProposalsStaySourced(c: Config, store: State, e: Event, log: seq<Entry>, more: seq<Entry>, k: Id)
    requires Consistent(store) && k in store.proposals && Sourced(c, log, store.proposals[k])
    ensures k in Step(store, e).0.proposals && Sourced(c, log + more, Step(store, e).0.proposals[k])
  {
    ProposalStep(store, e, k);
    SourcedGrows(c, log, more, store.proposals[k], Step(store, e).0.proposals[k]);
  }

  lemma NoNewProposals(store: State, e: Event)
    requires !e.op.CreateProposal?
    ensures Step(store, e).0.proposals.Keys == store.proposals.Keys
  {
  }

  lemma GrantsStayBacked(c: Config, store: State, e: Event, log: seq<Entry>, more: seq<Entry>, k: Id)
    requires Consistent(store) && k in store.grants && k in Step(store, e).0.grants && Backed(c, log, store.grants[k])
    ensures Backed(c, log + more, Step(store, e).0.grants[k])
  {
    OnlyApprovalAdds(store, e);
    BackedGrows(c, log, more, store.grants[k]);
  }

  /** What the invariant says about everything that was already there carries over any store step. */
  lemma OldFactsCarryOver(c: Config, sys: System, e: Event, more: seq<Entry>)
    requires Invariant(c, sys)
    ensures var store, log := Step(sys.store, e).0, sys.log + more;
            && Consistent(store)
            && (forall h :: h in sys.handlers ==> HandlerOk(c, store, sys.handlers[h]))
            && (forall k :: k in sys.store.proposals ==> k in store.proposals && Sourced(c, log, store.proposals[k]))
            && (forall k :: k in sys.store.grants && k in store.grants ==> Backed(c, log, store.grants[k]))
            && (forall j :: 0 <= j < |sys.log| ==> EntryOk(c, store, log, j))
  {
    StepKeepsConsistent(sys.store, e);
    forall h | h in sys.handlers
      ensures HandlerOk(c, Step(sys.store, e).0, sys.handlers[h])
    {
      HandlerStaysOk(c, sys.store, e, sys.handlers[h]);
    }
    forall k | k in sys.store.proposals
      ensures k in Step(sys.store, e).0.proposals && Sourced(c, sys.log + more, Step(sys.store, e).0.proposals[k])
    {
      ProposalsStaySourced(c, sys.store, e, sys.log, more, k);
    }
    forall k | k in sys.store.grants && k in Step(sys.store, e).0.grants
      ensures Backed(c, sys.log + more, Step(sys.store, e).0.grants[k])
    {
      GrantsStayBacked(c, sys.store, e, sys.log, more, k);
    }
    forall j | 0 <= j < |sys.log|
      ensures EntryOk(c, Step(sys.store, e).0, sys.log + more, j)
    {
      EntryStaysOk(c, sys.store, e, sys.log, more, j);
    }
  }

  /** To keep the invariant, a step need only account for what it adds. */
  lemma StepKeepsInvariant(c: Config, sys: System, e: Event, more: seq<Entry>, handlers: map<nat, Handler>, now: Time)
    requires Invariant(c, sys)
    requires forall h :: h in handlers ==>
               (h in sys.handlers && handlers[h] == sys.handlers[h]) || HandlerOk(c, Step(sys.store, e).0, handlers[h])
    requires forall k :: k in Step(sys.store, e).0.proposals && k !in sys.store.proposals ==>
               Sourced(c, sys.log + more, Step(sys.store, e).0.proposals[k])
    requires forall k :: k in Step(sys.store, e).0.grants && k !in sys.store.grants ==>
               Backed(c, sys.log + more, Step(sys.store, e).0.grants[k])
    requires forall j :: |sys.log| <= j < |sys.log + more| ==> EntryOk(c, Step(sys.store, e).0, sys.log + more, j)
    ensures Invariant(c, System(Step(sys.store, e).0, handlers, sys.log + more, now))
  {
    OldFactsCarryOver(c, sys, e, more);
  }

  // ---------- The steps ----------

  lemma NoNewGrants(store: State, e: Event)
    requires Consistent(store) && !Succeeds(store, e)
    ensures forall k :: k in Step(store, e).0.grants ==> k in store.grants
  {
    OnlyApprovalAdds(store, e);
    forall k | k in Step(store, e).0.grants
      ensures k in store.grants
    {
      assert k in AddedKeys(store, e) <==> k !in store.grants;
    }
  }

  lemma OtherKeepsInvariant(c: Config, sys: System, e: Event)
    requires Invariant(c, sys) && Enabled(sys, Other(e))
    ensures Invariant(c, Act(c, sys, Other(e)))
  {
    NoNewProposals(sys.store, e);
    NoNewGrants(sys.store, e);
    StepKeepsInvariant(c, sys, e, [], sys.handlers, e.hi);
    assert sys.log + [] == sys.log;
  }

  lemma SigningKeepsInvariant(c: Config, sys: System, item: SignedItem)
    requires Invariant(c, sys)
    ensures Invariant(c, Act(c, sys, SignItem(item)))
  {
    var look := Event(sys.now, sys.now, sys.now, AllProposals);
    assert (sys.log + [Signed(item)])[|sys.log|] == Signed(item);
    StepKeepsInvariant(c, sys, look, [Signed(item)], sys.handlers, sys.now);
  }

  /** A handler step that neither creates a proposal nor decides one. */
  lemma QuietAdvanceKeepsInvariant(c: Config, sys: System, h: nat, t: Timing)
    requires Invariant(c, sys) && Enabled(sys, Advance(h, t))
    requires !sys.handlers[h].Accepted? && !sys.handlers[h].Gated? && !sys.handlers[h].Verifying?
    ensures Invariant(c, Act(c, sys, Advance(h, t)))
  {
    var handler := sys.handlers[h];
    var e := EventOf(c, handler, t);
    assert Step(sys.store, e).0 == sys.store;
    var next := Continue(c, handler, Step(sys.store, e).1);
    assert HandlerOk(c, sys.store, next);
    StepKeepsInvariant(c, sys, e, [], sys.handlers[h := next], t.hi);
  }

  lemma CreationKeepsInvariant(c: Config, sys: System, h: nat, t: Timing)
    requires Invariant(c, sys) && Enabled(sys, Advance(h, t)) && sys.handlers[h].Accepted?
    ensures Invariant(c, Act(c, sys, Advance(h, t)))
  {
    var sub := sys.handlers[h].s;
    var e := EventOf(c, sys.handlers[h], t);
    var p := Step(sys.store, e).1.proposal;
    var log := sys.log + [Submitted(sub, p)];
    assert HandlerOk(c, sys.store, sys.handlers[h]);
    assert log[|sys.log|] == Submitted(sub, p);
    assert Sourced(c, log, p);
    assert Step(sys.store, e).0.proposals == sys.store.proposals[p.id := p];
    StepKeepsInvariant(c, sys, e, [Submitted(sub, p)], sys.handlers[h := Finished], t.hi);
  }

  lemma ReadKeepsInvariant(c: Config, sys: System, h: nat, t: Timing)
    requires Invariant(c, sys) && Enabled(sys, Advance(h, t)) && Timely(c, sys, Advance(h, t))
             && sys.handlers[h].Verifying?
    ensures Invariant(c, Act(c, sys, Advance(h, t)))
  {
    var token := sys.handlers[h].token;
    var e := EventOf(c, sys.handlers[h], t);
    var grants := ActiveFor(sys.store.grants, token, t.readings, t.at);
    var used := Used(token, grants, t.lo, t.hi);
    var log := sys.log + [used];
    assert log[|sys.log|] == used && log[..|sys.log|] == sys.log;
    forall g | g in grants
      ensures g.token == token && t.lo < g.expiresAt && Backed(c, sys.log, g)
    {
    }
    assert EntryOk(c, Step(sys.store, e).0, log, |sys.log|);
    StepKeepsInvariant(c, sys, e, [used], sys.handlers[h := Finished], t.hi);
  }

  lemma RefusalAddsNothing(store: State, e: Event, id: Id)
    requires !Decide(store, id, e.at).Done? && (e.op == Reject(id) || (e.op.Approve? && e.op.id == id))
    ensures Step(store, e).0.grants == store.grants && Step(store, e).0.proposals.Keys == store.proposals.Keys
    ensures Step(store, e).1.Decided? && !Step(store, e).1.outcome.Done?
  {
  }

  lemma RefusalKeepsInvariant(c: Config, sys: System, h: nat, t: Timing)
    requires Invariant(c, sys) && Enabled(sys, Advance(h, t)) && sys.handlers[h].Gated?
    requires !Decide(sys.store, sys.handlers[h].form.id, t.at).Done?
    ensures Invariant(c, Act(c, sys, Advance(h, t)))
  {
    var f := sys.handlers[h].form;
    var e := if f.choice.Approval? then Event(t.lo, t.at, t.hi, Approve(f.id, ParseTTL(f.ttl), t.stamps))
        else Event(t.lo, t.at, t.hi, Reject(f.id));
    RefusalAddsNothing(sys.store, e, f.id);
    StepKeepsInvariant(c, sys, e, [], sys.handlers[h := Finished], t.hi);
  }

  /** Whoever passes the gate was named by the submission the proposal comes from. */
  lemma GateMeansNamed(c: Config, sys: System, f: DecisionForm, log: seq<Entry>)
    requires Invariant(c, sys) && HandlerOk(c, sys.store, Gated(f)) && |sys.log| <= |log| && log[..|sys.log|] == sys.log
    ensures ByNamed(c, log, |sys.log|, f.id, f.session)
  {
    var p := sys.store.proposals[f.id];
    assert Sourced(c, sys.log, p);
    var h :| 0 <= h < |sys.log| && sys.log[h].Submitted? && SameButStatus(sys.log[h].proposal, p);
    assert EntryOk(c, sys.store, sys.log, h);
    assert log[h] == sys.log[h];
  }

  /** The new log entry of a decision is the first for its proposal, and fits what the store now says. */
  lemma DecisionEntryOk(c: Config, sys: System, f: DecisionForm, e: Event)
    requires Invariant(c, sys) && HandlerOk(c, sys.store, Gated(f)) && Decide(sys.store, f.id, e.at).Done?
    requires (e.op == Reject(f.id) && !f.choice.Approval?) || (e.op.Approve? && e.op.id == f.id && f.choice.Approval?)
    ensures EntryOk(c, Step(sys.store, e).0, sys.log + [Resolved(f.id, f.choice.Approval?, f.session, e.at)], |sys.log|)
  {
    var log := sys.log + [Resolved(f.id, f.choice.Approval?, f.session, e.at)];
    GateMeansNamed(c, sys, f, log);
    forall i | 0 <= i < |sys.log|
      ensures !(log[i].Resolved? && log[i].id == f.id)
    {
      assert log[i] == sys.log[i] && EntryOk(c, sys.store, sys.log, i);
    }
  }

  lemma RejectionKeepsInvariant(c: Config, sys: System, h: nat, t: Timing)
    requires Invariant(c, sys) && Enabled(sys, Advance(h, t)) && sys.handlers[h].Gated?
             && !sys.handlers[h].form.choice.Approval?
    requires Decide(sys.store, sys.handlers[h].form.id, t.at).Done?
    ensures Invariant(c, Act(c, sys, Advance(h, t)))
  {
    var f := sys.handlers[h].form;
    var e := EventOf(c, sys.handlers[h], t);
    DecisionEntryOk(c, sys, f, e);
    NoNewGrants(sys.store, e);
    NoNewProposals(sys.store, e);
    StepKeepsInvariant(c, sys, e, [Resolved(f.id, f.choice.Approval?, f.session, t.at)], sys.handlers[h := Finished],
        t.hi);
  }

  /** An approval's grant for item `i` is justified by the proposal's submission and this approval. */
  lemma ApprovalBacks(c: Config, sys: System, f: DecisionForm, t: Timing, i: nat)
    requires Invariant(c, sys) && HandlerOk(c, sys.store, Gated(f)) && Decide(sys.store, f.id, t.at).Done?
    requires forall j :: 0 <= j < |t.stamps| ==> t.at <= t.stamps[j].created
    requires i < |sys.store.proposals[f.id].items|
    ensures Backed(c, sys.log + [Resolved(f.id, true, f.session, t.at)],
                   GrantFor(sys.store.proposals[f.id].(status := Approved), sys.store.nextId, i, t.at, t.stamps,
                       ParseTTL(f.ttl)))
  {
    var p := sys.store.proposals[f.id];
    var g := GrantFor(p.(status := Approved), sys.store.nextId, i, t.at, t.stamps, ParseTTL(f.ttl));
    var log := sys.log + [Resolved(f.id, true, f.session, t.at)];
    assert Sourced(c, sys.log, p);
    var h :| 0 <= h < |sys.log| && sys.log[h].Submitted? && SameButStatus(sys.log[h].proposal, p);
    assert log[h] == sys.log[h] && log[|sys.log|] == Resolved(f.id, true, f.session, t.at);
    assert EntryOk(c, sys.store, sys.log, h);
    assert Justifies(c, log[h], log[|sys.log|], g);
  }

  /** A grant an approval adds is the one made for some item. */
  lemma NewGrantIsFor(p: Proposal, first: Id, grants: map<Id, Grant>, at: Time, stamps: seq<Stamp>, ttl: int, k: Id)
      returns (i: nat)
    requires k !in grants && k in grants + GrantsFor(p, first, |p.items|, at, stamps, ttl)
    ensures i < |p.items|
    ensures (grants + GrantsFor(p, first, |p.items|, at, stamps, ttl))[k] == GrantFor(p, first, i, at, stamps, ttl)
  {
    var more := GrantsFor(p, first, |p.items|, at, stamps, ttl);
    assert k in more && (grants + more)[k] == more[k];
    i := IndexOfGrant(p, first, |p.items|, at, stamps, ttl, k);
  }

  lemma {:induction false} IndexOfGrant(p: Proposal, first: Id, n: nat, at: Time, stamps: seq<Stamp>, ttl: int, k: Id)
      returns (i: nat)
    requires n <= |p.items| && k in GrantsFor(p, first, n, at, stamps, ttl)
    ensures i < n && GrantsFor(p, first, n, at, stamps, ttl)[k] == GrantFor(p, first, i, at, stamps, ttl)
    decreases n
  {
    if k == first + n - 1 {
      i := n - 1;
    } else {
      i := IndexOfGrant(p, first, n - 1, at, stamps, ttl, k);
    }
  }

  lemma ApprovalBacksItsGrants(c: Config, sys: System, f: DecisionForm, t: Timing, e: Event)
    requires Invariant(c, sys) && HandlerOk(c, sys.store, Gated(f)) && Decide(sys.store, f.id, t.at).Done?
    requires forall j :: 0 <= j < |t.stamps| ==> t.at <= t.stamps[j].created
    requires e == Event(t.lo, t.at, t.hi, Approve(f.id, ParseTTL(f.ttl), t.stamps))
    ensures forall k :: k in Step(sys.store, e).0.grants && k !in sys.store.grants ==>
              Backed(c, sys.log + [Resolved(f.id, true, f.session, t.at)], Step(sys.store, e).0.grants[k])
  {
    forall k | k in Step(sys.store, e).0.grants && k !in sys.store.grants
      ensures Backed(c, sys.log + [Resolved(f.id, true, f.session, t.at)], Step(sys.store, e).0.grants[k])
    {
      var p := sys.store.proposals[f.id].(status := Approved);
      var i := NewGrantIsFor(p, sys.store.nextId, sys.store.grants, t.at, t.stamps, ParseTTL(f.ttl), k);
      ApprovalBacks(c, sys, f, t, i);
    }
  }

  lemma ApprovalAct(c: Config, sys: System, h: nat, t: Timing)
    requires h in sys.handlers && sys.handlers[h].Gated? && sys.handlers[h].form.choice.Approval?
    requires Decide(sys.store, sys.handlers[h].form.id, t.at).Done?
    ensures var f := sys.handlers[h].form;
            Act(c, sys, Advance(h, t)) ==
            System(Step(sys.store, Event(t.lo, t.at, t.hi, Approve(f.id, ParseTTL(f.ttl), t.stamps))).0,
                sys.handlers[h := Finished],
                   sys.log + [Resolved(f.id, true, f.session, t.at)], t.hi)
  {
  }

  /** The store step of an approval, with its log entry, accounts for what it adds. */
  lemma ApprovalAccounts(c: Config, sys: System, f: DecisionForm, t: Timing, e: Event, handlers: map<nat, Handler>)
    requires Invariant(c, sys) && HandlerOk(c, sys.store, Gated(f)) && f.choice.Approval?
             && Decide(sys.store, f.id, t.at).Done?
    requires e == Event(t.lo, t.at, t.hi, Approve(f.id, ParseTTL(f.ttl), t.stamps)) && InWindow(e)
    requires forall h :: h in handlers ==>
             (h in sys.handlers && handlers[h] == sys.handlers[h]) || handlers[h] == Finished
    ensures Invariant(c, System(Step(sys.store, e).0, handlers, sys.log + [Resolved(f.id, true, f.session, t.at)],
            t.hi))
  {
    DecisionEntryOk(c, sys, f, e);
    NoNewProposals(sys.store, e);
    ApprovalBacksItsGrants(c, sys, f, t, e);
    StepKeepsInvariant(c, sys, e, [Resolved(f.id, true, f.session, t.at)], handlers, t.hi);
  }

  lemma ApprovalKeepsInvariant(c: Config, sys: System, h: nat, t: Timing)
    requires Invariant(c, sys) && Enabled(sys, Advance(h, t)) && Timely(c, sys, Advance(h, t))
    requires sys.handlers[h].Gated? && sys.handlers[h].form.choice.Approval?
    requires Decide(sys.store, sys.handlers[h].form.id, t.at).Done?
    ensures Invariant(c, Act(c, sys, Advance(h, t)))
  {
    var f := sys.handlers[h].form;
    var e := Event(t.lo, t.at, t.hi, Approve(f.id, ParseTTL(f.ttl), t.stamps));
    assert HandlerOk(c, sys.store, Gated(f));
    ApprovalAccounts(c, sys, f, t, e, sys.handlers[h := Finished]);
    ApprovalAct(c, sys, h, t);
  }

  lemma ActKeepsInvariant(c: Config, sys: System, a: Move)
    requires Invariant(c, sys) && Enabled(sys, a) && Timely(c, sys, a)
    ensures Invariant(c, Act(c, sys, a))
  {
    match a {
      case Arrive(_, _) =>
      case SignItem(item) => SigningKeepsInvariant(c, sys, item);
      case Other(e) => OtherKeepsInvariant(c, sys, e);
      case Advance(h, t) =>
        match sys.handlers[h] {
          case Accepted(_) => CreationKeepsInvariant(c, sys, h, t);
          case Verifying(_) => ReadKeepsInvariant(c, sys, h, t);
          case Gated(f) =>
            if !Decide(sys.store, f.id, t.at).Done? {
              RefusalKeepsInvariant(c, sys, h, t);
            } else if f.choice.Approval? {
              ApprovalKeepsInvariant(c, sys, h, t);
            } else {
              RejectionKeepsInvariant(c, sys, h, t);
            }
          case _ => QuietAdvanceKeepsInvariant(c, sys, h, t);
        }
    }
  }

  // ---------- Safety of every run ----------

  lemma {:induction false} RunKeepsInvariant(c: Config, start: Time, moves: seq<Move>)
    requires Possible(c, start, moves)
    ensures Invariant(c, Execute(c, start, moves))
  {
    if moves != [] {
      var init, last := moves[..|moves| - 1], moves[|moves| - 1];
      RunKeepsInvariant(c, start, init);
      ActKeepsInvariant(c, Execute(c, start, init), last);
    }
  }

  /**
   However the handlers interleave, a proposal is decided successfully at most once, before its
   deadline, and, with authentication on, in a session of its named approver. The decision is what
   the store says for ever after.
   */
  lemma AtMostOneDecision(c: Config, start: Time, moves: seq<Move>, j: nat)
    requires Possible(c, start, moves)
    requires j < |Execute(c, start, moves).log| && Execute(c, start, moves).log[j].Resolved?
    ensures var sys := Execute(c, start, moves);
            var d := sys.log[j];
            && d.id in sys.store.proposals && sys.store.proposals[d.id].status == StatusOf(d.approved)
            && d.at < sys.store.proposals[d.id].expiresAt
            && (c.authEnabled ==> d.session == Some(sys.store.proposals[d.id].approverEmail))
            && (exists h :: 0 <= h < j && sys.log[h].Submitted? && sys.log[h].proposal.id == d.id
                            && (c.authEnabled ==> d.session == Some(c.lower(sys.log[h].sub.email))))
            && forall i :: 0 <= i < |sys.log| && i != j ==> !(sys.log[i].Resolved? && sys.log[i].id == d.id)
  {
    RunKeepsInvariant(c, start, moves);
    var sys := Execute(c, start, moves);
    assert EntryOk(c, sys.store, sys.log, j);
    forall i | 0 <= i < |sys.log| && i != j
      ensures !(sys.log[i].Resolved? && sys.log[i].id == sys.log[j].id)
    {
      assert EntryOk(c, sys.store, sys.log, i);
    }
  }

  /**
   Whatever a verification uses is an unexpired grant of that very token, and earlier in the log
   stand the submission of its verified item and the one approval, made before the deadline by the
   named approver, that attached it.
   */
  lemma EveryUseIsBacked(c: Config, start: Time, moves: seq<Move>, j: nat, g: Grant)
    requires Possible(c, start, moves)
    requires j < |Execute(c, start, moves).log| && Execute(c, start, moves).log[j].Used?
    requires g in Execute(c, start, moves).log[j].grants
    ensures var log := Execute(c, start, moves).log;
            && g.token == log[j].token && log[j].at < g.expiresAt && ItemVerifies(c, g.item)
            && exists h, i :: 0 <= h < i < j && Justifies(c, log[h], log[i], g)
  {
    RunKeepsInvariant(c, start, moves);
    var sys := Execute(c, start, moves);
    assert EntryOk(c, sys.store, sys.log, j);
    var h, i :| 0 <= h < i < j && Justifies(c, sys.log[..j][h], sys.log[..j][i], g);
    assert Justifies(c, sys.log[h], sys.log[i], g);
  }

  // ---------- What a verification reads ----------

  /** A read of a token's grants shows all that are active when it ends, and only ones active when it began. */
  ghost predicate Reads(st: State, u: Entry)
    requires u.Used?
  {
    && (forall k :: k in st.grants && st.grants[k].token == u.token && u.until < st.grants[k].expiresAt ==>
          st.grants[k] in u.grants)
    && (forall g :: g in u.grants ==>
          exists k :: k in st.grants && st.grants[k].token == u.token && g == st.grants[k] && u.at < g.expiresAt)
  }

  lemma ReadStepReads(st: State, token: Token, t: Timing)
    requires InWindow(Event(t.lo, t.at, t.hi, ReadSubject(token, t.readings)))
    ensures Reads(st, Used(token, ActiveFor(st.grants, token, t.readings, t.at), t.lo, t.hi))
  {
  }

  /** Every use was read from the store as it was right after the log so far. */
  lemma {:induction false} EveryUseReadsTheStore(c: Config, start: Time, moves: seq<Move>, j: nat) returns (n: nat)
    requires Possible(c, start, moves)
    requires j < |Execute(c, start, moves).log| && Execute(c, start, moves).log[j].Used?
    ensures n < |moves| && Execute(c, start, moves[..n]).log == Execute(c, start, moves).log[..j]
    ensures Reads(Execute(c, start, moves[..n]).store, Execute(c, start, moves).log[j])
  {
    var init, last := moves[..|moves| - 1], moves[|moves| - 1];
    var before := Execute(c, start, init);
    if j < |before.log| {
      LogGrows(c, before, last);
      n := EveryUseReadsTheStore(c, start, init, j);
      assert moves[..n] == init[..n];
    } else {
      n := |moves| - 1;
      LastUse(c, before, last, j);
    }
  }

  lemma LogGrows(c: Config, sys: System, a: Move)
    ensures |Act(c, sys, a).log| <= |sys.log| + 1 && sys.log == Act(c, sys, a).log[..|sys.log|]
  {
  }

  lemma LastUse(c: Config, sys: System, a: Move, j: nat)
    requires Enabled(sys, a) && Timely(c, sys, a) && |sys.log| <= j < |Act(c, sys, a).log|
             && Act(c, sys, a).log[j].Used?
    ensures sys.log == Act(c, sys, a).log[..j] && Reads(sys.store, Act(c, sys, a).log[j])
  {
    LogGrows(c, sys, a);
    var t := a.t;
    var handler := sys.handlers[a.h];
    ReadStepReads(sys.store, handler.token, t);
  }
}
