/**
 The handlers as methods and the handlers as programs of moves are the same handlers: what a method
 does and answers is what its moves do and log when nothing else comes in between.
 */
module Sequential {
  import opened Basics
  import opened StoreModel
  import opened StoreLaws
  import opened Handlers
  import opened Authorization
  import opened Completeness

  /** Clock readings of one transaction that fit any operation. */
  ghost predicate InOrder(from: Time, t: Timing)
  {
    && from <= t.lo <= t.at <= t.hi
    && (forall i :: 0 <= i < |t.stamps| ==> t.at <= t.stamps[i].created <= t.stamps[i].base <= t.hi)
    && (forall k :: k in t.readings ==> t.lo <= t.readings[k] <= t.hi)
  }

  /** The run goes on with a new handler, which makes its first transaction. */
  function Once(moves: seq<Move>, h: nat, handler: Handler, t: Timing): seq<Move>
  {
    moves + [Arrive(h, handler)] + [Advance(h, t)]
  }

  /** The run goes on with a new handler, which makes two transactions in a row. */
  function Twice(moves: seq<Move>, h: nat, handler: Handler, t: Timing, t': Timing): seq<Move>
  {
    Once(moves, h, handler, t) + [Advance(h, t')]
  }

  /** The system right after a handler has arrived. */
  function Arrived(sys: System, h: nat, handler: Handler): System
  {
    sys.(handlers := sys.handlers[h := handler])
  }

  lemma CanAdvanceAt(c: Config, sys: System, h: nat, t: Timing)
    requires h in sys.handlers && InOrder(sys.now, t)
    ensures Enabled(sys, Advance(h, t)) && Timely(c, sys, Advance(h, t))
    ensures h in Act(c, sys, Advance(h, t)).handlers && Act(c, sys, Advance(h, t)).now == t.hi
  {
  }

  lemma AdvanceRuns(c: Config, start: Time, moves: seq<Move>, h: nat, t: Timing)
    requires Possible(c, start, moves) && h in Execute(c, start, moves).handlers
             && InOrder(Execute(c, start, moves).now, t)
    ensures Possible(c, start, moves + [Advance(h, t)])
    ensures Execute(c, start, moves + [Advance(h, t)]) == Act(c, Execute(c, start, moves), Advance(h, t))
  {
    CanAdvanceAt(c, Execute(c, start, moves), h, t);
    OneMove(c, start, moves, Advance(h, t));
  }

  lemma ArrivalRuns(c: Config, start: Time, moves: seq<Move>, h: nat, handler: Handler)
    requires Possible(c, start, moves) && h !in Execute(c, start, moves).handlers
    requires handler.Submitting? || handler.Opening? || handler.Verifying?
    ensures Possible(c, start, moves + [Arrive(h, handler)])
    ensures Execute(c, start, moves + [Arrive(h, handler)]) == Arrived(Execute(c, start, moves), h, handler)
  {
    CanArrive(c, Execute(c, start, moves), h, handler);
    OneMove(c, start, moves, Arrive(h, handler));
  }

  lemma OnceRuns(c: Config, start: Time, moves: seq<Move>, h: nat, handler: Handler, t: Timing)
    requires Possible(c, start, moves) && h !in Execute(c, start, moves).handlers
    requires handler.Submitting? || handler.Opening? || handler.Verifying?
    requires InOrder(Execute(c, start, moves).now, t)
    ensures Possible(c, start, Once(moves, h, handler, t))
    ensures Execute(c, start, Once(moves, h, handler, t))
            == Act(c, Arrived(Execute(c, start, moves), h, handler), Advance(h, t))
  {
    ArrivalRuns(c, start, moves, h, handler);
    AdvanceRuns(c, start, moves + [Arrive(h, handler)], h, t);
  }

  lemma TwiceRuns(c: Config, start: Time, moves: seq<Move>, h: nat, handler: Handler, t: Timing, t': Timing)
    requires Possible(c, start, moves) && h !in Execute(c, start, moves).handlers
    requires handler.Submitting? || handler.Opening? || handler.Verifying?
    requires InOrder(Execute(c, start, moves).now, t) && InOrder(t.hi, t')
    ensures Possible(c, start, Twice(moves, h, handler, t, t'))
    ensures Execute(c, start, Twice(moves, h, handler, t, t')) ==
            Act(c, Act(c, Arrived(Execute(c, start, moves), h, handler), Advance(h, t)), Advance(h, t'))
  {
    OnceRuns(c, start, moves, h, handler, t);
    CanAdvanceAt(c, Arrived(Execute(c, start, moves), h, handler), h, t);
    AdvanceRuns(c, start, Once(moves, h, handler, t), h, t');
  }

  lemma FaultFree(c: Config, st: State, sub: Submission)
    ensures SubmitFault(c, st.subjects, sub) == None <==>
            && sub.token != "" && sub.token in st.subjects
            && sub.email != "" && sub.items != [] && ItemsVerify(c, sub.items)
  {
    NoItemFault(c, sub.items, 0);
    assert sub.items[0..] == sub.items;
  }

  lemma SubmissionMoves(c: Config, sys: System, h: nat, sub: Submission, t: Timing, t': Timing,
                        r: Result<Proposal, SubmitFailure>, st': State)
    requires SubmitOutcome(c, sys.store, sub, t'.at, r, st')
    ensures var after := Act(c, Act(c, Arrived(sys, h, Submitting(sub)), Advance(h, t)), Advance(h, t'));
            after.store == st' && after.log == sys.log + if r.Ok? then [Submitted(sub, r.value)] else []
  {
    FaultFree(c, sys.store, sub);
    var next := if r.Ok? then Accepted(sub) else Finished;
    assert Act(c, Arrived(sys, h, Submitting(sub)), Advance(h, t))
        == System(sys.store, sys.handlers[h := next], sys.log, t.hi);
  }

  lemma OpeningMove(c: Config, sys: System, h: nat, f: DecisionForm, t: Timing)
    ensures var open := f.id in sys.store.proposals && Gate(c, f.session, sys.store.proposals[f.id])
            && !f.choice.Invalid?;
            Act(c, Arrived(sys, h, Opening(f)), Advance(h, t))
            == System(sys.store, sys.handlers[h := if open then Gated(f) else Finished], sys.log, t.hi)
  {
  }

  lemma DecidingMove(c: Config, sys: System, h: nat, f: DecisionForm, t: Timing)
    requires h in sys.handlers && sys.handlers[h] == Gated(f)
    ensures var (st, outcome) := if f.choice.Approval?
                                 then ApproveResult(sys.store, f.id, ParseTTL(f.ttl), t.at, t.stamps)
                                 else RejectResult(sys.store, f.id, t.at);
            var after := Act(c, sys, Advance(h, t));
            && after.store == st
            && after.log == sys.log + if outcome.Done?
                                      then [Resolved(f.id, f.choice.Approval?, f.session, t.at)] else []
  {
  }

  lemma IdleMove(c: Config, sys: System, h: nat, t: Timing)
    requires h in sys.handlers && sys.handlers[h] == Finished
    ensures Act(c, sys, Advance(h, t)).store == sys.store && Act(c, sys, Advance(h, t)).log == sys.log
  {
  }

  lemma DecisionMoves(c: Config, sys: System, h: nat, f: DecisionForm, t: Timing, t': Timing, r: DecisionResult,
                      st': State)
    requires DecisionOutcome(c, sys.store, f, t'.at, t'.stamps, r, st')
    ensures var after := Act(c, Act(c, Arrived(sys, h, Opening(f)), Advance(h, t)), Advance(h, t'));
            && after.store == st'
            && after.log == sys.log + if r.Ruled? && r.outcome.Done?
                                      then [Resolved(f.id, f.choice.Approval?, f.session, t'.at)] else []
  {
    OpeningMove(c, sys, h, f, t);
    var between := Act(c, Arrived(sys, h, Opening(f)), Advance(h, t));
    if r.Ruled? {
      DecidingMove(c, between, h, f, t');
    } else {
      IdleMove(c, between, h, t');
    }
  }

  lemma VerificationMoves(c: Config, sys: System, h: nat, token: Token, t: Timing, used: set<Grant>, st': State)
    requires ReadOutcome(sys.store, token, t.lo, t.hi, t.readings, used, st')
    ensures var after := Act(c, Arrived(sys, h, Verifying(token)), Advance(h, t));
            after.store == st' && after.log == sys.log + [Used(token, used, t.lo, t.hi)]
  {
    AnyReading(sys.store, token, t);
  }

  /** A submission: what `HandleProposal` ensures is what the handler's two transactions do. */
  lemma ProposalAlone(c: Config, start: Time, moves: seq<Move>, h: nat, sub: Submission, t: Timing, t': Timing,
                      r: Result<Proposal, SubmitFailure>, st': State)
    requires Possible(c, start, moves) && h !in Execute(c, start, moves).handlers
    requires InOrder(Execute(c, start, moves).now, t) && InOrder(t.hi, t')
    requires SubmitOutcome(c, Execute(c, start, moves).store, sub, t'.at, r, st')
    ensures var sys, after := Execute(c, start, moves), Execute(c, start, Twice(moves, h, Submitting(sub), t, t'));
            && Possible(c, start, Twice(moves, h, Submitting(sub), t, t')) && after.store == st'
            && after.log == sys.log + if r.Ok? then [Submitted(sub, r.value)] else []
  {
    TwiceRuns(c, start, moves, h, Submitting(sub), t, t');
    SubmissionMoves(c, Execute(c, start, moves), h, sub, t, t', r, st');
  }

  /** A decision: what `HandleApproveSubmit` ensures is what the handler's two transactions do. */
  lemma DecisionAlone(c: Config, start: Time, moves: seq<Move>, h: nat, f: DecisionForm, t: Timing, t': Timing,
                      r: DecisionResult, st': State)
    requires Possible(c, start, moves) && h !in Execute(c, start, moves).handlers
    requires InOrder(Execute(c, start, moves).now, t) && InOrder(t.hi, t')
    requires DecisionOutcome(c, Execute(c, start, moves).store, f, t'.at, t'.stamps, r, st')
    ensures var sys, after := Execute(c, start, moves), Execute(c, start, Twice(moves, h, Opening(f), t, t'));
            && Possible(c, start, Twice(moves, h, Opening(f), t, t')) && after.store == st'
            && after.log == sys.log + if r.Ruled? && r.outcome.Done?
                                      then [Resolved(f.id, f.choice.Approval?, f.session, t'.at)] else []
  {
    TwiceRuns(c, start, moves, h, Opening(f), t, t');
    DecisionMoves(c, Execute(c, start, moves), h, f, t, t', r, st');
  }

  /** A verification: what `HandleVerify` reads and changes is what the handler's one transaction does. */
  lemma VerificationAlone(c: Config, start: Time, moves: seq<Move>, h: nat, token: Token, t: Timing,
                          used: set<Grant>, st': State)
    requires Possible(c, start, moves) && h !in Execute(c, start, moves).handlers
    requires InOrder(Execute(c, start, moves).now, t)
    requires ReadOutcome(Execute(c, start, moves).store, token, t.lo, t.hi, t.readings, used, st')
    ensures var sys, after := Execute(c, start, moves), Execute(c, start, Once(moves, h, Verifying(token), t));
            && Possible(c, start, Once(moves, h, Verifying(token), t)) && after.store == st'
            && after.log == sys.log + [Used(token, used, t.lo, t.hi)]
  {
    OnceRuns(c, start, moves, h, Verifying(token), t);
    VerificationMoves(c, Execute(c, start, moves), h, token, t, used, st');
  }

  /** With a reading for every grant of the token, the first reading plays no part. */
  lemma AnyReading(st: State, token: Token, t: Timing)
    requires t.readings.Keys == Held(st.grants, token)
    ensures Stale(st.grants, token, t.readings, t.lo) == Stale(st.grants, token, t.readings, t.at)
  {
  }

  // ---------- The remaining transactions ----------

  /** What `CreateSubject`, `DestroySubject` and `RevokeGrantsForToken` ensure is what their steps do. */
  lemma SubjectSteps(st: State, st': State, e: Event)
    requires e.op.CreateSubject? || e.op.DestroySubject? || e.op.RevokeGrants?
    requires st'.proposals == st.proposals && st'.nextId == st.nextId
    requires st'.subjects == if e.op.CreateSubject? then st.subjects[e.op.token := e.at]
                             else if e.op.DestroySubject? then st.subjects - {e.op.token} else st.subjects
    requires e.op.CreateSubject? ==> st'.grants == st.grants
    requires !e.op.CreateSubject? ==>
               && (forall k :: k in st'.grants <==> k in st.grants && st.grants[k].token != e.op.token)
               && forall k :: k in st'.grants ==> st'.grants[k] == st.grants[k]
    ensures Step(st, e).0 == st'
    ensures !e.op.CreateSubject? ==>
            Step(st, e).1 == Count(|set k | k in st.grants && st.grants[k].token == e.op.token|)
  {
    if !e.op.CreateSubject? {
      assert Held(st.grants, e.op.token) == set k | k in st.grants && st.grants[k].token == e.op.token;
      assert st'.grants == st.grants - Held(st.grants, e.op.token);
    }
  }

  /** What `PurgeExpired` ensures is what its step does. */
  lemma PurgeStep(st: State, st': State, e: Event)
    requires e.op.Purge? && st'.subjects == st.subjects && st'.nextId == st.nextId
             && st'.proposals.Keys == st.proposals.Keys
    requires forall k :: k in st'.grants <==> k in st.grants && e.at < st.grants[k].expiresAt
    requires forall k :: k in st'.grants ==> st'.grants[k] == st.grants[k]
    requires forall k :: k in st'.proposals ==>
               st'.proposals[k] == if st.proposals[k].status == Pending && e.at >= st.proposals[k].expiresAt
                                   then st.proposals[k].(status := Expired) else st.proposals[k]
    ensures Step(st, e).0 == st'
  {
    assert st'.grants == Live(st.grants, e.at);
    assert st'.proposals == EffectiveAll(st.proposals, e.at);
  }

  /** What `SubjectForToken` ensures is what a read, or a clean-up while reading, does and shows. */
  lemma ReadStep(st: State, st': State, e: Event, token: Token, readings: map<Id, Time>, out: seq<Grant>)
    requires e.op == ReadSubject(token, readings) || e.op == Sweep(token, readings)
    requires st'.subjects == st.subjects && st'.nextId == st.nextId && st'.proposals == st.proposals
    requires forall k :: k in readings <==> k in st.grants && st.grants[k].token == token
    requires forall k :: k in readings ==> (st.grants[k] in out <==> readings[k] < st.grants[k].expiresAt)
    requires forall g :: g in out ==> exists k :: k in readings && g == st.grants[k]
    requires forall k :: k in st'.grants ==> k in st.grants && st'.grants[k] == st.grants[k]
    requires forall k :: k in st.grants ==>
               (k !in st'.grants <==> st.grants[k].token == token && readings[k] >= st.grants[k].expiresAt)
    ensures Step(st, e).0 == st'
    ensures e.op.ReadSubject? ==> Step(st, e).1 == StoreLaws.Listed(set g | g in out)
  {
    assert st'.grants == st.grants - Stale(st.grants, token, readings, e.at);
    forall g
      ensures g in out <==> g in ActiveFor(st.grants, token, readings, e.at)
    {
    }
  }

  /** What the listings ensure is what their steps show. */
  lemma ListingSteps(st: State, e: Event, grants: seq<Grant>, proposals: seq<Proposal>)
    requires Consistent(st)
    requires e.op.AllGrants? ==>
               && e.op.readings.Keys == st.grants.Keys
               && (forall k :: k in st.grants ==>
                   (st.grants[k] in grants <==> e.op.readings[k] < st.grants[k].expiresAt))
               && forall g :: g in grants ==> exists k :: k in st.grants && g == st.grants[k]
    requires e.op.AllProposals? ==>
               forall p :: p in proposals <==> exists k :: k in st.proposals && p == st.proposals[k]
    ensures e.op.AllGrants? ==> Step(st, e) == (st, StoreLaws.Listed(set g | g in grants))
    ensures e.op.AllProposals? ==>
              && Step(st, e) == (st, StoreLaws.History(st.proposals))
              && forall p :: p in proposals <==> p in st.proposals.Values
  {
    if e.op.AllGrants? {
      forall g
        ensures g in grants <==> g in ActiveAmong(st.grants, e.op.readings, e.at)
      {
      }
      assert (set g | g in grants) == ActiveAmong(st.grants, e.op.readings, e.at);
    }
  }
}
