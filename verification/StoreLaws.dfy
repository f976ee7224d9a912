/**
 Laws of whole runs of the store: the janitor cannot be noticed, and grants and proposals are
 accounted for. A run is a sequence of transactions, each with the window of clock readings it made.
 */
module StoreLaws {
  import opened Basics
  import opened Proposals
  import opened StoreModel

  datatype Op =
    | CreateSubject(token: Token)
    | SubjectExists(token: Token)
    | CreateProposal(token: Token, email: string, reason: string, items: seq<SignedItem>, ttl: int)
    | GetProposal(id: Id)
    | Approve(id: Id, ttl: int, stamps: seq<Stamp>)
    | Reject(id: Id)
    | ReadSubject(token: Token, readings: map<Id, Time>)
    | AllGrants(readings: map<Id, Time>)
    | AllProposals
    | DestroySubject(token: Token)
    | RevokeGrants(token: Token)
    | Purge
    | Sweep(token: Token, readings: map<Id, Time>)

  /** A transaction committed between `lo` and `hi`, its first clock reading being `at`. */
  datatype Event = Event(lo: Time, at: Time, hi: Time, op: Op)

  datatype Seen =
    | Nothing
    | Known(known: bool)
    | Created(proposal: Proposal)
    | Looked(found: Option<Proposal>)
    | Decided(outcome: Outcome)
    | Listed(grants: set<Grant>)
    | History(proposals: map<Id, Proposal>)
    | Count(n: nat)

  /** A creation reads the clock before its transaction begins, everything else inside it. */
  ghost predicate InWindow(e: Event)
  {
    && e.lo <= e.hi && e.at <= e.hi && (!e.op.CreateSubject? && !e.op.CreateProposal? ==> e.lo <= e.at)
    && (e.op.Approve? ==> forall i :: 0 <= i < |e.op.stamps| ==>
        e.at <= e.op.stamps[i].created <= e.op.stamps[i].base <= e.hi)
    && (e.op.ReadSubject? || e.op.AllGrants? || e.op.Sweep? ==>
          forall k :: k in e.op.readings ==> e.lo <= e.op.readings[k] <= e.hi)
  }

  /** The active grants, each judged at its own clock reading. */
  function ActiveAmong(grants: map<Id, Grant>, readings: map<Id, Time>, at: Time): set<Grant>
  {
    set k | k in grants && Active(grants[k], ReadingOf(readings, k, at)) :: grants[k]
  }

  function Step(st: State, e: Event): (State, Seen)
  {
    match e.op
    case CreateSubject(token) => (SubjectCreated(st, token, e.at), Nothing)
    case SubjectExists(token) => (st, Known(token != "" && token in st.subjects))
    case CreateProposal(token, email, reason, items, ttl) =>
      var p := NewProposal(st, token, email, reason, items, ttl, e.at);
      (ProposalCreated(st, p), Created(p))
    case GetProposal(id) => (st, Looked(if id in st.proposals then Some(st.proposals[id]) else None))
    case Approve(id, ttl, stamps) =>
      (ApproveResult(st, id, ttl, e.at, stamps).0, Decided(ApproveResult(st, id, ttl, e.at, stamps).1))
    case Reject(id) => (RejectResult(st, id, e.at).0, Decided(RejectResult(st, id, e.at).1))
    case ReadSubject(token, readings) => (Swept(st, token, readings, e.at),
        Listed(ActiveFor(st.grants, token, readings, e.at)))
    case AllGrants(readings) => (st, Listed(ActiveAmong(st.grants, readings, e.at)))
    case AllProposals => (st, History(st.proposals))
    case DestroySubject(token) => (Destroyed(st, token), Count(|Held(st.grants, token)|))
    case RevokeGrants(token) => (Revoked(st, token), Count(|Held(st.grants, token)|))
    case Purge => (Purged(st, e.at), Count(|ExpiredKeys(st.grants, e.at)| + |LapsedKeys(st.proposals, e.at)|))
    case Sweep(token, readings) => (Swept(st, token, readings, e.at), Nothing)
  }

  // ---------- Janitor invisibility ----------

  /** The observations that do not depend on the janitor: success, effective statuses, active grants. */
  function View(seen: Seen, now: Time): Seen
  {
    match seen
    case Looked(Some(p)) => Looked(Some(Effective(p, now)))
    case Decided(TimedOut(_)) => Decided(AlreadyDecided)
    case History(ps) => History(EffectiveAll(ps, now))
    case Count(_) => Nothing
    case other => other
  }

  /**
   What equal views tell: the same success with the same record, the same refusal up to the two kinds
   the janitor exchanges, the same grants, and the same proposals up to lapsed ones being marked.
   */
  lemma SameViewMeans(a: Seen, b: Seen, now: Time)
    requires View(a, now) == View(b, now)
    ensures a.Known? ==> a == b
    ensures a.Created? ==> a == b
    ensures a.Listed? ==> a == b
    ensures a.Decided? <==> b.Decided?
    ensures a.Decided? && (a.outcome.Done? || b.outcome.Done? || a.outcome.NotFound? || b.outcome.NotFound?) ==> a == b
    ensures a.Looked? ==> b.Looked? && (a.found.Some? <==> b.found.Some?)
    ensures a.Looked? && a.found.Some? ==>
              && b.found.value == a.found.value.(status := b.found.value.status)
              && (a.found.value.status == Pending && now < a.found.value.expiresAt
                  <==> b.found.value.status == Pending && now < b.found.value.expiresAt)
    ensures a.History? ==> b.History? && a.proposals.Keys == b.proposals.Keys
    ensures a.History? ==>
              forall k :: k in a.proposals ==>
                && b.proposals[k] == a.proposals[k].(status := b.proposals[k].status)
                && (a.proposals[k].status == Pending && now < a.proposals[k].expiresAt
                    <==> b.proposals[k].status == Pending && now < b.proposals[k].expiresAt)
  {
    if a.History? {
      assert EffectiveAll(a.proposals, now).Keys == a.proposals.Keys;
      assert EffectiveAll(b.proposals, now).Keys == b.proposals.Keys;
      forall k | k in a.proposals
        ensures Effective(a.proposals[k], now) == Effective(b.proposals[k], now)
      {
        assert EffectiveAll(a.proposals, now)[k] == EffectiveAll(b.proposals, now)[k];
      }
    }
  }

  lemma LiveTwice(grants: map<Id, Grant>, t: Time, t': Time)
    requires t <= t'
    ensures Live(Live(grants, t), t') == Live(grants, t')
  {
  }

  lemma EffectiveTwice(proposals: map<Id, Proposal>, t: Time, t': Time)
    requires t <= t'
    ensures EffectiveAll(EffectiveAll(proposals, t), t') == EffectiveAll(proposals, t')
  {
  }

  lemma PurgedTwice(st: State, t: Time, t': Time)
    requires t <= t'
    ensures Purged(Purged(st, t), t') == Purged(st, t')
  {
    LiveTwice(st.grants, t, t');
    EffectiveTwice(st.proposals, t, t');
  }

  lemma LiveUnion(grants: map<Id, Grant>, more: map<Id, Grant>, t: Time)
    requires grants.Keys !! more.Keys
    ensures Live(grants + more, t) == Live(grants, t) + Live(more, t)
  {
  }

  lemma EffectiveUpdate(proposals: map<Id, Proposal>, id: Id, p: Proposal, t: Time)
    ensures EffectiveAll(proposals[id := p], t) == EffectiveAll(proposals, t)[id := Effective(p, t)]
  {
  }

  /** Writing a record under one id, before or after the janitor, leaves the same effective proposals. */
  lemma UpdateIgnoresPurge(proposals: map<Id, Proposal>, id: Id, p: Proposal, lo: Time, hi: Time)
    requires lo <= hi
    ensures EffectiveAll(proposals[id := p], hi) == EffectiveAll(EffectiveAll(proposals, lo)[id := p], hi)
  {
    EffectiveTwice(proposals, lo, hi);
    EffectiveUpdate(proposals, id, p, hi);
    EffectiveUpdate(EffectiveAll(proposals, lo), id, p, hi);
  }

  /** Recording that a lapsed proposal expired changes no effective status. */
  lemma ExpiryIsEffective(proposals: map<Id, Proposal>, id: Id, at: Time, hi: Time)
    requires id in proposals && Lapsed(proposals[id], at) && at <= hi
    ensures EffectiveAll(proposals[id := proposals[id].(status := Expired)], hi) == EffectiveAll(proposals, hi)
  {
  }

  lemma AddingIgnoresPurge(grants: map<Id, Grant>, more: map<Id, Grant>, lo: Time, hi: Time)
    requires lo <= hi && grants.Keys !! more.Keys
    ensures Live(grants + more, hi) == Live(Live(grants, lo) + more, hi)
  {
    LiveTwice(grants, lo, hi);
    LiveUnion(grants, more, hi);
    LiveUnion(Live(grants, lo), more, hi);
  }

  lemma RevokingIgnoresPurge(grants: map<Id, Grant>, token: Token, lo: Time, hi: Time)
    requires lo <= hi
    ensures Live(grants - Held(grants, token), hi) == Live(Live(grants, lo) - Held(Live(grants, lo), token), hi)
  {
  }

  lemma SweepingIsInvisible(grants: map<Id, Grant>, token: Token, readings: map<Id, Time>, at: Time, hi: Time)
    requires at <= hi && forall k :: k in readings ==> readings[k] <= hi
    ensures Live(grants - Stale(grants, token, readings, at), hi) == Live(grants, hi)
  {
  }

  lemma ActiveIgnoresPurge(grants: map<Id, Grant>, readings: map<Id, Time>, lo: Time, at: Time)
    requires lo <= at && forall k :: k in readings ==> lo <= readings[k]
    ensures ActiveAmong(grants, readings, at) == ActiveAmong(Live(grants, lo), readings, at)
  {
  }

  lemma ActiveForIsAmong(grants: map<Id, Grant>, token: Token, readings: map<Id, Time>, at: Time)
    ensures ActiveFor(grants, token, readings, at) == set g | g in ActiveAmong(grants, readings, at) && g.token == token
  {
  }

  lemma DecideIgnoresPurge(st: State, id: Id, lo: Time, at: Time, hi: Time)
    requires lo <= at
    ensures View(Decided(Decide(st, id, at)), hi) == View(Decided(Decide(Purged(st, lo), id, at)), hi)
  {
  }

  /** The proposals after a decision that may time out, when the janitor came first. */
  lemma TimeoutIgnoresPurge(st: State, id: Id, lo: Time, at: Time, hi: Time)
    requires lo <= at <= hi && Decide(st, id, at).TimedOut?
    ensures EffectiveAll(st.proposals[id := st.proposals[id].(status := Expired)], hi) == EffectiveAll(st.proposals, hi)
    ensures Decide(Purged(st, lo), id, at).TimedOut? ==>
              EffectiveAll(Purged(st, lo).proposals[id := Purged(st, lo).proposals[id].(status := Expired)], hi)
              == EffectiveAll(st.proposals, hi)
  {
    ExpiryIsEffective(st.proposals, id, at, hi);
    EffectiveTwice(st.proposals, lo, hi);
    if Decide(Purged(st, lo), id, at).TimedOut? {
      ExpiryIsEffective(Purged(st, lo).proposals, id, at, hi);
    }
  }

  lemma SuccessIgnoresPurge(st: State, id: Id, ttl: int, stamps: seq<Stamp>, lo: Time, at: Time, hi: Time)
    requires Consistent(st) && lo <= at <= hi && Decide(st, id, at).Done?
    ensures Purged(ApproveResult(st, id, ttl, at, stamps).0, hi)
            == Purged(ApproveResult(Purged(st, lo), id, ttl, at, stamps).0, hi)
  {
    var p := st.proposals[id].(status := Approved);
    var more := GrantsFor(p, st.nextId, |p.items|, at, stamps, ttl);
    GrantsForKeys(p, st.nextId, |p.items|, at, stamps, ttl);
    AddingIgnoresPurge(st.grants, more, lo, hi);
    UpdateIgnoresPurge(st.proposals, id, p, lo, hi);
  }

  lemma ApproveIgnoresPurge(st: State, id: Id, ttl: int, stamps: seq<Stamp>, lo: Time, at: Time, hi: Time)
    requires Consistent(st) && lo <= at <= hi
    ensures Purged(ApproveResult(st, id, ttl, at, stamps).0, hi)
            == Purged(ApproveResult(Purged(st, lo), id, ttl, at, stamps).0, hi)
    ensures View(Decided(ApproveResult(st, id, ttl, at, stamps).1), hi)
            == View(Decided(ApproveResult(Purged(st, lo), id, ttl, at, stamps).1), hi)
  {
    DecideIgnoresPurge(st, id, lo, at, hi);
    if Decide(st, id, at).TimedOut? {
      PurgedTwice(st, lo, hi);
      TimeoutIgnoresPurge(st, id, lo, at, hi);
    } else if Decide(st, id, at).Done? {
      SuccessIgnoresPurge(st, id, ttl, stamps, lo, at, hi);
    } else {
      PurgedTwice(st, lo, hi);
    }
  }

  lemma RejectIgnoresPurge(st: State, id: Id, lo: Time, at: Time, hi: Time)
    requires lo <= at <= hi
    ensures Purged(RejectResult(st, id, at).0, hi) == Purged(RejectResult(Purged(st, lo), id, at).0, hi)
    ensures View(Decided(RejectResult(st, id, at).1), hi) == View(Decided(RejectResult(Purged(st, lo), id, at).1), hi)
  {
    PurgedTwice(st, lo, hi);
    DecideIgnoresPurge(st, id, lo, at, hi);
    if Decide(st, id, at).TimedOut? {
      TimeoutIgnoresPurge(st, id, lo, at, hi);
    } else if Decide(st, id, at).Done? {
      UpdateIgnoresPurge(st.proposals, id, st.proposals[id].(status := Rejected), lo, hi);
    }
  }

  lemma ReadIgnoresPurge(st: State, token: Token, readings: map<Id, Time>, lo: Time, at: Time, hi: Time)
    requires lo <= at <= hi && forall k :: k in readings ==> lo <= readings[k] <= hi
    ensures Purged(Swept(st, token, readings, at), hi) == Purged(Swept(Purged(st, lo), token, readings, at), hi)
    ensures ActiveFor(st.grants, token, readings, at) == ActiveFor(Purged(st, lo).grants, token, readings, at)
  {
    PurgedTwice(st, lo, hi);
    SweepingIsInvisible(st.grants, token, readings, at, hi);
    SweepingIsInvisible(Live(st.grants, lo), token, readings, at, hi);
    ActiveIgnoresPurge(st.grants, readings, lo, at);
    ActiveForIsAmong(st.grants, token, readings, at);
    ActiveForIsAmong(Live(st.grants, lo), token, readings, at);
  }

  lemma CreateIgnoresPurge(st: State, e: Event)
    requires InWindow(e) && e.op.CreateProposal?
    ensures Purged(Step(st, e).0, e.hi) == Purged(Step(Purged(st, e.lo), e).0, e.hi)
  {
    var p := NewProposal(st, e.op.token, e.op.email, e.op.reason, e.op.items, e.op.ttl, e.at);
    UpdateIgnoresPurge(st.proposals, p.id, p, e.lo, e.hi);
    LiveTwice(st.grants, e.lo, e.hi);
  }

  lemma OtherIgnoresPurge(st: State, e: Event)
    requires InWindow(e) && !e.op.Approve? && !e.op.Reject? && !e.op.ReadSubject? && !e.op.Sweep?
             && !e.op.CreateProposal?
    ensures Purged(Step(st, e).0, e.hi) == Purged(Step(Purged(st, e.lo), e).0, e.hi)
    ensures View(Step(st, e).1, e.hi) == View(Step(Purged(st, e.lo), e).1, e.hi)
  {
    PurgedTwice(st, e.lo, e.hi);
    match e.op {
      case AllGrants(readings) => ActiveIgnoresPurge(st.grants, readings, e.lo, e.at);
      case AllProposals => EffectiveTwice(st.proposals, e.lo, e.hi);
      case DestroySubject(token) => RevokingIgnoresPurge(st.grants, token, e.lo, e.hi);
      case RevokeGrants(token) => RevokingIgnoresPurge(st.grants, token, e.lo, e.hi);
      case Purge => PurgedTwice(st, e.lo, e.at);
      case _ =>
    }
  }

  /** One transaction behaves the same, as far as anyone can tell, if the janitor ran just before it. */
  lemma StepIgnoresPurge(st: State, e: Event)
    requires Consistent(st) && InWindow(e)
    ensures Purged(Step(st, e).0, e.hi) == Purged(Step(Purged(st, e.lo), e).0, e.hi)
    ensures View(Step(st, e).1, e.hi) == View(Step(Purged(st, e.lo), e).1, e.hi)
  {
    match e.op {
      case CreateProposal(_, _, _, _, _) => CreateIgnoresPurge(st, e);
      case Approve(id, ttl, stamps) => ApproveIgnoresPurge(st, id, ttl, stamps, e.lo, e.at, e.hi);
      case Reject(id) => RejectIgnoresPurge(st, id, e.lo, e.at, e.hi);
      case ReadSubject(token, readings) => ReadIgnoresPurge(st, token, readings, e.lo, e.at, e.hi);
      case Sweep(token, readings) => ReadIgnoresPurge(st, token, readings, e.lo, e.at, e.hi);
      case _ => OtherIgnoresPurge(st, e);
    }
  }

  predicate IsCleanup(op: Op) { op.Purge? || op.Sweep? }

  lemma CleanupIsPurge(st: State, e: Event)
    requires InWindow(e) && IsCleanup(e.op)
    ensures Purged(Step(st, e).0, e.hi) == Purged(st, e.hi)
  {
    if e.op.Purge? {
      PurgedTwice(st, e.at, e.hi);
    } else {
      SweepingIsInvisible(st.grants, e.op.token, e.op.readings, e.at, e.hi);
    }
  }

  // ---------- Runs ----------

  function Run(st: State, events: seq<Event>): State
  {
    if events == [] then st else Step(Run(st, events[..|events| - 1]), events[|events| - 1]).0
  }

  /** What the callers of a run observe, clean-ups excepted. */
  function Views(st: State, events: seq<Event>): seq<Seen>
  {
    if events == [] then []
    else
      var init, last := events[..|events| - 1], events[|events| - 1];
      Views(st, init) + if IsCleanup(last.op) then [] else [View(Step(Run(st, init), last).1, last.hi)]
  }

  function WithoutCleanups(events: seq<Event>): seq<Event>
  {
    if events == [] then []
    else
      var init, last := events[..|events| - 1], events[|events| - 1];
      WithoutCleanups(init) + if IsCleanup(last.op) then [] else [last]
  }

  /** Windows do not overlap and the clock never goes back. */
  ghost predicate WellTimed(events: seq<Event>)
  {
    && (forall i :: 0 <= i < |events| ==> InWindow(events[i]))
    && (forall i, j :: 0 <= i < j < |events| ==> events[i].hi <= events[j].lo)
  }

  /** The grant under `first + i` is for the proposal's item `i`. */
  ghost predicate GrantsItem(p: Proposal, first: Id, grants: map<Id, Grant>, i: nat)
    requires i < |p.items|
  {
    && first + i in grants
    && grants[first + i].id == first + i && grants[first + i].token == p.token
    && grants[first + i].proposalId == p.id && grants[first + i].item == p.items[i]
  }

  ghost predicate OneGrantPerItem(p: Proposal, first: Id, grants: map<Id, Grant>)
  {
    forall i :: 0 <= i < |p.items| ==> GrantsItem(p, first, grants, i)
  }

  lemma GrantsForGrantItems(p: Proposal, first: Id, grants: map<Id, Grant>, at: Time, stamps: seq<Stamp>, ttl: int)
    ensures OneGrantPerItem(p, first, grants + GrantsFor(p, first, |p.items|, at, stamps, ttl))
  {
    forall i | 0 <= i < |p.items|
      ensures GrantsItem(p, first, grants + GrantsFor(p, first, |p.items|, at, stamps, ttl), i)
    {
      GrantsForAt(p, first, |p.items|, at, stamps, ttl, i);
    }
  }

  lemma FreshIsUnused(st: State, n: nat)
    requires Consistent(st)
    ensures st.grants.Keys !! Fresh(st.nextId, n)
  {
  }

  /** What an approval's new grants are, and that nothing else about the grants changes. */
  lemma ApprovalAdds(st: State, id: Id, ttl: int, at: Time, stamps: seq<Stamp>)
    requires Consistent(st) && Decide(st, id, at).Done?
    ensures ApproveResult(st, id, ttl, at, stamps).0.grants.Keys
            == st.grants.Keys + Fresh(st.nextId, |st.proposals[id].items|)
    ensures st.grants.Keys !! Fresh(st.nextId, |st.proposals[id].items|)
    ensures forall k :: k in st.grants ==> ApproveResult(st, id, ttl, at, stamps).0.grants[k] == st.grants[k]
    ensures OneGrantPerItem(st.proposals[id], st.nextId, ApproveResult(st, id, ttl, at, stamps).0.grants)
  {
    var p := st.proposals[id].(status := Approved);
    var more := GrantsFor(p, st.nextId, |p.items|, at, stamps, ttl);
    GrantsForKeys(p, st.nextId, |p.items|, at, stamps, ttl);
    FreshIsUnused(st, |p.items|);
    GrantsForGrantItems(p, st.nextId, st.grants, at, stamps, ttl);
    assert ApproveResult(st, id, ttl, at, stamps).0.grants == st.grants + more;
    SameItemsGranted(p, st.proposals[id], st.nextId, st.grants + more);
  }

  lemma SameItemsGranted(p: Proposal, q: Proposal, first: Id, grants: map<Id, Grant>)
    requires OneGrantPerItem(p, first, grants) && SameButStatus(p, q)
    ensures OneGrantPerItem(q, first, grants)
  {
    forall i | 0 <= i < |q.items|
      ensures GrantsItem(q, first, grants, i)
    {
      assert GrantsItem(p, first, grants, i);
    }
  }

  lemma NewGrantHasItsKey(p: Proposal, first: Id, grants: map<Id, Grant>, k: Id)
    requires OneGrantPerItem(p, first, grants) && first <= k < first + |p.items|
    ensures k in grants && grants[k].id == k
  {
    assert GrantsItem(p, first, grants, k - first);
  }

  lemma ApprovalKeepsConsistent(st: State, id: Id, ttl: int, at: Time, stamps: seq<Stamp>)
    requires Consistent(st) && Decide(st, id, at).Done?
    ensures Consistent(ApproveResult(st, id, ttl, at, stamps).0)
  {
    ApprovalAdds(st, id, ttl, at, stamps);
    var p, after := st.proposals[id], ApproveResult(st, id, ttl, at, stamps).0;
    forall k | k in after.grants
      ensures after.grants[k].id == k && k < after.nextId
    {
      if k !in st.grants {
        NewGrantHasItsKey(p, st.nextId, after.grants, k);
      }
    }
    assert after.proposals == st.proposals[id := p.(status := Approved)];
  }

  lemma RejectKeepsConsistent(st: State, id: Id, at: Time)
    requires Consistent(st)
    ensures Consistent(RejectResult(st, id, at).0)
  {
  }

  lemma PurgeKeepsConsistent(st: State, now: Time)
    requires Consistent(st)
    ensures Consistent(Purged(st, now))
  {
  }

  lemma OtherStepKeepsConsistent(st: State, e: Event)
    requires Consistent(st) && !e.op.Approve?
    ensures Consistent(Step(st, e).0) && st.nextId <= Step(st, e).0.nextId
  {
    if e.op.Reject? {
      RejectKeepsConsistent(st, e.op.id, e.at);
    } else if e.op.Purge? {
      PurgeKeepsConsistent(st, e.at);
    }
  }

  lemma StepKeepsConsistent(st: State, e: Event)
    requires Consistent(st)
    ensures Consistent(Step(st, e).0) && st.nextId <= Step(st, e).0.nextId
  {
    if !e.op.Approve? {
      OtherStepKeepsConsistent(st, e);
    } else if Decide(st, e.op.id, e.at).Done? {
      ApprovalKeepsConsistent(st, e.op.id, e.op.ttl, e.at, e.op.stamps);
    }
  }

  lemma {:induction false} RunKeepsConsistent(st: State, events: seq<Event>)
    requires Consistent(st)
    ensures Consistent(Run(st, events)) && st.nextId <= Run(st, events).nextId
  {
    if events != [] {
      RunKeepsConsistent(st, events[..|events| - 1]);
      StepKeepsConsistent(Run(st, events[..|events| - 1]), events[|events| - 1]);
    }
  }

  /** Stores that agree up to purging still agree after one of them is cleaned up. */
  lemma CleanupKeepsAgreement(a: State, b: State, e: Event, end: Time)
    requires InWindow(e) && IsCleanup(e.op) && e.hi <= end && Purged(a, e.lo) == Purged(b, e.lo)
    ensures Purged(Step(a, e).0, end) == Purged(b, end)
  {
    CleanupIsPurge(a, e);
    PurgedTwice(Step(a, e).0, e.hi, end);
    PurgedTwice(a, e.hi, end);
    PurgedTwice(a, e.lo, end);
    PurgedTwice(b, e.lo, end);
  }

  /** They also agree after, and show the same in, any other transaction made on both. */
  lemma StepKeepsAgreement(a: State, b: State, e: Event, end: Time)
    requires Consistent(a) && Consistent(b) && InWindow(e) && e.hi <= end && Purged(a, e.lo) == Purged(b, e.lo)
    ensures Purged(Step(a, e).0, end) == Purged(Step(b, e).0, end)
    ensures View(Step(a, e).1, e.hi) == View(Step(b, e).1, e.hi)
  {
    StepIgnoresPurge(a, e);
    StepIgnoresPurge(b, e);
    PurgedTwice(Step(a, e).0, e.hi, end);
    PurgedTwice(Step(b, e).0, e.hi, end);
  }

  lemma RunAppend(st: State, events: seq<Event>, e: Event)
    ensures Run(st, events + [e]) == Step(Run(st, events), e).0
    ensures !IsCleanup(e.op) ==> Views(st, events + [e]) == Views(st, events) + [View(Step(Run(st, events), e).1, e.hi)]
  {
    var all := events + [e];
    assert all[..|all| - 1] == events && all[|all| - 1] == e;
  }

  lemma WellTimedInit(events: seq<Event>)
    requires WellTimed(events) && events != []
    ensures var init, last := events[..|events| - 1], events[|events| - 1];
            WellTimed(init) && InWindow(last) && EndsBy(init, last.lo)
  {
  }

  predicate EndsBy(events: seq<Event>, end: Time)
  {
    events != [] ==> events[|events| - 1].hi <= end
  }

  lemma WithoutCleanupsAppend(events: seq<Event>, e: Event)
    ensures WithoutCleanups(events + [e]) == if IsCleanup(e.op) then WithoutCleanups(events)
            else WithoutCleanups(events) + [e]
    ensures IsCleanup(e.op) ==> forall st :: Views(st, events + [e]) == Views(st, events)
  {
    var all := events + [e];
    assert all[..|all| - 1] == events && all[|all| - 1] == e;
  }

  /** Two runs that agree so far agree after the same transaction, and show the same in it. */
  lemma AgreementExtends(st: State, events: seq<Event>, plain: seq<Event>, e: Event, end: Time)
    requires Consistent(st) && InWindow(e) && e.hi <= end
             && Purged(Run(st, events), e.lo) == Purged(Run(st, plain), e.lo)
    ensures Purged(Run(st, events + [e]), end) == Purged(Run(st, plain + [e]), end)
    ensures !IsCleanup(e.op) && Views(st, events) == Views(st, plain) ==>
            Views(st, events + [e]) == Views(st, plain + [e])
  {
    RunKeepsConsistent(st, events);
    RunKeepsConsistent(st, plain);
    RunAppend(st, events, e);
    RunAppend(st, plain, e);
    StepKeepsAgreement(Run(st, events), Run(st, plain), e, end);
  }

  lemma AgreementSurvivesCleanup(st: State, events: seq<Event>, plain: seq<Event>, e: Event, end: Time)
    requires Consistent(st) && InWindow(e) && IsCleanup(e.op) && e.hi <= end
    requires Purged(Run(st, events), e.lo) == Purged(Run(st, plain), e.lo)
    ensures Purged(Run(st, events + [e]), end) == Purged(Run(st, plain), end)
  {
    RunAppend(st, events, e);
    CleanupKeepsAgreement(Run(st, events), Run(st, plain), e, end);
  }

  lemma {:induction false} JanitorKeepsStores(st: State, events: seq<Event>, end: Time)
    requires Consistent(st) && WellTimed(events) && EndsBy(events, end)
    ensures Purged(Run(st, events), end) == Purged(Run(st, WithoutCleanups(events)), end)
  {
    if events != [] {
      var init, last := events[..|events| - 1], events[|events| - 1];
      assert events == init + [last];
      WellTimedInit(events);
      JanitorKeepsStores(st, init, last.lo);
      WithoutCleanupsAppend(init, last);
      if IsCleanup(last.op) {
        AgreementSurvivesCleanup(st, init, WithoutCleanups(init), last, end);
      } else {
        AgreementExtends(st, init, WithoutCleanups(init), last, end);
      }
    }
  }

  lemma {:induction false} JanitorKeepsViews(st: State, events: seq<Event>)
    requires Consistent(st) && WellTimed(events)
    ensures Views(st, events) == Views(st, WithoutCleanups(events))
  {
    if events != [] {
      var init, last := events[..|events| - 1], events[|events| - 1];
      assert events == init + [last];
      WellTimedInit(events);
      JanitorKeepsViews(st, init);
      WithoutCleanupsAppend(init, last);
      if !IsCleanup(last.op) {
        JanitorKeepsStores(st, init, last.lo);
        AgreementExtends(st, init, WithoutCleanups(init), last, last.hi);
      }
    }
  }

  /**
   Clean-ups inserted anywhere in a run are invisible: every other operation succeeds or fails
   alike and shows the same grants and effective statuses, and the stores at the end agree on every
   active grant and every effective status from then on.
   */
  lemma JanitorIsInvisible(st: State, events: seq<Event>, end: Time)
    requires Consistent(st) && WellTimed(events) && EndsBy(events, end)
    ensures Purged(Run(st, events), end) == Purged(Run(st, WithoutCleanups(events)), end)
    ensures Views(st, events) == Views(st, WithoutCleanups(events))
    ensures forall e :: e in WithoutCleanups(events) <==> e in events && !e.op.Purge? && !e.op.Sweep?
  {
    KeepsTheRest(events);
    JanitorKeepsStores(st, events, end);
    JanitorKeepsViews(st, events);
  }

  lemma {:induction false} KeepsTheRest(events: seq<Event>)
    ensures forall e :: e in WithoutCleanups(events) <==> e in events && !e.op.Purge? && !e.op.Sweep?
  {
    if events != [] {
      var init, last := events[..|events| - 1], events[|events| - 1];
      assert events == init + [last];
      KeepsTheRest(init);
    }
  }

  /**
   With or without the clean-ups before it, a decision at a moment finds the proposal open or not, and
   a read finds a grant unexpired or not, alike.
   */
  lemma JanitorChangesNoAnswer(st: State, events: seq<Event>, now: Time, id: Id)
    requires Consistent(st) && WellTimed(events) && EndsBy(events, now)
    ensures var a, b := Run(st, events), Run(st, WithoutCleanups(events));
            && (id in a.proposals <==> id in b.proposals)
            && (id in a.proposals && a.proposals[id].status == Pending && now < a.proposals[id].expiresAt
                <==> id in b.proposals && b.proposals[id].status == Pending && now < b.proposals[id].expiresAt)
            && (id in a.grants && now < a.grants[id].expiresAt <==> id in b.grants && now < b.grants[id].expiresAt)
            && (id in a.grants && now < a.grants[id].expiresAt ==> a.grants[id] == b.grants[id])
            && a.subjects == b.subjects
  {
    var a, b := Run(st, events), Run(st, WithoutCleanups(events));
    JanitorKeepsStores(st, events, now);
    SamePurgedSameActive(a, b, now);
    assert a.subjects == Purged(a, now).subjects && b.subjects == Purged(b, now).subjects;
  }

  /** Hence two runs that differ only in their clean-ups cannot be told apart. */
  lemma RunsDifferingInCleanups(st: State, events: seq<Event>, events': seq<Event>, end: Time)
    requires Consistent(st) && WellTimed(events) && WellTimed(events')
    requires EndsBy(events, end) && EndsBy(events', end)
    requires WithoutCleanups(events) == WithoutCleanups(events')
    ensures Views(st, events) == Views(st, events')
    ensures forall k :: (k in Run(st, events).grants && end < Run(st, events).grants[k].expiresAt)
                        <==> (k in Run(st, events').grants && end < Run(st, events').grants[k].expiresAt)
    ensures forall k :: k in Run(st, events).grants && end < Run(st, events).grants[k].expiresAt ==>
              Run(st, events').grants[k] == Run(st, events).grants[k]
    ensures Run(st, events).proposals.Keys == Run(st, events').proposals.Keys
    ensures forall k :: k in Run(st, events).proposals ==>
              var p, q := Run(st, events).proposals[k], Run(st, events').proposals[k];
              (if p.status == Pending && end >= p.expiresAt then p.(status := Expired) else p)
              == if q.status == Pending && end >= q.expiresAt then q.(status := Expired) else q
  {
    JanitorIsInvisible(st, events, end);
    JanitorIsInvisible(st, events', end);
    var a, b := Run(st, events), Run(st, events');
    assert Purged(a, end) == Purged(b, end);
    SamePurgedSameActive(a, b, end);
  }

  lemma SamePurgedSameActive(a: State, b: State, now: Time)
    requires Purged(a, now) == Purged(b, now)
    ensures forall k :: (k in a.grants && Active(a.grants[k], now)) <==> (k in b.grants && Active(b.grants[k], now))
    ensures forall k :: k in a.grants && Active(a.grants[k], now) ==> b.grants[k] == a.grants[k]
    ensures a.proposals.Keys == b.proposals.Keys
    ensures forall k :: k in a.proposals ==> Effective(a.proposals[k], now) == Effective(b.proposals[k], now)
  {
    assert forall k :: k in Purged(a, now).grants <==> k in a.grants && Active(a.grants[k], now);
    assert forall k :: k in Purged(b, now).grants <==> k in b.grants && Active(b.grants[k], now);
    assert forall k :: k in Purged(a, now).grants ==> Purged(a, now).grants[k] == a.grants[k];
    assert forall k :: k in Purged(b, now).grants ==> Purged(b, now).grants[k] == b.grants[k];
    assert Purged(a, now).proposals.Keys == a.proposals.Keys;
    assert Purged(b, now).proposals.Keys == b.proposals.Keys;
    forall k | k in a.proposals
      ensures Effective(a.proposals[k], now) == Effective(b.proposals[k], now)
    {
      assert Purged(a, now).proposals[k] == Effective(a.proposals[k], now);
      assert Purged(b, now).proposals[k] == Effective(b.proposals[k], now);
    }
  }

  /** What the janitor does change: which error a lapsed proposal gives, and nothing else about the refusal. */
  lemma ErrorsDifferExactlyOnLapsed(st: State, id: Id, lo: Time, at: Time)
    requires lo <= at
    ensures Decide(st, id, at) != Decide(Purged(st, lo), id, at) <==> id in st.proposals && Lapsed(st.proposals[id], lo)
    ensures id in st.proposals && Lapsed(st.proposals[id], lo) ==>
              Decide(st, id, at).TimedOut? && Decide(Purged(st, lo), id, at) == AlreadyDecided
  {
  }

  // ---------- The moving clock ----------

  /**
   With one clock reading per grant, a read of a token returns at least what is active at its end
   and at most what was active at its start; result and deletions partition the token's grants.
   */
  lemma MovingClockRead(st: State, token: Token, readings: map<Id, Time>, lo: Time, hi: Time)
    requires lo <= hi && readings.Keys == Held(st.grants, token) && forall k :: k in readings ==>
             lo <= readings[k] <= hi
    ensures forall k :: k in st.grants && st.grants[k].token == token && hi < st.grants[k].expiresAt ==>
            st.grants[k] in ActiveFor(st.grants, token, readings, lo)
    ensures forall g :: g in ActiveFor(st.grants, token, readings, lo) ==> g.token == token && lo < g.expiresAt
    ensures var after := Swept(st, token, readings, lo);
            && Held(after.grants, token) + Stale(st.grants, token, readings, lo) == Held(st.grants, token)
            && Held(after.grants, token) !! Stale(st.grants, token, readings, lo)
            && ActiveFor(st.grants, token, readings, lo) == (set k | k in Held(after.grants, token) :: after.grants[k])
            && forall k :: k in st.grants && st.grants[k].token != token ==>
                k in after.grants && after.grants[k] == st.grants[k]
  {
  }

  // ---------- Accounting ----------

  predicate Succeeds(st: State, e: Event)
  {
    e.op.Approve? && Decide(st, e.op.id, e.at).Done?
  }

  /** The keys of the grants a step adds. */
  function AddedKeys(st: State, e: Event): set<Id>
  {
    set k | k in Step(st, e).0.grants && k !in st.grants
  }

  function RemovedKeys(st: State, e: Event): set<Id>
  {
    set k | k in st.grants && k !in Step(st, e).0.grants
  }

  /** A successful approval adds one new grant per item in one step and removes none. */
  lemma ApprovalIsExact(st: State, e: Event)
    requires Consistent(st) && Succeeds(st, e)
    ensures |AddedKeys(st, e)| == |st.proposals[e.op.id].items| && RemovedKeys(st, e) == {}
    ensures forall k :: k in AddedKeys(st, e) <==> st.nextId <= k < st.nextId + |st.proposals[e.op.id].items|
    ensures OneGrantPerItem(st.proposals[e.op.id], st.nextId, Step(st, e).0.grants)
  {
    ApprovalAdds(st, e.op.id, e.op.ttl, e.at, e.op.stamps);
    assert AddedKeys(st, e) == Fresh(st.nextId, |st.proposals[e.op.id].items|);
  }

  lemma OtherStepsAddNothing(st: State, e: Event)
    requires !e.op.Approve?
    ensures forall k :: k in Step(st, e).0.grants ==> k in st.grants && Step(st, e).0.grants[k] == st.grants[k]
  {
  }

  /** No other step adds a grant, and no step alters one. */
  lemma OnlyApprovalAdds(st: State, e: Event)
    requires Consistent(st)
    ensures !Succeeds(st, e) ==> AddedKeys(st, e) == {}
    ensures forall k :: k in st.grants && k in Step(st, e).0.grants ==> Step(st, e).0.grants[k] == st.grants[k]
  {
    if Succeeds(st, e) {
      ApprovalAdds(st, e.op.id, e.op.ttl, e.at, e.op.stamps);
    } else if !e.op.Approve? {
      OtherStepsAddNothing(st, e);
    }
  }

  /** Destroy and revoke remove exactly the token's grants and report how many. */
  lemma RevocationIsExact(st: State, e: Event)
    requires e.op.DestroySubject? || e.op.RevokeGrants?
    ensures RemovedKeys(st, e) == Held(st.grants, e.op.token)
    ensures Step(st, e).1 == Count(|RemovedKeys(st, e)|)
    ensures Held(Step(st, e).0.grants, e.op.token) == {} && Step(st, e).0.proposals == st.proposals
    ensures (e.op.token in Step(st, e).0.subjects) <==> (e.op.RevokeGrants? && e.op.token in st.subjects)
  {
  }

  predicate SameButStatus(p: Proposal, q: Proposal)
  {
    q == p.(status := q.status)
  }

  /** A proposal never disappears, changes nothing but its status, and that only while pending. */
  lemma ProposalStep(st: State, e: Event, id: Id)
    requires Consistent(st) && id in st.proposals
    ensures id in Step(st, e).0.proposals
    ensures SameButStatus(st.proposals[id], Step(st, e).0.proposals[id])
    ensures st.proposals[id].status != Pending ==> Step(st, e).0.proposals[id] == st.proposals[id]
  {
  }

  lemma {:induction false} ProposalHistory(st: State, events: seq<Event>, i: nat, id: Id)
    requires Consistent(st) && i <= |events| && id in Run(st, events[..i]).proposals
    ensures id in Run(st, events).proposals
    ensures SameButStatus(Run(st, events[..i]).proposals[id], Run(st, events).proposals[id])
    ensures Run(st, events[..i]).proposals[id].status != Pending ==>
              Run(st, events).proposals[id] == Run(st, events[..i]).proposals[id]
  {
    if i == |events| {
      assert events[..i] == events;
    } else {
      var init := events[..|events| - 1];
      assert init[..i] == events[..i];
      ProposalHistory(st, init, i, id);
      RunKeepsConsistent(st, init);
      ProposalStep(Run(st, init), events[|events| - 1], id);
    }
  }

  /** Once a token holds nothing it holds nothing until some proposal for it is approved. */
  lemma {:induction false} NothingUntilApproved(st: State, events: seq<Event>, token: Token)
    requires Consistent(st) && Held(st.grants, token) == {}
    requires forall i :: 0 <= i < |events| && Succeeds(Run(st, events[..i]), events[i]) ==>
               Run(st, events[..i]).proposals[events[i].op.id].token != token
    ensures Held(Run(st, events).grants, token) == {}
  {
    if events != [] {
      var init, last := events[..|events| - 1], events[|events| - 1];
      forall i | 0 <= i < |init|
        ensures init[..i] == events[..i] && init[i] == events[i]
      {
      }
      NothingUntilApproved(st, init, token);
      RunKeepsConsistent(st, init);
      NothingGained(Run(st, init), last, token);
    }
  }

  /** After a revocation the token holds nothing until a later successful approval for it. */
  lemma RevokedUntilApproved(st: State, revoke: Event, events: seq<Event>, token: Token)
    requires Consistent(st) && (revoke.op == RevokeGrants(token) || revoke.op == DestroySubject(token))
    requires forall i :: 0 <= i < |events| && Succeeds(Run(Step(st, revoke).0, events[..i]), events[i]) ==>
               Run(Step(st, revoke).0, events[..i]).proposals[events[i].op.id].token != token
    ensures Held(Run(Step(st, revoke).0, events).grants, token) == {}
  {
    StepKeepsConsistent(st, revoke);
    RevocationIsExact(st, revoke);
    NothingUntilApproved(Step(st, revoke).0, events, token);
  }

  lemma NothingGained(st: State, e: Event, token: Token)
    requires Consistent(st) && Held(st.grants, token) == {}
    requires Succeeds(st, e) ==> st.proposals[e.op.id].token != token
    ensures Held(Step(st, e).0.grants, token) == {}
  {
    OnlyApprovalAdds(st, e);
    if Succeeds(st, e) {
      ApprovalIsExact(st, e);
    }
    forall k | k in Step(st, e).0.grants
      ensures Step(st, e).0.grants[k].token != token
    {
      if k in st.grants {
        assert k !in Held(st.grants, token);
      } else {
        assert k in AddedKeys(st, e);
        assert GrantsItem(st.proposals[e.op.id], st.nextId, Step(st, e).0.grants, k - st.nextId);
      }
    }
  }
}
