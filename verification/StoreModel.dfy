/**
 The authorization store as a value, and what each of its transactions does to it. A transaction
 reads the clock at the same points as the code; the readings are part of the operation.
 */
module StoreModel {
  import opened Proposals

  type Token = string
  type Id = nat
  type Time = int

  datatype Status = Pending | Approved | Rejected | Expired

  datatype Proposal = Proposal(
    id: Id, token: Token, approverEmail: string, reason: string, items: seq<SignedItem>,
    status: Status, createdAt: Time, expiresAt: Time)

  datatype Grant = Grant(id: Id, token: Token, proposalId: Id, item: SignedItem, createdAt: Time, expiresAt: Time)

  function GrantId(g: Grant): Id { g.id }

  function GrantCreated(g: Grant): Time { g.createdAt }

  function ProposalCreatedAt(p: Proposal): Time { p.createdAt }

  /** Where the text of an identifier stands in the key order of a bucket; arbitrary, but one for each identifier. */
  type Rank = Id -> int

  ghost predicate IsRank(rank: Rank)
  {
    forall a: Id, b: Id :: rank(a) == rank(b) ==> a == b
  }

  function GrantRank(rank: Rank): Grant -> int { (g: Grant) => rank(g.id) }

  function ProposalRank(rank: Rank): Proposal -> int { (p: Proposal) => rank(p.id) }

  lemma {:induction false} LeastOf(rank: Rank, ids: set<Id>) returns (least: Id)
    requires ids != {}
    ensures least in ids && forall l :: l in ids ==> rank(least) <= rank(l)
  {
    var some :| some in ids;
    least := some;
    var rest := ids - {some};
    assert forall l :: l in ids ==> l == some || l in rest;
    if rest != {} {
      var other := LeastOf(rank, rest);
      least := if rank(other) < rank(some) then other else some;
    }
  }

  /** `nextId` stands for the id generator: identifiers below it have been handed out. */
  datatype State = State(subjects: map<Token, Time>, proposals: map<Id, Proposal>, grants: map<Id, Grant>, nextId: Id)

  /** Still pending although its approval window has elapsed. */
  predicate Lapsed(p: Proposal, now: Time) { p.status == Pending && now >= p.expiresAt }

  predicate Active(g: Grant, now: Time) { now < g.expiresAt }

  /** Records are stored under their own ids, and no id is used twice. */
  ghost predicate Consistent(st: State)
  {
    && (forall k :: k in st.proposals ==> st.proposals[k].id == k && k < st.nextId)
    && (forall k :: k in st.grants ==> st.grants[k].id == k && k < st.nextId)
  }

  // ---------- Transactions ----------

  datatype Outcome = Done(proposal: Proposal) | NotFound | AlreadyDecided | TimedOut(proposal: Proposal)

  /** The two clock readings made for one grant: its creation time and the base of its expiry. */
  datatype Stamp = Stamp(created: Time, base: Time)

  function SubjectCreated(st: State, token: Token, at: Time): State
  {
    st.(subjects := st.subjects[token := at])
  }

  function NewProposal(st: State, token: Token, email: string, reason: string, items: seq<SignedItem>, ttl: int,
                       at: Time): Proposal
  {
    Proposal(st.nextId, token, email, reason, items, Pending, at, at + ttl)
  }

  function ProposalCreated(st: State, p: Proposal): State
  {
    st.(proposals := st.proposals[p.id := p], nextId := st.nextId + 1)
  }

  function StampAt(stamps: seq<Stamp>, i: nat, at: Time): Stamp
  {
    if i < |stamps| then stamps[i] else Stamp(at, at)
  }

  function GrantFor(p: Proposal, first: Id, i: nat, at: Time, stamps: seq<Stamp>, ttl: int): Grant
    requires i < |p.items|
  {
    Grant(first + i, p.token, p.id, p.items[i], StampAt(stamps, i, at).created, StampAt(stamps, i, at).base + ttl)
  }

  /** One grant for each of the first `n` items, under consecutive fresh ids. */
  function GrantsFor(p: Proposal, first: Id, n: nat, at: Time, stamps: seq<Stamp>, ttl: int): map<Id, Grant>
    requires n <= |p.items|
  {
    if n == 0 then map[]
    else GrantsFor(p, first, n - 1, at, stamps, ttl)[first + n - 1 := GrantFor(p, first, n - 1, at, stamps, ttl)]
  }

  lemma {:induction false} GrantsIgnoreLaterStamps(p: Proposal, first: Id, n: nat, at: Time, stamps: seq<Stamp>,
                                                   stamp: Stamp, ttl: int)
    requires n <= |p.items| && n <= |stamps|
    ensures GrantsFor(p, first, n, at, stamps + [stamp], ttl) == GrantsFor(p, first, n, at, stamps, ttl)
  {
    if n > 0 {
      GrantsIgnoreLaterStamps(p, first, n - 1, at, stamps, stamp, ttl);
    }
  }

  /** The next `n` identifiers. */
  function Fresh(first: Id, n: nat): (ids: set<Id>)
    ensures forall k :: k in ids <==> first <= k < first + n
    ensures |ids| == n
  {
    if n == 0 then {} else Fresh(first, n - 1) + {first + n - 1}
  }

  lemma {:induction false} GrantsForKeys(p: Proposal, first: Id, n: nat, at: Time, stamps: seq<Stamp>, ttl: int)
    requires n <= |p.items|
    ensures GrantsFor(p, first, n, at, stamps, ttl).Keys == Fresh(first, n)
  {
    if n > 0 {
      GrantsForKeys(p, first, n - 1, at, stamps, ttl);
      assert GrantsFor(p, first, n, at, stamps, ttl).Keys
          == GrantsFor(p, first, n - 1, at, stamps, ttl).Keys + {first + n - 1};
    }
  }

  lemma {:induction false} GrantsForAt(p: Proposal, first: Id, n: nat, at: Time, stamps: seq<Stamp>, ttl: int, i: nat)
    requires i < n <= |p.items|
    ensures first + i in GrantsFor(p, first, n, at, stamps, ttl)
    ensures GrantsFor(p, first, n, at, stamps, ttl)[first + i] == GrantFor(p, first, i, at, stamps, ttl)
  {
    if i < n - 1 {
      GrantsForAt(p, first, n - 1, at, stamps, ttl, i);
    }
  }

  function Decide(st: State, id: Id, at: Time): Outcome
  {
    if id !in st.proposals then NotFound
    else if st.proposals[id].status != Pending then AlreadyDecided
    else if Lapsed(st.proposals[id], at) then TimedOut(st.proposals[id].(status := Expired))
    else Done(st.proposals[id])
  }

  /** A lapsed proposal is revoked on the spot; that status is stored although the call fails. */
  function ApproveResult(st: State, id: Id, ttl: int, at: Time, stamps: seq<Stamp>): (State, Outcome)
  {
    match Decide(st, id, at)
    case TimedOut(p) => (st.(proposals := st.proposals[id := p]), TimedOut(p))
    case Done(p) =>
      var approved := p.(status := Approved);
      (State(st.subjects, st.proposals[id := approved],
             st.grants + GrantsFor(approved, st.nextId, |p.items|, at, stamps, ttl), st.nextId + |p.items|),
       Done(approved))
    case other => (st, other)
  }

  function RejectResult(st: State, id: Id, at: Time): (State, Outcome)
  {
    match Decide(st, id, at)
    case TimedOut(p) => (st.(proposals := st.proposals[id := p]), TimedOut(p))
    case Done(p) => (st.(proposals := st.proposals[id := p.(status := Rejected)]), Done(p.(status := Rejected)))
    case other => (st, other)
  }

  /** The keys of the grants held by a token. */
  function Held(grants: map<Id, Grant>, token: Token): set<Id>
  {
    set k | k in grants && grants[k].token == token
  }

  function ReadingOf(readings: map<Id, Time>, k: Id, at: Time): Time
  {
    if k in readings then readings[k] else at
  }

  /** The token's grants found expired, each at its own clock reading. */
  function Stale(grants: map<Id, Grant>, token: Token, readings: map<Id, Time>, at: Time): set<Id>
  {
    set k | k in Held(grants, token) && !Active(grants[k], ReadingOf(readings, k, at))
  }

  function Swept(st: State, token: Token, readings: map<Id, Time>, at: Time): State
  {
    st.(grants := st.grants - Stale(st.grants, token, readings, at))
  }

  /** The grants a read of the token returns. */
  function ActiveFor(grants: map<Id, Grant>, token: Token, readings: map<Id, Time>, at: Time): set<Grant>
  {
    set k | k in Held(grants, token) - Stale(grants, token, readings, at) :: grants[k]
  }

  function Revoked(st: State, token: Token): State
  {
    st.(grants := st.grants - Held(st.grants, token))
  }

  function Destroyed(st: State, token: Token): State
  {
    State(st.subjects - {token}, st.proposals, st.grants - Held(st.grants, token), st.nextId)
  }

  function Effective(p: Proposal, now: Time): Proposal
  {
    if Lapsed(p, now) then p.(status := Expired) else p
  }

  function EffectiveAll(proposals: map<Id, Proposal>, now: Time): map<Id, Proposal>
  {
    map k | k in proposals :: Effective(proposals[k], now)
  }

  function LapsedKeys(proposals: map<Id, Proposal>, now: Time): set<Id>
  {
    set k | k in proposals && Lapsed(proposals[k], now)
  }

  function ExpiredKeys(grants: map<Id, Grant>, now: Time): set<Id>
  {
    set k | k in grants && !Active(grants[k], now)
  }

  function Live(grants: map<Id, Grant>, now: Time): map<Id, Grant>
  {
    grants - ExpiredKeys(grants, now)
  }

  /** The janitor: expired grants deleted, lapsed proposals marked. */
  function Purged(st: State, now: Time): State
  {
    st.(grants := Live(st.grants, now), proposals := EffectiveAll(st.proposals, now))
  }
}
