/**
 The whole path of a permission: signed by the resource server, submitted, approved, and used to
 answer a verification.
 */
module Authorization {
  import opened Basics
  import opened Strings
  import opened Cedar
  import opened Schemas
  import opened Compiler
  import opened CompilerLaws
  import opened Presentations
  import opened Templates
  import opened Proposals
  import opened StoreModel
  import opened Handlers
  import S = Store

  // ---------- The resource server signs ----------

  datatype GrantRequest = GrantRequest(reason: string, caps: seq<Capability>, template: string,
                                       bindings: map<string, string>)

  datatype SignFailure = BothOrNeither | Refused(error: SignError)

  /** Every detail shown explains the policy of the same index. */
  ghost predicate Aligned(s: Schema, i: SignedItem)
  {
    |i.presentation.grants| == |i.policies|
    && forall k :: 0 <= k < |i.policies| ==> Explains(s, i.presentation.grants[k], i.policies[k])
  }

  /** What a human is shown of a bundle: the reason given, and one detail per capability. */
  ghost predicate PresentsCaps(s: Schema, show: Printer, reason: string, caps: seq<Capability>, p: Presentation)
  {
    && p.title == "Access request"
    && p.summary == (if reason != "" then reason else "Grant " + Decimal(|caps|) + " permission set(s).")
    && |p.grants| == |caps| && forall i :: 0 <= i < |caps| ==> Describes(s, show, caps[i], p.grants[i])
  }

  ghost predicate FirstFaultyAt(s: Schema, caps: seq<Capability>, i: nat)
  {
    i < |caps| && Fault(s, caps[i]).Some? && forall j :: 0 <= j < i ==> Fault(s, caps[j]) == None
  }

  /** Only policies the schema can issue are signed, each with its own explanation, and the signature verifies. */
  method HandleSign(s: Schema, show: Printer, mac: Mac, secret: string, id: string, req: GrantRequest)
    returns (r: Result<SignedItem, SignFailure>)
    ensures (req.template != "") == (req.caps != []) <==> r == Err(BothOrNeither)
    ensures r.Ok? <==>
              if req.template == "" then req.caps != [] && forall cap :: cap in req.caps ==> Fault(s, cap) == None
              else req.caps == [] && ExpansionFault(s, req.template, req.bindings) == None
    ensures r.Ok? ==> r.value.signature == mac(secret, Payload(id, r.value.presentation, r.value.policies))
    ensures r.Ok? ==> r.value.serverId == id && Verifies(mac, secret, r.value) && Aligned(s, r.value)
                      && forall p :: p in r.value.policies ==> Issued(s, p)
    ensures r.Ok? && req.template == "" ==>
              && Compiled(s, req.caps, r.value.policies)
              && PresentsCaps(s, show, req.reason, req.caps, r.value.presentation)
    ensures r.Ok? && req.template != "" ==>
              |r.value.policies| == 1 && ExpansionFault(s, req.template, req.bindings) == None
              && IsExpansion(s, FindTemplate(s.templates, req.template).value, req.bindings, r.value.policies[0])
              && Presents(s, FindTemplate(s.templates, req.template).value, req.bindings, r.value.policies[0],
                  r.value.presentation)
    ensures r.Err? && r.error.Refused? && req.template == "" ==>
              exists i: nat :: FirstFaultyAt(s, req.caps, i) && Fault(s, req.caps[i]) == Some(r.error.error)
    ensures r.Err? && r.error.Refused? && req.template != "" ==>
              ExpansionFault(s, req.template, req.bindings) == Some(r.error.error)
  {
    var hasTemplate := req.template != "";
    var hasCaps := |req.caps| > 0;
    if hasTemplate == hasCaps {
      return Err(BothOrNeither);
    }
    if hasTemplate {
      var expanded := ExpandTemplate(s, req.template, req.bindings);
      if expanded.Err? {
        return Err(Refused(expanded.error));
      }
      ExpandedAreIssued(s, req.template, req.bindings, expanded.value.0);
      return Ok(Sign(mac, secret, id, expanded.value.1, [expanded.value.0]));
    }
    var compiled := PoliciesFromCapabilities(s, req.caps);
    var presentation := BuildPresentation(s, show, req.reason, req.caps);
    if compiled.Err? {
      ghost var i :| 0 <= i < |req.caps| && Fault(s, req.caps[i]) == Some(compiled.error)
                     && forall j :: 0 <= j < i ==> Fault(s, req.caps[j]) == None;
      assert FirstFaultyAt(s, req.caps, i);
      return Err(Refused(compiled.error));
    }
    CompiledAreIssued(s, req.caps, compiled.value);
    PresentationAligned(s, show, req.caps, compiled.value, presentation);
    return Ok(Sign(mac, secret, id, presentation, compiled.value));
  }

  // ---------- The authorization server's handlers, one at a time ----------

  /** The first item whose server is unknown or whose signature does not verify, and why. */
  function ItemFault(c: Config, items: seq<SignedItem>, i: nat): Option<SubmitFailure>
    requires i <= |items|
    decreases |items| - i
  {
    if i == |items| then None
    else if items[i].serverId !in c.secrets then Some(UnknownServer(i))
    else if !ItemVerifies(c, items[i]) then Some(BadSignature(i))
    else ItemFault(c, items, i + 1)
  }

  /** Why a submission is refused: the first of these checks that fails. */
  function SubmitFault(c: Config, subjects: map<Token, Time>, sub: Submission): Option<SubmitFailure>
  {
    if sub.token == "" || sub.token !in subjects then Some(UnknownSubject)
    else if sub.email == "" then Some(NoApprover)
    else if sub.items == [] then Some(NoItems)
    else ItemFault(c, sub.items, 0)
  }

  datatype SubmitFailure = UnknownSubject | NoApprover | NoItems | UnknownServer(index: nat) | BadSignature(index: nat)

  /** The first item whose server is unknown or whose signature does not verify. */
  method CheckItems(c: Config, items: seq<SignedItem>) returns (f: Option<SubmitFailure>)
    ensures f == ItemFault(c, items, 0)
    ensures f == None <==> ItemsVerify(c, items)
    ensures f == None <==>
              forall i :: i in items ==>
                && i.serverId in c.secrets
                && i.signature == c.mac(c.secrets[i.serverId], Payload(i.serverId, i.presentation, i.policies))
    ensures f.Some? ==> exists i :: 0 <= i < |items| && (forall j :: 0 <= j < i ==> ItemVerifies(c, items[j]))
                          && !ItemVerifies(c, items[i])
                          && f == Some(if items[i].serverId in c.secrets then BadSignature(i) else UnknownServer(i))
  {
    for i := 0 to |items|
      invariant ItemFault(c, items, i) == ItemFault(c, items, 0)
      invariant forall j :: 0 <= j < i ==> ItemVerifies(c, items[j])
    {
      if items[i].serverId !in c.secrets {
        assert !ItemVerifies(c, items[i]);
        return Some(UnknownServer(i));
      }
      if !Verifies(c.mac, c.secrets[items[i].serverId], items[i]) {
        assert !ItemVerifies(c, items[i]);
        return Some(BadSignature(i));
      }
    }
    return None;
  }

  /** What a submission made at a moment does to the store, and what it answers. */
  ghost predicate SubmitOutcome(c: Config, st: State, sub: Submission, at: Time, r: Result<Proposal, SubmitFailure>,
                                st': State)
  {
    match r
    case Ok(p) =>
      && SubmitFault(c, st.subjects, sub) == None
      && p == NewProposal(st, sub.token, c.lower(sub.email), sub.reason, sub.items, c.requestTTL, at)
      && st' == ProposalCreated(st, p)
    case Err(e) => SubmitFault(c, st.subjects, sub) == Some(e) && st' == st
  }

  lemma VerifyOneMore(c: Config, i: SignedItem, items: seq<SignedItem>)
    ensures ItemsVerify(c, [i] + items) <==> ItemVerifies(c, i) && ItemsVerify(c, items)
  {
    assert forall x :: x in [i] + items <==> x == i || x in items;
  }

  lemma {:induction false} NoItemFault(c: Config, items: seq<SignedItem>, i: nat)
    requires i <= |items|
    ensures ItemFault(c, items, i) == None <==> ItemsVerify(c, items[i..])
    decreases |items| - i
  {
    if i < |items| {
      NoItemFault(c, items, i + 1);
      VerifyOneMore(c, items[i], items[i + 1..]);
      assert items[i..] == [items[i]] + items[i + 1..];
    }
  }

  /** A proposal is recorded exactly when the subject is known and every item verifies. */
  method HandleProposal(c: Config, store: S.Store, sub: Submission) returns (r: Result<Proposal, SubmitFailure>)
    requires store.Valid()
    modifies store
    ensures store.Valid() && old(store.clock) <= store.clock
    ensures r.Ok? <==>
            && sub.token != "" && sub.token in old(store.subjects) && sub.email != "" && sub.items != []
            && ItemsVerify(c, sub.items)
    ensures SubmitOutcome(c, old(store.Contents()), sub, store.clock, r, store.Contents())
    ensures r == Err(UnknownSubject) <==> sub.token == "" || sub.token !in old(store.subjects)
    ensures r == Err(NoApprover) <==> sub.token != "" && sub.token in old(store.subjects) && sub.email == ""
    ensures r == Err(NoItems) <==>
              sub.token != "" && sub.token in old(store.subjects) && sub.email != "" && sub.items == []
    ensures r.Ok? ==>
              forall i :: i in sub.items ==>
                && i.serverId in c.secrets
                && i.signature == c.mac(c.secrets[i.serverId], Payload(i.serverId, i.presentation, i.policies))
    ensures r.Ok? ==>
              && r.value.approverEmail == c.lower(sub.email) && r.value.reason == sub.reason
              && r.value.token == sub.token && r.value.items == sub.items && r.value.status == Pending
              && r.value.createdAt == store.clock && r.value.expiresAt == store.clock + c.requestTTL
              && r.value.id !in old(store.proposals) && r.value.id !in old(store.grants)
              && store.proposals == old(store.proposals)[r.value.id := r.value]
    ensures r.Err? ==> store.proposals == old(store.proposals)
    ensures store.subjects == old(store.subjects) && store.grants == old(store.grants)
  {
    var known := store.SubjectExists(sub.token);
    if !known {
      return Err(UnknownSubject);
    }
    if sub.email == "" {
      return Err(NoApprover);
    }
    if |sub.items| == 0 {
      return Err(NoItems);
    }
    var fault := CheckItems(c, sub.items);
    if fault.Some? {
      return Err(fault.value);
    }
    var p := store.CreateProposal(sub.token, c.lower(sub.email), sub.reason, sub.items, c.requestTTL);
    return Ok(p);
  }

  datatype DecisionResult = UnknownProposal | Denied | InvalidDecision | Ruled(outcome: Outcome)

  /** What a decision form does to the store, and what it answers. */
  ghost predicate DecisionOutcome(c: Config, st: State, f: DecisionForm, at: Time, stamps: seq<Stamp>,
                                  r: DecisionResult, st': State)
  {
    match r
    case UnknownProposal => f.id !in st.proposals && st' == st
    case Denied => f.id in st.proposals && !Gate(c, f.session, st.proposals[f.id]) && st' == st
    case InvalidDecision =>
      f.id in st.proposals && Gate(c, f.session, st.proposals[f.id]) && f.choice.Invalid? && st' == st
    case Ruled(outcome) =>
      && f.id in st.proposals && Gate(c, f.session, st.proposals[f.id]) && !f.choice.Invalid?
      && (st', outcome) == if f.choice.Approval? then ApproveResult(st, f.id, ParseTTL(f.ttl), at, stamps)
          else RejectResult(st, f.id, at)
  }

  method ApproveForm(store: S.Store, f: DecisionForm) returns (o: Outcome, ghost at: Time, ghost stamps: seq<Stamp>)
    requires store.Valid() && f.id in store.proposals && f.choice.Approval?
    modifies store
    ensures store.Valid() && old(store.clock) <= at <= store.clock && store.subjects == old(store.subjects)
    ensures forall i :: 0 <= i < |stamps| ==> at <= stamps[i].created <= stamps[i].base <= store.clock
    ensures (store.Contents(), o) == ApproveResult(old(store.Contents()), f.id, ParseTTL(f.ttl), at, stamps)
    ensures o != NotFound && (o.AlreadyDecided? <==> old(store.proposals)[f.id].status != Pending)
    ensures o.Done? <==> old(store.proposals)[f.id].status == Pending && at < old(store.proposals)[f.id].expiresAt
    ensures o.Done? ==>
              store.proposals == old(store.proposals)[f.id := old(store.proposals)[f.id].(status := Status.Approved)]
    ensures !o.Done? ==> store.grants == old(store.grants)
    ensures o.Done? ==>
              && |stamps| == |old(store.proposals)[f.id].items|
              && (forall k :: k in old(store.grants) ==> k in store.grants && store.grants[k] == old(store.grants)[k])
              && (forall k :: k in store.grants && k !in old(store.grants) <==>
                    old(store.nextId) <= k < old(store.nextId) + |stamps|)
    ensures o.Done? ==>
              forall k :: k in store.grants && k !in old(store.grants) ==>
                var g, i := store.grants[k], k - old(store.nextId);
                && g.token == old(store.proposals)[f.id].token && g.proposalId == f.id
                && g.item == old(store.proposals)[f.id].items[i] && g.createdAt == stamps[i].created
                && g.expiresAt == stamps[i].base
                                  + if f.ttl.Some? && f.ttl.value > 0 then f.ttl.value else 120_000_000_000
  {
    o, at, stamps := store.Approve(f.id, ParseTTL(f.ttl));
  }

  /** A decision changes the store only for the named approver, or for anyone when authentication is off. */
  method HandleApproveSubmit(c: Config, store: S.Store, f: DecisionForm)
      returns (r: DecisionResult, ghost at: Time, ghost stamps: seq<Stamp>)
    requires store.Valid()
    modifies store
    ensures store.Valid() && old(store.clock) <= at <= store.clock
    ensures forall i :: 0 <= i < |stamps| ==> at <= stamps[i].created <= stamps[i].base <= store.clock
    ensures DecisionOutcome(c, old(store.Contents()), f, at, stamps, r, store.Contents())
    ensures r.UnknownProposal? <==> f.id !in old(store.proposals)
    ensures r.Denied? <==>
              && f.id in old(store.proposals) && c.authEnabled
              && f.session != Some(old(store.proposals)[f.id].approverEmail)
    ensures r.InvalidDecision? <==>
              && f.id in old(store.proposals) && f.choice.Invalid?
              && (!c.authEnabled || f.session == Some(old(store.proposals)[f.id].approverEmail))
    ensures r.Ruled? ==>
              && (r.outcome.AlreadyDecided? <==> old(store.proposals)[f.id].status != Pending)
              && (r.outcome.Done? <==>
                    old(store.proposals)[f.id].status == Pending && at < old(store.proposals)[f.id].expiresAt)
    ensures r.Ruled? && r.outcome.Done? ==>
              store.proposals == old(store.proposals)[f.id := old(store.proposals)[f.id].(status :=
                                   if f.choice.Approval? then Status.Approved else Status.Rejected)]
    ensures !(r.Ruled? && r.outcome.Done? && f.choice.Approval?) ==> store.grants == old(store.grants)
    ensures r.Ruled? && r.outcome.Done? && f.choice.Approval? ==>
              && |stamps| == |old(store.proposals)[f.id].items|
              && (forall k :: k in old(store.grants) ==> k in store.grants && store.grants[k] == old(store.grants)[k])
              && (forall k :: k in store.grants && k !in old(store.grants) <==>
                    old(store.nextId) <= k < old(store.nextId) + |stamps|)
    ensures r.Ruled? && r.outcome.Done? && f.choice.Approval? ==>
              forall k :: k in store.grants && k !in old(store.grants) ==>
                var g, i := store.grants[k], k - old(store.nextId);
                && g.token == old(store.proposals)[f.id].token && g.proposalId == f.id
                && g.item == old(store.proposals)[f.id].items[i] && g.createdAt == stamps[i].created
                && g.expiresAt == stamps[i].base
                                  + if f.ttl.Some? && f.ttl.value > 0 then f.ttl.value else 120_000_000_000
    ensures store.subjects == old(store.subjects)
  {
    at, stamps := store.clock, [];
    var found := store.GetProposal(f.id);
    if found.None? {
      return UnknownProposal, at, stamps;
    }
    if !Gate(c, f.session, found.value) {
      return Denied, at, stamps;
    }
    var outcome;
    match f.choice {
      case Approval => outcome, at, stamps := ApproveForm(store, f);
      case Rejection => outcome, at := store.Reject(f.id);
      case Invalid => return InvalidDecision, at, stamps;
    }
    r := Ruled(outcome);
  }

  // ---------- Verification ----------

  ghost predicate Carried(grants: set<Grant>, p: Policy)
  {
    exists g :: g in grants && p in g.item.policies
  }

  /** The decision on the policies some grants carry, whatever order they are listed in. */
  ghost predicate DecisionOn(em: EntityMap, grants: set<Grant>, requests: seq<Request>)
  {
    && (exists p :: Carried(grants, p)) && requests != []
    && forall q :: q in requests ==>
         && (exists p :: Carried(grants, p) && p.effect == Permit && Satisfied(em, p, q))
         && !(exists p :: Carried(grants, p) && p.effect == Forbid && Satisfied(em, p, q))
  }

  lemma DecisionOnCarried(em: EntityMap, policies: seq<Policy>, grants: set<Grant>, requests: seq<Request>)
    requires forall p :: p in policies <==> Carried(grants, p)
    ensures Decision(em, policies, requests) <==> DecisionOn(em, grants, requests)
  {
    if policies != [] {
      assert policies[0] in policies;
    }
    forall q
      ensures Allows(em, policies, q) <==>
              && (exists p :: Carried(grants, p) && p.effect == Permit && Satisfied(em, p, q))
              && !(exists p :: Carried(grants, p) && p.effect == Forbid && Satisfied(em, p, q))
    {
    }
  }

  datatype VerifyInput = VerifyInput(token: Token, entities: seq<Entity>, requests: seq<Request>)

  /** A call as it arrives: who it says it is from, the signature over its body, the body. */
  datatype Call = Call(serverId: string, signature: string, body: string)

  /** The keyed hash of bodies, their decoding, and the policy parser, all left unspecified. */
  datatype Wire = Wire(bodyMac: (string, string) -> string, decode: string -> Option<VerifyInput>, parses: Parser)

  datatype Reply = UnknownCaller | BadCallSignature | BadBody | Unparsable | Answer(allowed: bool)

  /** The policies of some grants, one grant's after the other's. */
  function Texts(grants: seq<Grant>): seq<Policy>
  {
    if grants == [] then [] else Texts(grants[..|grants| - 1]) + grants[|grants| - 1].item.policies
  }

  /** The policies are those of the grants, listed in some order, each once. */
  ghost predicate Gathers(used: set<Grant>, policies: seq<Policy>)
  {
    exists grants: seq<Grant> :: NoDuplicates(grants) && (forall g :: g in grants <==> g in used)
        && policies == Texts(grants)
  }

  lemma {:induction false} TextsMembers(grants: seq<Grant>)
    ensures forall p :: p in Texts(grants) <==> exists g :: g in grants && p in g.item.policies
  {
    if grants != [] {
      TextsMembers(grants[..|grants| - 1]);
      assert grants == grants[..|grants| - 1] + [grants[|grants| - 1]];
    }
  }

  lemma GatheredAreCarried(used: set<Grant>, policies: seq<Policy>)
    requires Gathers(used, policies)
    ensures forall p :: p in policies <==> Carried(used, p)
  {
    var grants: seq<Grant> :| NoDuplicates(grants) && (forall g :: g in grants <==> g in used)
        && policies == Texts(grants);
    TextsMembers(grants);
  }

  lemma AnotherGrant(grants: seq<Grant>, g: Grant)
    requires NoDuplicates(grants) && |grants| > 1
    ensures exists x :: x in grants && x != g
  {
    assert grants[0] in grants && grants[1] in grants;
  }

  /** From a single grant come its own policies, as they were signed. */
  lemma GatheredFromOne(g: Grant, policies: seq<Policy>)
    requires Gathers({g}, policies)
    ensures policies == g.item.policies
  {
    var grants: seq<Grant> :| NoDuplicates(grants) && (forall x :: x in grants <==> x in {g})
        && policies == Texts(grants);
    assert g in grants && grants[0] in grants;
    if |grants| > 1 {
      AnotherGrant(grants, g);
    }
    assert grants == [g] && [g][..0] == [];
    assert Texts([g]) == [] + g.item.policies;
  }

  /** What an admitted call is told, given the grants used and the policies gathered from them. */
  ghost predicate Replies(w: Wire, em: EntityMap, used: set<Grant>, requests: seq<Request>, policies: seq<Policy>,
                          reply: Reply)
  {
    && Gathers(used, policies)
    && reply == if policies != [] && requests != [] && !w.parses(policies) then Unparsable
                else Answer(DecisionOn(em, used, requests))
  }

  /** What an admitted call does to the store, and which grants it uses. */
  ghost predicate ReadOutcome(st: State, token: Token, lo: Time, hi: Time, readings: map<Id, Time>, used: set<Grant>,
                              st': State)
  {
    && readings.Keys == Held(st.grants, token) && (forall k :: k in readings ==> lo <= readings[k] <= hi)
    && used == ActiveFor(st.grants, token, readings, lo) && st' == Swept(st, token, readings, lo)
  }

  /**
   The answer is the decision on the policies of the token's active grants, and of no others; there
   is none when those policies, put together, do not parse.
   */
  method AnswerCall(w: Wire, store: S.Store, input: VerifyInput)
    returns (reply: Reply, ghost used: set<Grant>, ghost policies: seq<Policy>, ghost readings: map<Id, Time>)
    requires store.Valid()
    modifies store
    ensures store.Valid() && old(store.clock) <= store.clock && (reply == Unparsable || reply.Answer?)
    ensures ReadOutcome(old(store.Contents()), input.token, old(store.clock), store.clock, readings, used,
            store.Contents())
    ensures Replies(w, LastWins(input.entities), used, input.requests, policies, reply)
    ensures forall k :: k in readings <==> k in old(store.grants) && old(store.grants)[k].token == input.token
    ensures forall k :: k in readings ==>
            (old(store.grants)[k] in used <==> readings[k] < old(store.grants)[k].expiresAt)
    ensures forall g :: g in used ==> exists k :: k in readings && g == old(store.grants)[k]
    ensures forall k :: k in old(store.grants) ==>
              (k !in store.grants <==> k in readings && readings[k] >= old(store.grants)[k].expiresAt)
    ensures forall k :: k in store.grants ==> k in old(store.grants) && store.grants[k] == old(store.grants)[k]
    ensures store.subjects == old(store.subjects) && store.proposals == old(store.proposals)
  {
    var grants: seq<Grant>;
    grants, readings := store.SubjectForToken(input.token);
    used := ActiveFor(old(store.grants), input.token, readings, old(store.clock));
    var texts := PoliciesOf(grants);
    policies := texts;
    reply := ReplyTo(w, used, texts, input);
  }

  method ReplyTo(w: Wire, ghost used: set<Grant>, texts: seq<Policy>, input: VerifyInput) returns (reply: Reply)
    requires Gathers(used, texts)
    ensures (reply == Unparsable || reply.Answer?)
            && Replies(w, LastWins(input.entities), used, input.requests, texts, reply)
  {
    GatheredAreCarried(used, texts);
    DecisionOnCarried(LastWins(input.entities), texts, used, input.requests);
    var evaluation := Evaluate(w.parses, texts, input.entities, input.requests);
    match evaluation {
      case ParseError => return Unparsable;
      case Verdict(allowed) => return Answer(allowed);
    }
  }

  /** Only a registered resource server that signed the body gets past, and only with a body that can be read. */
  method HandleVerify(c: Config, w: Wire, store: S.Store, call: Call)
    returns (reply: Reply, ghost used: set<Grant>, ghost policies: seq<Policy>, ghost readings: map<Id, Time>)
    requires store.Valid()
    modifies store
    ensures store.Valid() && old(store.clock) <= store.clock
    ensures reply == UnknownCaller <==> call.serverId !in c.secrets
    ensures reply == BadCallSignature <==>
              call.serverId in c.secrets && call.signature != w.bodyMac(c.secrets[call.serverId], call.body)
    ensures reply == BadBody <==>
              && call.serverId in c.secrets && call.signature == w.bodyMac(c.secrets[call.serverId], call.body)
              && w.decode(call.body) == None
    ensures reply == Unparsable || reply.Answer? || store.Contents() != old(store.Contents()) ==>
              && call.serverId in c.secrets && call.signature == w.bodyMac(c.secrets[call.serverId], call.body)
              && w.decode(call.body).Some?
    ensures reply == Unparsable || reply.Answer? ==>
              var input := w.decode(call.body).value;
              && ReadOutcome(old(store.Contents()), input.token, old(store.clock), store.clock, readings, used,
                  store.Contents())
              && Replies(w, LastWins(input.entities), used, input.requests, policies, reply)
              && forall k :: k in readings <==> k in old(store.grants) && old(store.grants)[k].token == input.token
    ensures reply == Unparsable || reply.Answer? ==>
              forall k :: k in readings ==>
                  (old(store.grants)[k] in used <==> readings[k] < old(store.grants)[k].expiresAt)
    ensures reply == Unparsable || reply.Answer? ==>
              forall g :: g in used ==> exists k :: k in readings && g == old(store.grants)[k]
    ensures forall k :: k in old(store.grants) ==>
              (k !in store.grants <==> k in readings && readings[k] >= old(store.grants)[k].expiresAt)
    ensures forall k :: k in store.grants ==> k in old(store.grants) && store.grants[k] == old(store.grants)[k]
    ensures store.subjects == old(store.subjects) && store.proposals == old(store.proposals)
  {
    used, policies, readings := {}, [], map[];
    if call.serverId !in c.secrets {
      return UnknownCaller, used, policies, readings;
    }
    if call.signature != w.bodyMac(c.secrets[call.serverId], call.body) {
      return BadCallSignature, used, policies, readings;
    }
    var input := w.decode(call.body);
    if input.None? {
      return BadBody, used, policies, readings;
    }
    reply, used, policies, readings := AnswerCall(w, store, input.value);
  }

  method PoliciesOf(grants: seq<Grant>) returns (policies: seq<Policy>)
    ensures policies == Texts(grants)
  {
    policies := [];
    for i := 0 to |grants|
      invariant policies == Texts(grants[..i])
    {
      policies := policies + grants[i].item.policies;
      assert grants[..i + 1][..i] == grants[..i];
    }
    assert grants[..|grants|] == grants;
  }

  // ---------- What was issued ----------

  /**
   An item relayed under another's signature verifies, under the secret of whatever server it then
   names, only if it is the same item or the keyed hash collides.
   */
  lemma TamperingNeedsCollision(c: Config, signed: SignedItem, relayed: SignedItem)
    requires ItemVerifies(c, signed) && relayed.signature == signed.signature
    ensures ItemVerifies(c, relayed) <==>
            relayed == signed || (relayed.serverId in c.secrets && Canonical(relayed) != Canonical(signed)
                                  && c.mac(c.secrets[relayed.serverId], Canonical(relayed))
                                     == c.mac(c.secrets[signed.serverId], Canonical(signed)))
  {
  }

  /** The vocabularies of the registered resource servers. */
  type Vocabularies = map<string, Schema>

  /** The policies a grant carries are ones its own resource server can issue. */
  ghost predicate IssuedBy(schemas: Vocabularies, i: SignedItem)
  {
    i.serverId in schemas && forall p :: p in i.policies ==> Issued(schemas[i.serverId], p)
  }

  /** No two resource servers act for the same agent. */
  ghost predicate OwnAgents(schemas: Vocabularies)
  {
    forall a, b :: a in schemas && b in schemas && a != b ==> Agent(schemas[a]) != Agent(schemas[b])
  }

  /** Each resource server signs what its own schema issues; its signing handler does nothing else. */
  ghost predicate SignsIssued(schemas: Vocabularies, log: seq<Entry>)
  {
    forall f :: 0 <= f < |log| && log[f].Signed? ==> IssuedBy(schemas, log[f].item)
  }

  /** The content of the item was signed before. */
  ghost predicate SignedBefore(log: seq<Entry>, h: nat, i: SignedItem)
    requires h <= |log|
  {
    exists f :: 0 <= f < h && log[f].Signed? && Canonical(log[f].item) == Canonical(i)
  }

  /** No one but the resource servers makes items verify: what a recorded proposal carries was signed before. */
  ghost predicate Unforged(log: seq<Entry>)
  {
    forall h, i :: 0 <= h < |log| && log[h].Submitted? && i in log[h].proposal.items ==> SignedBefore(log, h, i)
  }

  lemma SubmittedAreIssued(schemas: Vocabularies, log: seq<Entry>, h: nat, i: SignedItem)
    requires SignsIssued(schemas, log) && Unforged(log)
    requires h < |log| && log[h].Submitted? && i in log[h].proposal.items
    ensures IssuedBy(schemas, i)
  {
    assert SignedBefore(log, h, i);
    var f :| 0 <= f < h && log[f].Signed? && Canonical(log[f].item) == Canonical(i);
    assert IssuedBy(schemas, log[f].item);
  }

  // ---------- End to end ----------

  /** The grant carries a permit whose capability covers the requirement and whose conditions hold of it. */
  ghost predicate Authorizes(s: Schema, g: Grant, r: Requirement)
  {
    exists p, cap :: p in g.item.policies && HasHeadOf(s, cap, p) && Covers(s, cap, r)
                     && EvalAll(RecordFrom(r.resource.attrs), p.preds) == True
  }

  /** The grant comes from this resource server and authorizes the requirement in its terms. */
  ghost predicate Grants(schemas: Vocabularies, id: string, g: Grant, r: Requirement)
    requires id in schemas
  {
    g.item.serverId == id && Authorizes(schemas[id], g, r)
  }

  /** A permit satisfied by this resource server's question was issued by it. */
  lemma SatisfiedIsOwn(schemas: Vocabularies, id: string, g: Grant, p: Policy, em: EntityMap, r: Requirement)
    requires OwnAgents(schemas) && id in schemas && IssuedBy(schemas, g.item) && p in g.item.policies
    requires Satisfied(em, p, Question(schemas[id], r))
    ensures g.item.serverId == id && Issued(schemas[id], p)
  {
    assert Issued(schemas[g.item.serverId], p);
    assert p.principal == Agent(schemas[g.item.serverId]) && p.principal == Agent(schemas[id]);
  }

  lemma SatisfiedMeansGrants(schemas: Vocabularies, id: string, g: Grant, p: Policy, reqs: seq<Requirement>,
                             world: seq<Entity>, r: Requirement)
    requires OwnAgents(schemas) && id in schemas && IssuedBy(schemas, g.item) && p in g.item.policies
    requires WellFormed(schemas[id], reqs) && CoherentAttrs(schemas[id], reqs) && IsWorld(schemas[id], reqs, world)
             && r in reqs
    requires Satisfied(LastWins(world), p, Question(schemas[id], r))
    ensures Grants(schemas, id, g, r)
  {
    SatisfiedIsOwn(schemas, id, g, p, LastWins(world), r);
    var s := schemas[id];
    var cap :| HasHeadOf(s, cap, p) && forall a :: a in cap.actions ==> HasAction(s, a);
    ConditionedPermitMeaning(s, cap, p, reqs, world, r);
  }

  lemma GrantsMeansSatisfied(schemas: Vocabularies, id: string, grants: set<Grant>, g: Grant, reqs: seq<Requirement>,
                             world: seq<Entity>, r: Requirement)
    requires id in schemas && g in grants && Grants(schemas, id, g, r)
    requires WellFormed(schemas[id], reqs) && CoherentAttrs(schemas[id], reqs) && IsWorld(schemas[id], reqs, world)
             && r in reqs
    ensures exists p ::
              Carried(grants, p) && p.effect == Permit && Satisfied(LastWins(world), p, Question(schemas[id], r))
  {
    var s := schemas[id];
    var p, cap :| p in g.item.policies && HasHeadOf(s, cap, p) && Covers(s, cap, r)
                  && EvalAll(RecordFrom(r.resource.attrs), p.preds) == True;
    ConditionedPermitMeaning(s, cap, p, reqs, world, r);
    assert Carried(grants, p);
  }

  lemma CarriedMeansGrants(schemas: Vocabularies, id: string, grants: set<Grant>, reqs: seq<Requirement>,
                           world: seq<Entity>, r: Requirement)
    requires OwnAgents(schemas) && id in schemas && forall g :: g in grants ==> IssuedBy(schemas, g.item)
    requires WellFormed(schemas[id], reqs) && CoherentAttrs(schemas[id], reqs) && IsWorld(schemas[id], reqs, world)
             && r in reqs
    ensures (exists p ::
               Carried(grants, p) && p.effect == Permit && Satisfied(LastWins(world), p, Question(schemas[id], r)))
            <==> exists g :: g in grants && Grants(schemas, id, g, r)
  {
    if p :| Carried(grants, p) && p.effect == Permit && Satisfied(LastWins(world), p, Question(schemas[id], r)) {
      var g :| g in grants && p in g.item.policies;
      SatisfiedMeansGrants(schemas, id, g, p, reqs, world, r);
    }
    if g :| g in grants && Grants(schemas, id, g, r) {
      GrantsMeansSatisfied(schemas, id, grants, g, reqs, world, r);
    }
  }

  lemma CarriedArePermits(schemas: Vocabularies, grants: set<Grant>)
    requires forall g :: g in grants ==> IssuedBy(schemas, g.item)
    ensures forall p :: Carried(grants, p) ==> p.effect == Permit
  {
    forall p | Carried(grants, p)
      ensures p.effect == Permit
    {
      var g :| g in grants && p in g.item.policies;
      assert Issued(schemas[g.item.serverId], p);
    }
  }

  /** With permits only, a decision asks for a satisfied permit per question. */
  lemma DecisionOnPermits(em: EntityMap, grants: set<Grant>, requests: seq<Request>)
    requires forall p :: Carried(grants, p) ==> p.effect == Permit
    ensures DecisionOn(em, grants, requests) <==>
            requests != [] && forall q :: q in requests ==>
                exists p :: Carried(grants, p) && p.effect == Permit && Satisfied(em, p, q)
  {
    if requests != [] {
      assert requests[0] in requests;
    }
  }

  /**
   Whatever other resource servers issued, a decision on one's questions says, in its schema's
   terms, that each requirement is authorized by a grant it signed itself.
   */
  lemma DecisionMeansAuthorized(schemas: Vocabularies, id: string, grants: set<Grant>, reqs: seq<Requirement>,
                                world: seq<Entity>)
    requires OwnAgents(schemas) && id in schemas && forall g :: g in grants ==> IssuedBy(schemas, g.item)
    requires WellFormed(schemas[id], reqs) && CoherentAttrs(schemas[id], reqs) && IsWorld(schemas[id], reqs, world)
    ensures DecisionOn(LastWins(world), grants, Questions(schemas[id], reqs)) <==>
            reqs != [] && forall r :: r in reqs ==> exists g :: g in grants && Grants(schemas, id, g, r)
  {
    QuestionsMembers(schemas[id], reqs);
    CarriedArePermits(schemas, grants);
    DecisionOnPermits(LastWins(world), grants, Questions(schemas[id], reqs));
    forall r | r in reqs
      ensures (exists p ::
                 Carried(grants, p) && p.effect == Permit && Satisfied(LastWins(world), p, Question(schemas[id], r)))
              <==> exists g :: g in grants && Grants(schemas, id, g, r)
    {
      CarriedMeansGrants(schemas, id, grants, reqs, world, r);
    }
  }

  /** Everything that justifies a grant used at log entry `j`: signed, submitted, approved, still active. */
  ghost predicate Approved(c: Config, log: seq<Entry>, j: nat, g: Grant)
    requires j < |log| && log[j].Used?
  {
    && g.token == log[j].token && log[j].at < g.expiresAt
    && exists h, i :: 0 <= h < i < j && Justifies(c, log[h], log[i], g) && SignedBefore(log, h, g.item)
  }

  lemma UsedIsApproved(c: Config, schemas: Vocabularies, start: Time, moves: seq<Move>, j: nat, g: Grant)
    requires Possible(c, start, moves)
    requires SignsIssued(schemas, Execute(c, start, moves).log) && Unforged(Execute(c, start, moves).log)
    requires j < |Execute(c, start, moves).log| && Execute(c, start, moves).log[j].Used?
    requires g in Execute(c, start, moves).log[j].grants
    ensures Approved(c, Execute(c, start, moves).log, j, g) && IssuedBy(schemas, g.item)
  {
    var log := Execute(c, start, moves).log;
    EveryUseIsBacked(c, start, moves, j, g);
    var h, i :| 0 <= h < i < j && Justifies(c, log[h], log[i], g);
    assert SignedBefore(log, h, g.item);
    SubmittedAreIssued(schemas, log, h, g.item);
  }

  lemma DecisionMeansApproved(c: Config, schemas: Vocabularies, id: string, start: Time, moves: seq<Move>, j: nat,
                              reqs: seq<Requirement>, world: seq<Entity>)
    requires Possible(c, start, moves) && OwnAgents(schemas) && id in schemas
    requires SignsIssued(schemas, Execute(c, start, moves).log) && Unforged(Execute(c, start, moves).log)
    requires j < |Execute(c, start, moves).log| && Execute(c, start, moves).log[j].Used?
    requires WellFormed(schemas[id], reqs) && CoherentAttrs(schemas[id], reqs) && IsWorld(schemas[id], reqs, world)
    ensures var log := Execute(c, start, moves).log;
            DecisionOn(LastWins(world), log[j].grants, Questions(schemas[id], reqs)) <==>
            reqs != [] && forall r :: r in reqs ==>
                exists g :: g in log[j].grants && Grants(schemas, id, g, r) && Approved(c, log, j, g)
  {
    var log := Execute(c, start, moves).log;
    forall g | g in log[j].grants
      ensures Approved(c, log, j, g) && IssuedBy(schemas, g.item)
    {
      UsedIsApproved(c, schemas, start, moves, j, g);
    }
    DecisionMeansAuthorized(schemas, id, log[j].grants, reqs, world);
  }

  /** The answer is yes exactly when the decision is and the policies gathered parse. */
  lemma YesMeansDecided(w: Wire, em: EntityMap, used: set<Grant>, requests: seq<Request>, policies: seq<Policy>,
                        reply: Reply)
    requires Replies(w, em, used, requests, policies, reply)
    ensures reply == Answer(true) <==> w.parses(policies) && DecisionOn(em, used, requests)
  {
    GatheredAreCarried(used, policies);
  }

  /**
   The guarantee of the whole system. In any run of the handlers, a verification answers yes to an
   operation's requirements exactly when the policies gathered for the token parse and each
   requirement is authorized by a grant the token held; and every such grant was still active,
   carries content its resource server signed before it was submitted, and was approved, before its
   proposal's deadline, by the approver the proposal names.
   */
  lemma AllowedMeansApproved(c: Config, w: Wire, schemas: Vocabularies, id: string, start: Time, moves: seq<Move>,
                             j: nat, reqs: seq<Requirement>, world: seq<Entity>, policies: seq<Policy>, reply: Reply)
    requires Possible(c, start, moves) && OwnAgents(schemas) && id in schemas
    requires SignsIssued(schemas, Execute(c, start, moves).log) && Unforged(Execute(c, start, moves).log)
    requires j < |Execute(c, start, moves).log| && Execute(c, start, moves).log[j].Used?
    requires WellFormed(schemas[id], reqs) && CoherentAttrs(schemas[id], reqs) && IsWorld(schemas[id], reqs, world)
    requires Replies(w, LastWins(world), Execute(c, start, moves).log[j].grants, Questions(schemas[id], reqs),
             policies, reply)
    ensures var log := Execute(c, start, moves).log;
            reply == Answer(true) <==>
            && reqs != [] && w.parses(policies)
            && forall r :: r in reqs ==>
                exists g :: g in log[j].grants && Grants(schemas, id, g, r) && Approved(c, log, j, g)
  {
    DecisionMeansApproved(c, schemas, id, start, moves, j, reqs, world);
    YesMeansDecided(w, LastWins(world), Execute(c, start, moves).log[j].grants, Questions(schemas[id], reqs),
        policies, reply);
  }

  /**
   Nothing the token holds is overlooked: the verification was read from a store such that, its
   policies parsing, it answers yes when each requirement is authorized by a grant stored there that
   is active to its end, and answers yes only when each is authorized by one stored there and active
   at its start.
   */
  lemma HeldIsUsed(c: Config, w: Wire, schemas: Vocabularies, id: string, start: Time, moves: seq<Move>, j: nat,
                   reqs: seq<Requirement>, world: seq<Entity>, policies: seq<Policy>, reply: Reply)
    returns (n: nat)
    requires Possible(c, start, moves) && OwnAgents(schemas) && id in schemas
    requires SignsIssued(schemas, Execute(c, start, moves).log) && Unforged(Execute(c, start, moves).log)
    requires j < |Execute(c, start, moves).log| && Execute(c, start, moves).log[j].Used?
    requires WellFormed(schemas[id], reqs) && CoherentAttrs(schemas[id], reqs) && IsWorld(schemas[id], reqs, world)
    requires Replies(w, LastWins(world), Execute(c, start, moves).log[j].grants, Questions(schemas[id], reqs),
             policies, reply)
    ensures n < |moves| && Execute(c, start, moves[..n]).log == Execute(c, start, moves).log[..j]
    ensures var u, stored := Execute(c, start, moves).log[j], Execute(c, start, moves[..n]).store.grants;
            && (reqs != [] && w.parses(policies)
                && (forall r :: r in reqs ==> Stored(schemas, id, stored, u.token, u.until, r))
                ==> reply == Answer(true))
            && (reply == Answer(true) ==>
                  && reqs != [] && w.parses(policies)
                  && forall r :: r in reqs ==> Stored(schemas, id, stored, u.token, u.at, r))
  {
    var u := Execute(c, start, moves).log[j];
    n := EveryUseReadsTheStore(c, start, moves, j);
    var store := Execute(c, start, moves[..n]).store;
    UsesAreIssued(c, schemas, start, moves, j);
    forall r | r in reqs
      ensures Stored(schemas, id, store.grants, u.token, u.until, r) ==>
              exists g :: g in u.grants && Grants(schemas, id, g, r)
      ensures (exists g :: g in u.grants && Grants(schemas, id, g, r)) ==>
              Stored(schemas, id, store.grants, u.token, u.at, r)
    {
      StoredAround(schemas, id, store, u, r);
    }
    DecisionMeansAuthorized(schemas, id, u.grants, reqs, world);
    YesMeansDecided(w, LastWins(world), u.grants, Questions(schemas[id], reqs), policies, reply);
  }

  /** A stored grant of the token, active at a time, authorizes the requirement. */
  ghost predicate Stored(schemas: Vocabularies, id: string, stored: map<Id, Grant>, token: Token, at: Time,
                         r: Requirement)
    requires id in schemas
  {
    exists k :: k in stored && stored[k].token == token && at < stored[k].expiresAt && Grants(schemas, id, stored[k], r)
  }

  lemma StoredAround(schemas: Vocabularies, id: string, st: State, u: Entry, r: Requirement)
    requires id in schemas && u.Used? && Reads(st, u)
    ensures Stored(schemas, id, st.grants, u.token, u.until, r) ==>
            exists g :: g in u.grants && Grants(schemas, id, g, r)
    ensures (exists g :: g in u.grants && Grants(schemas, id, g, r)) ==>
            Stored(schemas, id, st.grants, u.token, u.at, r)
  {
    if g :| g in u.grants && Grants(schemas, id, g, r) {
      var k :| k in st.grants && st.grants[k].token == u.token && g == st.grants[k] && u.at < g.expiresAt;
    }
  }

  lemma UsesAreIssued(c: Config, schemas: Vocabularies, start: Time, moves: seq<Move>, j: nat)
    requires Possible(c, start, moves)
    requires SignsIssued(schemas, Execute(c, start, moves).log) && Unforged(Execute(c, start, moves).log)
    requires j < |Execute(c, start, moves).log| && Execute(c, start, moves).log[j].Used?
    ensures forall g :: g in Execute(c, start, moves).log[j].grants ==> IssuedBy(schemas, g.item)
  {
    forall g | g in Execute(c, start, moves).log[j].grants
      ensures IssuedBy(schemas, g.item)
    {
      UsedIsApproved(c, schemas, start, moves, j, g);
    }
  }
}
