/** The store itself: three buckets updated in place, one transaction per method. */
module Store {
  import opened Basics
  import opened Proposals
  import opened StoreModel
  import opened Ordering

  class Store {
    const rank: Rank
    var subjects: map<Token, Time>
    var proposals: map<Id, Proposal>
    var grants: map<Id, Grant>
    var nextId: Id
    /** The last reading of the clock; it never goes back. */
    var clock: Time

    ghost function Contents(): State
      reads this
    {
      State(subjects, proposals, grants, nextId)
    }

    ghost predicate Valid()
      reads this
    {
      Consistent(Contents()) && IsRank(rank)
    }

    constructor (start: Time, rank: Rank)
      requires IsRank(rank)
      ensures Valid() && this.rank == rank && Contents() == State(map[], map[], map[], 0) && clock == start
    {
      this.rank := rank;
      subjects, proposals, grants, nextId, clock := map[], map[], map[], 0, start;
    }

    method Now() returns (now: Time)
      modifies this`clock
      ensures old(clock) <= clock && now == clock
    {
      now :| now >= clock;
      clock := now;
    }

    method NewId() returns (id: Id)
      modifies this`nextId
      ensures id == old(nextId) && nextId == id + 1
    {
      id := nextId;
      nextId := nextId + 1;
    }

    method CreateSubject(token: Token)
      requires Valid()
      modifies this
      ensures Valid() && old(clock) <= clock
      ensures Contents() == SubjectCreated(old(Contents()), token, clock)
      ensures subjects == old(subjects)[token := clock] && proposals == old(proposals) && grants == old(grants)
    {
      var now := Now();
      subjects := subjects[token := now];
    }

    method SubjectExists(token: Token) returns (known: bool)
      ensures known <==> token != "" && token in subjects
    {
      known := token != "" && token in subjects;
    }

    method CreateProposal(token: Token, email: string, reason: string, items: seq<SignedItem>, ttl: int)
        returns (p: Proposal)
      requires Valid()
      modifies this
      ensures Valid() && old(clock) <= clock
      ensures p == NewProposal(old(Contents()), token, email, reason, items, ttl, clock)
      ensures Contents() == ProposalCreated(old(Contents()), p)
      ensures p.token == token && p.approverEmail == email && p.reason == reason && p.items == items
      ensures p.status == Pending && p.createdAt == clock && p.expiresAt == clock + ttl
      ensures p.id !in old(proposals) && p.id !in old(grants)
      ensures proposals == old(proposals)[p.id := p] && subjects == old(subjects) && grants == old(grants)
    {
      var now := Now();
      var id := NewId();
      p := Proposal(id, token, email, reason, items, Pending, now, now + ttl);
      proposals := proposals[p.id := p];
    }

    method GetProposal(id: Id) returns (p: Option<Proposal>)
      ensures p == if id in proposals then Some(proposals[id]) else None
    {
      p := if id in proposals then Some(proposals[id]) else None;
    }

    /** One grant for one item; the clock is read twice. */
    method AttachGrant(p: Proposal, item: SignedItem, ttl: int) returns (ghost stamp: Stamp)
      requires Valid()
      modifies this`grants, this`nextId, this`clock
      ensures Valid() && nextId == old(nextId) + 1
      ensures old(clock) <= stamp.created <= stamp.base <= clock
      ensures grants ==
              old(grants)[old(nextId) := Grant(old(nextId), p.token, p.id, item, stamp.created, stamp.base + ttl)]
    {
      var id := NewId();
      var created := Now();
      var base := Now();
      stamp := Stamp(created, base);
      var g := Grant(id, p.token, p.id, item, created, base + ttl);
      grants := grants[g.id := g];
    }

    method AttachGrants(p: Proposal, ttl: int, ghost at: Time) returns (ghost stamps: seq<Stamp>)
      requires Valid()
      modifies this`grants, this`nextId, this`clock
      ensures Valid() && old(clock) <= clock && nextId == old(nextId) + |p.items|
      ensures |stamps| == |p.items|
      ensures forall i :: 0 <= i < |stamps| ==> old(clock) <= stamps[i].created <= stamps[i].base <= clock
      ensures grants == old(grants) + GrantsFor(p, old(nextId), |p.items|, at, stamps, ttl)
    {
      stamps := [];
      for i := 0 to |p.items|
        invariant Valid() && old(clock) <= clock && nextId == old(nextId) + i && |stamps| == i
        invariant forall j :: 0 <= j < i ==> old(clock) <= stamps[j].created <= stamps[j].base <= clock
        invariant grants == old(grants) + GrantsFor(p, old(nextId), i, at, stamps, ttl)
      {
        ghost var stamp := AttachGrant(p, p.items[i], ttl);
        OneMoreGrant(old(grants), p, old(nextId), i, at, stamps, stamp, ttl);
        stamps := stamps + [stamp];
      }
    }

    method Approve(id: Id, ttl: int) returns (o: Outcome, ghost at: Time, ghost stamps: seq<Stamp>)
      requires Valid()
      modifies this
      ensures Valid() && old(clock) <= at <= clock
      ensures forall i :: 0 <= i < |stamps| ==> at <= stamps[i].created <= stamps[i].base <= clock
      ensures o.Done? ==> |stamps| == |o.proposal.items|
      ensures (Contents(), o) == ApproveResult(old(Contents()), id, ttl, at, stamps)
      ensures o == NotFound <==> id !in old(proposals)
      ensures o == AlreadyDecided <==> id in old(proposals) && old(proposals)[id].status != Pending
      ensures o.TimedOut? <==>
                id in old(proposals) && old(proposals)[id].status == Pending && at >= old(proposals)[id].expiresAt
      ensures subjects == old(subjects) && (!o.Done? ==> grants == old(grants))
      ensures proposals == match o
                           case TimedOut(_) => old(proposals)[id := old(proposals)[id].(status := Expired)]
                           case Done(_) => old(proposals)[id := old(proposals)[id].(status := Approved)]
                           case _ => old(proposals)
      ensures o.Done? ==> o.proposal == proposals[id] && forall k :: k in old(grants) ==>
              k in grants && grants[k] == old(grants)[k]
      ensures o.Done? ==>
                forall k :: k in grants && k !in old(grants)
                    <==> old(nextId) <= k < old(nextId) + |old(proposals)[id].items|
      ensures o.Done? ==>
                forall k :: k in grants && k !in old(grants) ==>
                  var i := k - old(nextId);
                  grants[k] == Grant(k, old(proposals)[id].token, id, old(proposals)[id].items[i], stamps[i].created,
                      stamps[i].base + ttl)
    {
      ghost var before := Contents();
      o, at, stamps := DecideToApprove(id, ttl);
      ApprovalInFields(before, id, ttl, at, stamps);
    }

    method DecideToApprove(id: Id, ttl: int) returns (o: Outcome, ghost at: Time, ghost stamps: seq<Stamp>)
      requires Valid()
      modifies this
      ensures Valid() && old(clock) <= at <= clock
      ensures forall i :: 0 <= i < |stamps| ==> at <= stamps[i].created <= stamps[i].base <= clock
      ensures o.Done? ==> |stamps| == |o.proposal.items|
      ensures (Contents(), o) == ApproveResult(old(Contents()), id, ttl, at, stamps)
    {
      at, stamps := clock, [];
      if id !in proposals {
        return NotFound, at, stamps;
      }
      var p := proposals[id];
      if p.status != Pending {
        return AlreadyDecided, at, stamps;
      }
      var now := Now();
      at := now;
      if Lapsed(p, now) {
        p := p.(status := Expired);
        proposals := proposals[p.id := p];
        return TimedOut(p), at, stamps;
      }
      p := p.(status := Approved);
      proposals := proposals[p.id := p];
      stamps := AttachGrants(p, ttl, at);
      o := Done(p);
    }

    method Reject(id: Id) returns (o: Outcome, ghost at: Time)
      requires Valid()
      modifies this
      ensures Valid() && old(clock) <= at <= clock
      ensures (Contents(), o) == RejectResult(old(Contents()), id, at)
      ensures o == NotFound <==> id !in old(proposals)
      ensures o == AlreadyDecided <==> id in old(proposals) && old(proposals)[id].status != Pending
      ensures o.TimedOut? <==>
                id in old(proposals) && old(proposals)[id].status == Pending && at >= old(proposals)[id].expiresAt
      ensures subjects == old(subjects) && grants == old(grants)
      ensures proposals == match o
                           case TimedOut(_) => old(proposals)[id := old(proposals)[id].(status := Expired)]
                           case Done(_) => old(proposals)[id := old(proposals)[id].(status := Rejected)]
                           case _ => old(proposals)
    {
      at := clock;
      if id !in proposals {
        return NotFound, at;
      }
      var p := proposals[id];
      if p.status != Pending {
        return AlreadyDecided, at;
      }
      var now := Now();
      at := now;
      if Lapsed(p, now) {
        p := p.(status := Expired);
        proposals := proposals[p.id := p];
        return TimedOut(p), at;
      }
      p := p.(status := Rejected);
      proposals := proposals[p.id := p];
      o := Done(p);
    }

    /** The deletion loop every cleaning method ends with. */
    method DeleteGrants(keys: seq<Id>) returns (deleted: nat)
      requires Valid() && NoDuplicates(keys)
      modifies this`grants
      ensures Valid() && deleted == |keys| && grants == old(grants) - (set k | k in keys)
    {
      deleted := 0;
      for i := 0 to |keys|
        invariant Valid() && deleted == i && grants == old(grants) - (set k | k in keys[..i])
      {
        assert keys[..i + 1] == keys[..i] + [keys[i]];
        grants := grants - {keys[i]};
        deleted := deleted + 1;
      }
      assert keys[..|keys|] == keys;
    }

    /**
     The token's active grants, its expired ones deleted. The clock is read once per grant while
     the bucket is scanned; `readings` records those readings.
     */
    method SubjectForToken(token: Token) returns (out: seq<Grant>, ghost readings: map<Id, Time>)
      requires Valid()
      modifies this
      ensures Valid() && old(clock) <= clock
      ensures readings.Keys == Held(old(grants), token)
      ensures forall k :: k in readings ==> old(clock) <= readings[k] <= clock
      ensures Contents() == Swept(old(Contents()), token, readings, old(clock))
      ensures forall g :: g in out <==> g in ActiveFor(old(grants), token, readings, old(clock))
      ensures Distinct(out, GrantId)
      ensures forall k :: k in readings <==> k in old(grants) && old(grants)[k].token == token
      ensures forall k :: k in readings ==> (old(grants)[k] in out <==> readings[k] < old(grants)[k].expiresAt)
      ensures forall g :: g in out ==> exists k :: k in readings && g == old(grants)[k]
      ensures forall k :: k in old(grants) ==>
                (k !in grants <==> old(grants)[k].token == token && readings[k] >= old(grants)[k].expiresAt)
      ensures forall k :: k in grants ==> k in old(grants) && grants[k] == old(grants)[k]
      ensures subjects == old(subjects) && proposals == old(proposals)
    {
      var expired: seq<Id>;
      ghost var before := grants;
      out, expired, readings := ScanToken(token);
      ReadInFields(before, token, readings, old(clock));
      ghost var stale := Stale(old(grants), token, readings, old(clock));
      assert forall k :: k in expired <==> k in stale;
      var _ := DeleteGrants(expired);
      assert (set k | k in expired) == stale;
    }

    /** The scan: which of the token's grants are active and which are not. */
    method ScanToken(token: Token) returns (out: seq<Grant>, expired: seq<Id>, ghost readings: map<Id, Time>)
      requires Valid()
      modifies this`clock
      ensures old(clock) <= clock && readings.Keys == Held(grants, token)
      ensures forall k :: k in readings ==> old(clock) <= readings[k] <= clock
      ensures Returned(grants, readings, out) && Refused(grants, readings, expired) && Distinct(out, GrantId)
    {
      out, expired, readings := [], [], map[];
      var todo := grants.Keys;
      while todo != {}
        invariant todo <= grants.Keys && old(clock) <= clock
        invariant forall k :: k in readings <==> k in grants && k !in todo && grants[k].token == token
        invariant forall k :: k in readings ==> old(clock) <= readings[k] <= clock
        invariant Returned(grants, readings, out) && Refused(grants, readings, expired) && Distinct(out, GrantId)
        decreases todo
      {
        var k :| k in todo;
        todo := todo - {k};
        var g := grants[k];
        if g.token != token {
          continue;
        }
        var now := Now();
        OneMoreReading(grants, readings, out, expired, k, now);
        readings := readings[k := now];
        if Active(g, now) {
          out := out + [g];
        } else {
          expired := expired + [k];
        }
      }
    }

    method DeleteGrantsForToken(token: Token) returns (deleted: nat)
      requires Valid()
      modifies this`grants
      ensures Valid() && Contents() == Revoked(old(Contents()), token)
      ensures deleted == |set k | k in old(grants) && old(grants)[k].token == token|
      ensures forall k :: k in grants <==> k in old(grants) && old(grants)[k].token != token
      ensures forall k :: k in grants ==> grants[k] == old(grants)[k]
    {
      var keys: seq<Id> := [];
      var todo := grants.Keys;
      ghost var all := Held(grants, token);
      while todo != {}
        invariant todo <= grants.Keys
        invariant forall k :: k in keys <==> k in all && k !in todo
        invariant NoDuplicates(keys)
        decreases todo
      {
        var k :| k in todo;
        todo := todo - {k};
        if grants[k].token == token {
          keys := keys + [k];
        }
      }
      assert (set k | k in keys) == all;
      DistinctCount(keys, all);
      assert all == set k | k in grants && grants[k].token == token;
      deleted := DeleteGrants(keys);
    }

    method DestroySubject(token: Token) returns (deleted: nat)
      requires Valid()
      modifies this
      ensures Valid() && clock == old(clock) && Contents() == Destroyed(old(Contents()), token)
      ensures deleted == |set k | k in old(grants) && old(grants)[k].token == token|
      ensures subjects == old(subjects) - {token} && proposals == old(proposals)
      ensures forall k :: k in grants <==> k in old(grants) && old(grants)[k].token != token
      ensures forall k :: k in grants ==> grants[k] == old(grants)[k]
    {
      subjects := subjects - {token};
      deleted := DeleteGrantsForToken(token);
    }

    method RevokeGrantsForToken(token: Token) returns (deleted: nat)
      requires Valid()
      modifies this
      ensures Valid() && clock == old(clock) && Contents() == Revoked(old(Contents()), token)
      ensures deleted == |set k | k in old(grants) && old(grants)[k].token == token|
      ensures subjects == old(subjects) && proposals == old(proposals)
      ensures forall k :: k in grants <==> k in old(grants) && old(grants)[k].token != token
      ensures forall k :: k in grants ==> grants[k] == old(grants)[k]
    {
      deleted := DeleteGrantsForToken(token);
    }

    /** The janitor's tick: one clock reading, then two scans each followed by its updates. */
    method PurgeExpired() returns (affected: nat)
      requires Valid()
      modifies this
      ensures Valid() && old(clock) <= clock && Contents() == Purged(old(Contents()), clock)
      ensures affected == |ExpiredKeys(old(grants), clock)| + |LapsedKeys(old(proposals), clock)|
      ensures affected == |set k | k in old(grants) && clock >= old(grants)[k].expiresAt|
                          + |set k | k in old(proposals) && old(proposals)[k].status == Pending
                              && clock >= old(proposals)[k].expiresAt|
      ensures forall k :: k in grants <==> k in old(grants) && clock < old(grants)[k].expiresAt
      ensures forall k :: k in grants ==> grants[k] == old(grants)[k]
      ensures proposals.Keys == old(proposals).Keys && subjects == old(subjects)
      ensures forall k :: k in proposals ==>
                proposals[k] == if old(proposals)[k].status == Pending && clock >= old(proposals)[k].expiresAt
                                then old(proposals)[k].(status := Expired) else old(proposals)[k]
    {
      var now := Now();
      var expired := ScanExpired(now);
      var deleted := DeleteGrants(expired);
      var marked := MarkLapsed(now);
      affected := deleted + marked;
      PurgeInFields(old(grants), old(proposals), now);
    }

    method ScanExpired(now: Time) returns (expired: seq<Id>)
      ensures NoDuplicates(expired)
      ensures (set k | k in expired) == ExpiredKeys(grants, now)
      ensures |expired| == |ExpiredKeys(grants, now)|
    {
      expired := [];
      var todo := grants.Keys;
      while todo != {}
        invariant todo <= grants.Keys
        invariant forall k :: k in expired <==> k in ExpiredKeys(grants, now) && k !in todo
        invariant NoDuplicates(expired)
        decreases todo
      {
        var k :| k in todo;
        todo := todo - {k};
        if !Active(grants[k], now) {
          expired := expired + [k];
        }
      }
      DistinctCount(expired, ExpiredKeys(grants, now));
    }

    /** The records to write back, each already marked, with their keys. */
    method ScanLapsed(now: Time) returns (lapsed: seq<Proposal>, ghost keys: seq<Id>)
      requires Valid()
      ensures |keys| == |lapsed| && forall k :: k in keys <==> k in LapsedKeys(proposals, now)
      ensures forall i :: 0 <= i < |lapsed| ==>
              keys[i] in proposals && lapsed[i] == proposals[keys[i]].(status := Expired)
      ensures NoDuplicates(keys)
    {
      lapsed, keys := [], [];
      var todo := proposals.Keys;
      while todo != {}
        invariant todo <= proposals.Keys && |keys| == |lapsed|
        invariant forall k :: k in keys <==> k in LapsedKeys(proposals, now) && k !in todo
        invariant forall i :: 0 <= i < |lapsed| ==>
                  keys[i] in proposals && lapsed[i] == proposals[keys[i]].(status := Expired)
        invariant NoDuplicates(keys)
        decreases todo
      {
        var k :| k in todo;
        todo := todo - {k};
        var p := proposals[k];
        if Lapsed(p, now) {
          keys := keys + [k];
          lapsed := lapsed + [p.(status := Expired)];
        }
      }
    }

    method MarkLapsed(now: Time) returns (marked: nat)
      requires Valid()
      modifies this`proposals
      ensures Valid() && proposals == EffectiveAll(old(proposals), now)
      ensures marked == |LapsedKeys(old(proposals), now)|
    {
      var lapsed: seq<Proposal>;
      ghost var keys: seq<Id>;
      lapsed, keys := ScanLapsed(now);
      DistinctCount(keys, LapsedKeys(proposals, now));
      assert keys[..|keys|] == keys;
      marked := 0;
      for i := 0 to |lapsed|
        invariant marked == i && proposals == MarkedIn(old(proposals), keys[..i])
      {
        MarkOneMore(old(proposals), keys, i, lapsed[i]);
        proposals := proposals[lapsed[i].id := lapsed[i]];
        marked := marked + 1;
      }
      assert proposals == EffectiveAll(old(proposals), now);
    }

    /** The next key of a scan in key order. */
    method NextKey(todo: set<Id>) returns (k: Id)
      requires todo != {} && IsRank(rank)
      ensures k in todo && forall l :: l in todo - {k} ==> rank(k) < rank(l)
    {
      ghost var least := LeastOf(rank, todo);
      k :| k in todo && forall l :: l in todo ==> rank(k) <= rank(l);
    }

    method ScanGrants() returns (out: seq<Grant>, ghost readings: map<Id, Time>)
      requires Valid()
      modifies this`clock
      ensures Valid() && old(clock) <= clock && readings.Keys == grants.Keys
      ensures forall k :: k in readings ==> old(clock) <= readings[k] <= clock
      ensures Returned(grants, readings, out) && Ascending(out, GrantRank(rank))
    {
      out, readings := [], map[];
      ghost var refused: seq<Id> := [];
      var todo := grants.Keys;
      while todo != {}
        invariant todo <= grants.Keys && old(clock) <= clock && readings.Keys == grants.Keys - todo
        invariant forall k :: k in readings ==> old(clock) <= readings[k] <= clock
        invariant forall k, l :: k in readings && l in todo ==> rank(k) < rank(l)
        invariant Returned(grants, readings, out) && Refused(grants, readings, refused) && Distinct(out, GrantId)
        invariant Ascending(out, GrantRank(rank))
        decreases todo
      {
        var k := NextKey(todo);
        todo := todo - {k};
        var now := Now();
        OneMoreReading(grants, readings, out, refused, k, now);
        LastInScan(grants, readings, out, rank, k);
        readings := readings[k := now];
        if Active(grants[k], now) {
          out := out + [grants[k]];
        } else {
          refused := refused + [k];
        }
      }
    }

    /** Every active grant, whoever holds it, newest first; the clock is read once per grant. */
    method AllGrants() returns (out: seq<Grant>, ghost readings: map<Id, Time>)
      requires Valid()
      modifies this`clock
      ensures Valid() && old(clock) <= clock && readings.Keys == grants.Keys
      ensures forall k :: k in readings ==> old(clock) <= readings[k] <= clock
      ensures forall g :: g in out <==> exists k :: k in grants && g == grants[k] && Active(g, readings[k])
      ensures Listing(out, GrantCreated, GrantRank(rank)) && NewestFirst(out, GrantCreated) && NoDuplicates(out)
      ensures forall k :: k in grants ==> (grants[k] in out <==> readings[k] < grants[k].expiresAt)
      ensures forall i, j :: 0 <= i < j < |out| ==>
                out[i].createdAt > out[j].createdAt || (out[i].createdAt == out[j].createdAt
                    && rank(out[i].id) < rank(out[j].id))
    {
      var found;
      found, readings := ScanGrants();
      ReturnedAre(grants, readings, found);
      SortOrders(found, GrantCreated);
      SortOfScan(found, GrantCreated, GrantRank(rank));
      out := Sort(found, GrantCreated);
      ListingOnce(out, GrantCreated, GrantRank(rank));
      GrantsInOrder(out, rank);
      ActiveOnes(grants, readings, out);
    }

    method ScanProposals() returns (out: seq<Proposal>)
      requires Valid()
      ensures forall p :: p in out <==> exists k :: k in proposals && p == proposals[k]
      ensures Ascending(out, ProposalRank(rank))
    {
      out := [];
      var todo := proposals.Keys;
      while todo != {}
        invariant todo <= proposals.Keys
        invariant forall i :: 0 <= i < |out| ==> out[i].id in proposals.Keys - todo && out[i] == proposals[out[i].id]
        invariant forall k :: k in proposals && k !in todo ==> proposals[k] in out
        invariant forall k, l :: k in proposals && k !in todo && l in todo ==> rank(k) < rank(l)
        invariant Ascending(out, ProposalRank(rank))
        decreases todo
      {
        var k := NextKey(todo);
        LastProposalInScan(proposals, out, todo, rank, k);
        todo := todo - {k};
        out := out + [proposals[k]];
      }
    }

    /** Every proposal with its stored status, newest first. */
    method AllProposals() returns (out: seq<Proposal>)
      requires Valid()
      ensures forall p :: p in out <==> exists k :: k in proposals && p == proposals[k]
      ensures Listing(out, ProposalCreatedAt, ProposalRank(rank)) && NewestFirst(out, ProposalCreatedAt)
              && NoDuplicates(out)
      ensures forall i, j :: 0 <= i < j < |out| ==>
                out[i].createdAt > out[j].createdAt || (out[i].createdAt == out[j].createdAt
                    && rank(out[i].id) < rank(out[j].id))
    {
      var found := ScanProposals();
      SortOrders(found, ProposalCreatedAt);
      SortOfScan(found, ProposalCreatedAt, ProposalRank(rank));
      out := Sort(found, ProposalCreatedAt);
      ListingOnce(out, ProposalCreatedAt, ProposalRank(rank));
      ProposalsInOrder(out, rank);
    }
  }

  // ---------- The transactions, field by field ----------

  lemma ApprovalInFields(st: State, id: Id, ttl: int, at: Time, stamps: seq<Stamp>)
    requires Consistent(st)
    requires ApproveResult(st, id, ttl, at, stamps).1.Done? ==>
             |stamps| == |ApproveResult(st, id, ttl, at, stamps).1.proposal.items|
    ensures var (st', o) := ApproveResult(st, id, ttl, at, stamps);
            o.Done? ==>
              && (forall k :: k in st.grants ==> k in st'.grants && st'.grants[k] == st.grants[k])
              && (forall k ::
                    k in st'.grants && k !in st.grants <==> st.nextId <= k < st.nextId + |st.proposals[id].items|)
              && forall k :: k in st'.grants && k !in st.grants ==>
                   var i := k - st.nextId;
                   st'.grants[k] == Grant(k, st.proposals[id].token, id, st.proposals[id].items[i], stamps[i].created,
                       stamps[i].base + ttl)
  {
    if Decide(st, id, at).Done? {
      var p := st.proposals[id].(status := Approved);
      GrantsMade(p, st.nextId, at, stamps, ttl);
      AddedAbove(st.grants, GrantsFor(p, st.nextId, |p.items|, at, stamps, ttl), st.nextId, |p.items|);
    }
  }

  lemma GrantsMade(p: Proposal, first: Id, at: Time, stamps: seq<Stamp>, ttl: int)
    requires |stamps| == |p.items|
    ensures forall k :: k in GrantsFor(p, first, |p.items|, at, stamps, ttl) <==> first <= k < first + |p.items|
    ensures forall k :: k in GrantsFor(p, first, |p.items|, at, stamps, ttl) ==>
              GrantsFor(p, first, |p.items|, at, stamps, ttl)[k]
              == Grant(k, p.token, p.id, p.items[k - first], stamps[k - first].created, stamps[k - first].base + ttl)
  {
    GrantsForKeys(p, first, |p.items|, at, stamps, ttl);
    forall k | k in GrantsFor(p, first, |p.items|, at, stamps, ttl)
      ensures GrantsFor(p, first, |p.items|, at, stamps, ttl)[k]
              == Grant(k, p.token, p.id, p.items[k - first], stamps[k - first].created, stamps[k - first].base + ttl)
    {
      GrantsForAt(p, first, |p.items|, at, stamps, ttl, k - first);
    }
  }

  lemma AddedAbove(grants: map<Id, Grant>, made: map<Id, Grant>, first: Id, n: nat)
    requires (forall k :: k in grants ==> k < first) && forall k :: k in made <==> first <= k < first + n
    ensures forall k :: k in grants ==> k in grants + made && (grants + made)[k] == grants[k]
    ensures forall k :: k in grants + made && k !in grants <==> first <= k < first + n
    ensures forall k :: k in made ==> (grants + made)[k] == made[k]
  {
  }

  lemma ReadInFields(grants: map<Id, Grant>, token: Token, readings: map<Id, Time>, at: Time)
    requires readings.Keys == Held(grants, token) && forall k :: k in grants ==> grants[k].id == k
    ensures forall k :: k in readings <==> k in grants && grants[k].token == token
    ensures forall k :: k in readings ==>
              (grants[k] in ActiveFor(grants, token, readings, at) <==> readings[k] < grants[k].expiresAt)
    ensures forall g :: g in ActiveFor(grants, token, readings, at) ==> exists k :: k in readings && g == grants[k]
    ensures forall k :: k in Stale(grants, token, readings, at) ==>
              k in grants && grants[k].token == token && readings[k] >= grants[k].expiresAt
    ensures forall k :: k in grants && grants[k].token == token && readings[k] >= grants[k].expiresAt ==>
              k in Stale(grants, token, readings, at)
  {
    forall k | k in readings
      ensures grants[k] in ActiveFor(grants, token, readings, at) <==> readings[k] < grants[k].expiresAt
    {
      if grants[k] in ActiveFor(grants, token, readings, at) {
        var l :| l in Held(grants, token) - Stale(grants, token, readings, at) && grants[l] == grants[k];
        assert l == k;
      }
    }
  }

  lemma PurgeInFields(grants: map<Id, Grant>, proposals: map<Id, Proposal>, now: Time)
    ensures ExpiredKeys(grants, now) == set k | k in grants && now >= grants[k].expiresAt
    ensures LapsedKeys(proposals, now) == set k | k in proposals && proposals[k].status == Pending
            && now >= proposals[k].expiresAt
  {
  }

  lemma ActiveOnes(grants: map<Id, Grant>, readings: map<Id, Time>, out: seq<Grant>)
    requires readings.Keys == grants.Keys && forall k :: k in grants ==> grants[k].id == k
    requires forall g :: g in out <==> exists k :: k in grants && g == grants[k] && Active(g, readings[k])
    ensures forall k :: k in grants ==> (grants[k] in out <==> readings[k] < grants[k].expiresAt)
  {
    forall k | k in grants
      ensures grants[k] in out <==> readings[k] < grants[k].expiresAt
    {
      if grants[k] in out {
        var l :| l in grants && grants[k] == grants[l] && Active(grants[k], readings[l]);
        assert l == k;
      }
    }
  }

  lemma GrantsInOrder(out: seq<Grant>, rank: Rank)
    requires Listing(out, GrantCreated, GrantRank(rank))
    ensures forall i, j :: 0 <= i < j < |out| ==>
              out[i].createdAt > out[j].createdAt || (out[i].createdAt == out[j].createdAt
                  && rank(out[i].id) < rank(out[j].id))
  {
    forall i, j | 0 <= i < j < |out|
      ensures out[i].createdAt > out[j].createdAt || (out[i].createdAt == out[j].createdAt
              && rank(out[i].id) < rank(out[j].id))
    {
      assert Before(out[i], out[j], GrantCreated, GrantRank(rank));
    }
  }

  lemma ProposalsInOrder(out: seq<Proposal>, rank: Rank)
    requires Listing(out, ProposalCreatedAt, ProposalRank(rank))
    ensures forall i, j :: 0 <= i < j < |out| ==>
              out[i].createdAt > out[j].createdAt || (out[i].createdAt == out[j].createdAt
                  && rank(out[i].id) < rank(out[j].id))
  {
    forall i, j | 0 <= i < j < |out|
      ensures out[i].createdAt > out[j].createdAt || (out[i].createdAt == out[j].createdAt
              && rank(out[i].id) < rank(out[j].id))
    {
      assert Before(out[i], out[j], ProposalCreatedAt, ProposalRank(rank));
    }
  }

  /** The grants found active so far, each at its own clock reading. */
  ghost predicate Returned(grants: map<Id, Grant>, readings: map<Id, Time>, out: seq<Grant>)
  {
    && (forall i :: 0 <= i < |out| ==> out[i].id in readings && out[i].id in grants && out[i] == grants[out[i].id]
                                       && Active(out[i], readings[out[i].id]))
    && (forall k :: k in readings && k in grants && Active(grants[k], readings[k]) ==> grants[k] in out)
  }

  ghost predicate Refused(grants: map<Id, Grant>, readings: map<Id, Time>, expired: seq<Id>)
  {
    && NoDuplicates(expired)
    && (forall k :: k in expired <==> k in readings && k in grants && !Active(grants[k], readings[k]))
  }

  lemma OneMoreReading(grants: map<Id, Grant>, readings: map<Id, Time>, out: seq<Grant>, expired: seq<Id>, k: Id,
                       now: Time)
    requires Returned(grants, readings, out) && Refused(grants, readings, expired) && Distinct(out, GrantId)
    requires k in grants && k !in readings && grants[k].id == k
    ensures if Active(grants[k], now)
            then Returned(grants, readings[k := now], out + [grants[k]]) && Refused(grants, readings[k := now], expired)
                 && Distinct(out + [grants[k]], GrantId)
            else Returned(grants, readings[k := now], out) && Refused(grants, readings[k := now], expired + [k])
  {
  }

  lemma LastInScan(grants: map<Id, Grant>, readings: map<Id, Time>, out: seq<Grant>, rank: Rank, k: Id)
    requires Returned(grants, readings, out) && Ascending(out, GrantRank(rank)) && k in grants && grants[k].id == k
    requires forall l :: l in readings ==> rank(l) < rank(k)
    ensures Ascending(out + [grants[k]], GrantRank(rank))
  {
  }

  lemma LastProposalInScan(proposals: map<Id, Proposal>, out: seq<Proposal>, todo: set<Id>, rank: Rank, k: Id)
    requires forall i :: 0 <= i < |out| ==> out[i].id in proposals.Keys - todo
    requires Ascending(out, ProposalRank(rank)) && k in proposals && proposals[k].id == k
    requires forall l :: l in proposals && l !in todo ==> rank(l) < rank(k)
    ensures Ascending(out + [proposals[k]], ProposalRank(rank))
  {
  }

  lemma ReturnedAre(grants: map<Id, Grant>, readings: map<Id, Time>, out: seq<Grant>)
    requires Returned(grants, readings, out) && readings.Keys == grants.Keys && forall k :: k in grants ==>
             grants[k].id == k
    ensures forall g :: g in out <==> exists k :: k in grants && g == grants[k] && Active(g, readings[k])
  {
  }

  function MarkedIn(proposals: map<Id, Proposal>, keys: seq<Id>): map<Id, Proposal>
  {
    map k | k in proposals :: if k in keys then proposals[k].(status := Expired) else proposals[k]
  }

  lemma MarkOneMore(proposals: map<Id, Proposal>, keys: seq<Id>, i: nat, p: Proposal)
    requires i < |keys| && keys[i] in proposals && p == proposals[keys[i]].(status := Expired)
    ensures MarkedIn(proposals, keys[..i])[keys[i] := p] == MarkedIn(proposals, keys[..i + 1])
  {
    assert keys[..i + 1] == keys[..i] + [keys[i]];
  }

  lemma OneMoreGrant(before: map<Id, Grant>, p: Proposal, first: Id, i: nat, at: Time, stamps: seq<Stamp>,
                     stamp: Stamp, ttl: int)
    requires i < |p.items| && |stamps| == i
    ensures (before + GrantsFor(p, first, i, at, stamps, ttl))
              [first + i := Grant(first + i, p.token, p.id, p.items[i], stamp.created, stamp.base + ttl)]
            == before + GrantsFor(p, first, i + 1, at, stamps + [stamp], ttl)
  {
    GrantsIgnoreLaterStamps(p, first, i, at, stamps, stamp, ttl);
  }

  lemma {:induction false} DistinctCount(keys: seq<Id>, s: set<Id>)
    requires (forall k :: k in keys <==> k in s) && NoDuplicates(keys)
    ensures |keys| == |s| && (set k | k in keys) == s
  {
    if keys == [] {
      assert s == {};
    } else {
      var init, last := keys[..|keys| - 1], keys[|keys| - 1];
      assert keys == init + [last] && last !in init;
      DistinctCount(init, s - {last});
      assert s == s - {last} + {last};
    }
  }
}
