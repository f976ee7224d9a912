/** The approver's own history: which requests the home page lists, in what order and with what status. */
module Activity {
  import opened Basics
  import opened Strings
  import opened Proposals
  import opened StoreModel
  import opened Ordering
  import opened Handlers
  import S = Store

  datatype Row = Row(status: Status, summary: string, items: nat, createdAt: Time)

  /** `signIn` offers a login: authentication is on, but nobody is signed in. */
  datatype Page = Approvals(rows: seq<Row>) | Landing(signIn: bool)

  function FirstSummary(items: seq<SignedItem>): string
  {
    if items == [] then ""
    else if |items| == 1 then items[0].presentation.summary
    else items[0].presentation.summary + " (+" + Decimal(|items| - 1) + " more)"
  }

  function RowOf(p: Proposal): Row
  {
    Row(p.status, FirstSummary(p.items), |p.items|, p.createdAt)
  }

  /** Each proposal as the janitor would leave it now. */
  function Rows(ps: seq<Proposal>, now: Time): seq<Row>
  {
    seq(|ps|, i requires 0 <= i < |ps| => RowOf(Effective(ps[i], now)))
  }

  /** The proposals addressed to an approver, each once, newest first, in key order among those of one moment. */
  ghost predicate IsListing(ps: seq<Proposal>, proposals: map<Id, Proposal>, rank: Rank, email: string)
  {
    && Listing(ps, ProposalCreatedAt, ProposalRank(rank))
    && forall p :: p in ps <==> exists k :: k in proposals && p == proposals[k] && p.approverEmail == email
  }

  method BuildActivity(now: Time, ps: seq<Proposal>) returns (rows: seq<Row>)
    ensures rows == Rows(ps, now)
    ensures |rows| == |ps|
    ensures forall i :: 0 <= i < |ps| ==>
              && rows[i].status == (if ps[i].status == Pending && now >= ps[i].expiresAt then Expired else ps[i].status)
              && rows[i].items == |ps[i].items| && rows[i].createdAt == ps[i].createdAt
              && (ps[i].items == [] ==> rows[i].summary == "")
              && (|ps[i].items| == 1 ==> rows[i].summary == ps[i].items[0].presentation.summary)
              && (|ps[i].items| > 1 ==>
                    rows[i].summary
                        == ps[i].items[0].presentation.summary + " (+" + Decimal(|ps[i].items| - 1) + " more)")
  {
    rows := [];
    for i := 0 to |ps|
      invariant |rows| == i && forall j :: 0 <= j < i ==> rows[j] == RowOf(Effective(ps[j], now))
    {
      var status := ps[i].status;
      if Lapsed(ps[i], now) {
        status := Expired;
      }
      rows := rows + [Row(status, FirstSummary(ps[i].items), |ps[i].items|, ps[i].createdAt)];
    }
  }

  /** The selection keeps order. */
  method Mine(all: seq<Proposal>, ghost rank: Rank, email: string) returns (mine: seq<Proposal>)
    requires Listing(all, ProposalCreatedAt, ProposalRank(rank))
    ensures Listing(mine, ProposalCreatedAt, ProposalRank(rank))
    ensures forall p :: p in mine <==> p in all && p.approverEmail == email
  {
    mine := [];
    ghost var from: seq<nat> := [];
    for i := 0 to |all|
      invariant |from| == |mine| && forall j :: 0 <= j < |from| ==> from[j] < i && mine[j] == all[from[j]]
      invariant forall j, k :: 0 <= j < k < |from| ==> from[j] < from[k]
      invariant forall p :: p in mine <==> p in all[..i] && p.approverEmail == email
    {
      if all[i].approverEmail == email {
        mine, from := mine + [all[i]], from + [i];
      }
    }
    assert all[..|all|] == all;
    SelectionIsListing(all, mine, from, rank);
  }

  lemma SelectionIsListing(all: seq<Proposal>, mine: seq<Proposal>, from: seq<nat>, rank: Rank)
    requires Listing(all, ProposalCreatedAt, ProposalRank(rank)) && |from| == |mine|
    requires forall j :: 0 <= j < |from| ==> from[j] < |all| && mine[j] == all[from[j]]
    requires forall j, k :: 0 <= j < k < |from| ==> from[j] < from[k]
    ensures Listing(mine, ProposalCreatedAt, ProposalRank(rank))
  {
    forall j, k | 0 <= j < k < |mine|
      ensures Before(mine[j], mine[k], ProposalCreatedAt, ProposalRank(rank))
    {
      assert Before(all[from[j]], all[from[k]], ProposalCreatedAt, ProposalRank(rank));
    }
  }

  /** A signed-in approver sees the requests addressed to them and no others; anyone else a landing page. */
  method HandleHome(c: Config, store: S.Store, session: Option<string>) returns (page: Page, ghost ps: seq<Proposal>)
    requires store.Valid()
    modifies store
    ensures store.Valid() && store.Contents() == old(store.Contents()) && old(store.clock) <= store.clock
    ensures page.Approvals? <==> c.authEnabled && session.Some? && session.value != ""
    ensures page.Approvals? ==>
            IsListing(ps, store.proposals, store.rank, session.value) && page.rows == Rows(ps, store.clock)
    ensures page.Approvals? ==>
              && (forall p :: p in ps <==> p in store.proposals.Values && p.approverEmail == session.value)
              && |page.rows| == |ps|
              && forall i, j :: 0 <= i < j < |ps| ==>
                   || ps[i].createdAt > ps[j].createdAt
                   || (ps[i].createdAt == ps[j].createdAt && store.rank(ps[i].id) < store.rank(ps[j].id))
    ensures page.Approvals? ==>
              forall i :: 0 <= i < |ps| ==>
                page.rows[i].status ==
                if ps[i].status == Pending && store.clock >= ps[i].expiresAt then Expired else ps[i].status
    ensures page.Landing? ==> page.signIn == c.authEnabled
  {
    ps := [];
    if c.authEnabled && session.Some? && session.value != "" {
      var all := store.AllProposals();
      var mine := Mine(all, store.rank, session.value);
      ps := mine;
      S.ProposalsInOrder(mine, store.rank);
      var now := store.Now();
      var rows := BuildActivity(now, mine);
      return Approvals(rows), ps;
    }
    page := Landing(c.authEnabled);
  }

  // ---------- The page does not show whether the janitor ran ----------

  function AllEffective(ps: seq<Proposal>, now: Time): seq<Proposal>
  {
    seq(|ps|, i requires 0 <= i < |ps| => Effective(ps[i], now))
  }

  lemma RowsAfterPurge(ps: seq<Proposal>, at: Time, now: Time)
    requires at <= now
    ensures Rows(AllEffective(ps, at), now) == Rows(ps, now)
  {
  }

  lemma ListingAfterPurge(ps: seq<Proposal>, proposals: map<Id, Proposal>, rank: Rank, email: string, at: Time)
    requires IsListing(ps, proposals, rank, email)
    ensures IsListing(AllEffective(ps, at), EffectiveAll(proposals, at), rank, email)
  {
    ListingMembers(ps, proposals, email, at);
    var qs := AllEffective(ps, at);
    forall i, j | 0 <= i < j < |qs|
      ensures Before(qs[i], qs[j], ProposalCreatedAt, ProposalRank(rank))
    {
      assert Before(ps[i], ps[j], ProposalCreatedAt, ProposalRank(rank));
    }
  }

  lemma ListingMembers(ps: seq<Proposal>, proposals: map<Id, Proposal>, email: string, at: Time)
    requires forall p :: p in ps <==> exists k :: k in proposals && p == proposals[k] && p.approverEmail == email
    ensures forall q :: q in AllEffective(ps, at) <==>
              exists k :: k in EffectiveAll(proposals, at) && q == EffectiveAll(proposals, at)[k]
                  && q.approverEmail == email
  {
    var qs, after := AllEffective(ps, at), EffectiveAll(proposals, at);
    forall q
      ensures q in qs <==> exists k :: k in after && q == after[k] && q.approverEmail == email
    {
      if q in qs {
        var i :| 0 <= i < |qs| && qs[i] == q;
        assert ps[i] in ps;
        var k :| k in proposals && ps[i] == proposals[k] && ps[i].approverEmail == email;
        assert k in after && q == after[k];
      }
      if k :| k in after && q == after[k] && q.approverEmail == email {
        assert proposals[k] in ps;
        var i :| 0 <= i < |ps| && ps[i] == proposals[k];
        assert qs[i] == q;
      }
    }
  }

  /** The history shown is the same, row by row, whether or not the janitor ran before. */
  lemma HistoryIgnoresJanitor(st: State, rank: Rank, email: string, at: Time, now: Time, ps: seq<Proposal>,
                              qs: seq<Proposal>)
    requires at <= now && IsListing(ps, st.proposals, rank, email)
             && IsListing(qs, Purged(st, at).proposals, rank, email)
    ensures Rows(ps, now) == Rows(qs, now)
  {
    ListingAfterPurge(ps, st.proposals, rank, email, at);
    SameListing(AllEffective(ps, at), qs, Purged(st, at).proposals, rank, email);
    RowsAfterPurge(ps, at, now);
  }

  lemma SameListing(ps: seq<Proposal>, qs: seq<Proposal>, proposals: map<Id, Proposal>, rank: Rank, email: string)
    requires IsListing(ps, proposals, rank, email) && IsListing(qs, proposals, rank, email)
    ensures ps == qs
  {
    forall p
      ensures p in ps <==> p in qs
    {
    }
    ListingUnique(ps, qs, ProposalCreatedAt, ProposalRank(rank));
  }
}
