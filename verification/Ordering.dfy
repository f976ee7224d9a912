/** The stable newest-first sort of the store's listings. */
module Ordering {
  import opened Basics

  predicate NewestFirst<T>(s: seq<T>, created: T -> int)
  {
    forall i, j :: 0 <= i < j < |s| ==> created(s[i]) >= created(s[j])
  }

  predicate Distinct<T>(s: seq<T>, key: T -> nat)
  {
    forall i, j :: 0 <= i < j < |s| ==> key(s[i]) != key(s[j])
  }

  /** Newest first, and by key among those created at the same moment. */
  predicate Before<T>(x: T, y: T, created: T -> int, rank: T -> int)
  {
    created(x) > created(y) || (created(x) == created(y) && rank(x) < rank(y))
  }

  predicate Listing<T>(s: seq<T>, created: T -> int, rank: T -> int)
  {
    forall i, j :: 0 <= i < j < |s| ==> Before(s[i], s[j], created, rank)
  }

  /** In key order, as a bucket is scanned. */
  predicate Ascending<T>(s: seq<T>, rank: T -> int)
  {
    forall i, j :: 0 <= i < j < |s| ==> rank(s[i]) < rank(s[j])
  }

  ghost predicate SameMembers<T(!new)>(s: seq<T>, t: seq<T>)
  {
    forall y :: y in s <==> y in t
  }

  /** The elements created at one moment, in order. */
  function CreatedAt<T>(s: seq<T>, created: T -> int, t: int): seq<T>
  {
    if s == [] then []
    else if created(s[0]) == t then [s[0]] + CreatedAt(s[1..], created, t)
    else CreatedAt(s[1..], created, t)
  }

  function Insert<T>(x: T, s: seq<T>, created: T -> int): seq<T>
  {
    if s == [] || created(x) >= created(s[0]) then [x] + s else [s[0]] + Insert(x, s[1..], created)
  }

  function Sort<T>(s: seq<T>, created: T -> int): seq<T>
  {
    if s == [] then [] else Insert(s[0], Sort(s[1..], created), created)
  }

  lemma {:induction false} InsertMembers<T(!new)>(x: T, s: seq<T>, created: T -> int)
    ensures SameMembers(Insert(x, s, created), [x] + s)
  {
    if s != [] && created(x) < created(s[0]) {
      InsertMembers(x, s[1..], created);
    }
  }

  lemma HeadIsNewest<T>(x: T, s: seq<T>, created: T -> int)
    ensures NewestFirst([x] + s, created)
            <==> NewestFirst(s, created) && forall y :: y in s ==> created(x) >= created(y)
  {
    var all := [x] + s;
    if NewestFirst(all, created) {
      forall i, j | 0 <= i < j < |s|
        ensures created(s[i]) >= created(s[j])
      {
        assert s[i] == all[i + 1] && s[j] == all[j + 1];
      }
      forall y | y in s
        ensures created(x) >= created(y)
      {
        var k :| 0 <= k < |s| && s[k] == y;
        assert all[0] == x && all[k + 1] == y;
      }
    }
  }

  lemma {:induction false} InsertOrdered<T(!new)>(x: T, s: seq<T>, created: T -> int)
    requires NewestFirst(s, created)
    ensures NewestFirst(Insert(x, s, created), created)
  {
    if s != [] {
      assert [s[0]] + s[1..] == s;
      HeadIsNewest(s[0], s[1..], created);
      HeadIsNewest(x, s, created);
      if created(x) < created(s[0]) {
        InsertOrdered(x, s[1..], created);
        InsertMembers(x, s[1..], created);
        HeadIsNewest(s[0], Insert(x, s[1..], created), created);
      }
    }
  }

  lemma {:induction false} InsertStable<T>(x: T, s: seq<T>, created: T -> int, t: int)
    ensures CreatedAt(Insert(x, s, created), created, t) == CreatedAt([x] + s, created, t)
  {
    assert ([x] + s)[1..] == s;
    if s != [] && created(x) < created(s[0]) {
      var rest := Insert(x, s[1..], created);
      assert ([s[0]] + rest)[1..] == rest;
      assert ([x] + s[1..])[1..] == s[1..];
      InsertStable(x, s[1..], created, t);
    }
  }

  /** The sort orders its input newest first and keeps its elements. */
  lemma {:induction false} SortOrders<T(!new)>(s: seq<T>, created: T -> int)
    ensures NewestFirst(Sort(s, created), created)
    ensures SameMembers(Sort(s, created), s)
  {
    if s != [] {
      SortOrders(s[1..], created);
      InsertOrdered(s[0], Sort(s[1..], created), created);
      InsertMembers(s[0], Sort(s[1..], created), created);
    }
  }

  /** Elements of one moment stay in the order they came in. */
  lemma {:induction false} SortIsStable<T>(s: seq<T>, created: T -> int, t: int)
    ensures CreatedAt(Sort(s, created), created, t) == CreatedAt(s, created, t)
  {
    if s != [] {
      var rest := Sort(s[1..], created);
      SortIsStable(s[1..], created, t);
      InsertStable(s[0], rest, created, t);
      assert ([s[0]] + rest)[1..] == rest;
    }
  }

  // ---------- Listings ----------

  lemma HeadIsFirst<T>(x: T, s: seq<T>, created: T -> int, rank: T -> int)
    ensures Listing([x] + s, created, rank)
            <==> Listing(s, created, rank) && forall y :: y in s ==> Before(x, y, created, rank)
  {
    var all := [x] + s;
    if Listing(all, created, rank) {
      forall i, j | 0 <= i < j < |s|
        ensures Before(s[i], s[j], created, rank)
      {
        assert s[i] == all[i + 1] && s[j] == all[j + 1];
      }
      forall y | y in s
        ensures Before(x, y, created, rank)
      {
        var k :| 0 <= k < |s| && s[k] == y;
        assert all[0] == x && all[k + 1] == y;
      }
    }
  }

  lemma ListingOnce<T>(s: seq<T>, created: T -> int, rank: T -> int)
    requires Listing(s, created, rank)
    ensures NewestFirst(s, created) && NoDuplicates(s)
  {
    forall i, j | 0 <= i < j < |s|
      ensures created(s[i]) >= created(s[j]) && s[i] != s[j]
    {
      assert Before(s[i], s[j], created, rank);
    }
  }

  lemma HeadIsLeast<T>(s: seq<T>, rank: T -> int)
    requires s != [] && Ascending(s, rank)
    ensures Ascending(s[1..], rank) && forall y :: y in s[1..] ==> rank(s[0]) < rank(y)
  {
    forall y | y in s[1..]
      ensures rank(s[0]) < rank(y)
    {
      var k :| 0 <= k < |s[1..]| && s[1..][k] == y;
      assert s[k + 1] == y;
    }
  }

  lemma {:induction false} InsertInListing<T(!new)>(x: T, s: seq<T>, created: T -> int, rank: T -> int)
    requires Listing(s, created, rank) && forall y :: y in s ==> rank(x) < rank(y)
    ensures Listing(Insert(x, s, created), created, rank)
  {
    HeadIsFirst(x, s, created, rank);
    if s != [] {
      assert [s[0]] + s[1..] == s;
      HeadIsFirst(s[0], s[1..], created, rank);
      if created(x) < created(s[0]) {
        InsertInListing(x, s[1..], created, rank);
        InsertMembers(x, s[1..], created);
        HeadIsFirst(s[0], Insert(x, s[1..], created), created, rank);
      } else {
        assert forall y :: y in s ==> created(s[0]) >= created(y);
      }
    }
  }

  /** The stable sort of a scan in key order is the listing. */
  lemma {:induction false} SortOfScan<T(!new)>(s: seq<T>, created: T -> int, rank: T -> int)
    requires Ascending(s, rank)
    ensures Listing(Sort(s, created), created, rank)
  {
    if s != [] {
      HeadIsLeast(s, rank);
      SortOfScan(s[1..], created, rank);
      SortOrders(s[1..], created);
      InsertInListing(s[0], Sort(s[1..], created), created, rank);
    }
  }

  /** Two listings of the same records are the same list. */
  lemma {:induction false} ListingUnique<T(!new)>(s: seq<T>, t: seq<T>, created: T -> int, rank: T -> int)
    requires Listing(s, created, rank) && Listing(t, created, rank) && SameMembers(s, t)
    ensures s == t
  {
    EmptyTogether(s, t);
    if s != [] {
      assert [s[0]] + s[1..] == s && [t[0]] + t[1..] == t;
      HeadIsFirst(s[0], s[1..], created, rank);
      HeadIsFirst(t[0], t[1..], created, rank);
      assert s[0] in t && t[0] in s;
      assert s[0] == t[0];
      TailsTogether(s[0], s[1..], t[1..], created, rank);
      ListingUnique(s[1..], t[1..], created, rank);
    }
  }

  lemma EmptyTogether<T(!new)>(s: seq<T>, t: seq<T>)
    requires SameMembers(s, t)
    ensures s == [] <==> t == []
  {
    assert s != [] ==> s[0] in t;
    assert t != [] ==> t[0] in s;
  }

  lemma TailsTogether<T(!new)>(x: T, s: seq<T>, t: seq<T>, created: T -> int, rank: T -> int)
    requires SameMembers([x] + s, [x] + t)
    requires (forall y :: y in s ==> Before(x, y, created, rank)) && forall y :: y in t ==> Before(x, y, created, rank)
    ensures SameMembers(s, t)
  {
    forall y
      ensures y in s <==> y in t
    {
      assert y in [x] + s <==> y == x || y in s;
      assert y in [x] + t <==> y == x || y in t;
    }
  }
}
