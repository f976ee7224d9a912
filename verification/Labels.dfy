/** Merging label or assignee lists when an issue is edited. */
module Labels {
  import opened Basics

  function SetOf(xs: seq<string>): set<string> { set x | x in xs }

  /** The first occurrence of every element that is not to be skipped, in order. */
  function Dedup(xs: seq<string>, skip: set<string>): seq<string>
  {
    if xs == [] then []
    else
      var before, last := Dedup(xs[..|xs| - 1], skip), xs[|xs| - 1];
      if last in skip || last in before then before else before + [last]
  }

  function Survivors(current: seq<string>, remove: seq<string>): seq<string>
  {
    Dedup(current, SetOf(remove))
  }

  function Additions(current: seq<string>, add: seq<string>, remove: seq<string>): seq<string>
  {
    Dedup(add, SetOf(Survivors(current, remove)))
  }

  /** The surviving values, then the additions not among them. */
  function Merged(current: seq<string>, add: seq<string>, remove: seq<string>): seq<string>
  {
    Survivors(current, remove) + Additions(current, add, remove)
  }

  method ApplyAddRemove(current: seq<string>, add: seq<string>, remove: seq<string>) returns (result: seq<string>)
    ensures result == Merged(current, add, remove)
    ensures NoDuplicates(result) && forall x :: x in result <==> (x in current && x !in remove) || x in add
    ensures forall i, j :: 0 <= i < j < |result| ==> InOrder(current, add, remove, result[i], result[j])
  {
    result := MergeLists(current, add, remove);
    MergedIs(current, add, remove);
    forall x
      ensures x in result <==> (x in current && x !in remove) || x in add
    {
      assert x in SetOf(result) <==> x in (SetOf(current) - SetOf(remove)) + SetOf(add);
    }
    forall i, j | 0 <= i < j < |result|
      ensures InOrder(current, add, remove, result[i], result[j])
    {
      MergedInOrder(current, add, remove, i, j);
    }
  }

  /** Survivors come first, in the order of the current list; additions follow, in the order they are given. */
  ghost predicate InOrder(current: seq<string>, add: seq<string>, remove: seq<string>, x: string, y: string)
  {
    if y in current && y !in remove then
      x in current && x !in remove && exists k :: 0 <= k < |current| && current[k] == x && y !in current[..k]
    else
      (x in current && x !in remove) || exists k :: 0 <= k < |add| && add[k] == x && y !in add[..k]
  }

  lemma MergedInOrder(current: seq<string>, add: seq<string>, remove: seq<string>, i: nat, j: nat)
    requires i < j < |Merged(current, add, remove)|
    ensures InOrder(current, add, remove, Merged(current, add, remove)[i], Merged(current, add, remove)[j])
  {
    var survivors, additions := Survivors(current, remove), Additions(current, add, remove);
    var x, y := Merged(current, add, remove)[i], Merged(current, add, remove)[j];
    DedupIs(current, SetOf(remove));
    DedupIs(add, SetOf(survivors));
    assert forall z :: z in SetOf(survivors) <==> z in current && z !in remove;
    if j < |survivors| {
      assert x == survivors[i] && y == survivors[j] && x in SetOf(survivors) && y in SetOf(survivors);
      EarlierInDedup(current, SetOf(remove), i, j);
    } else {
      assert y == additions[j - |survivors|] && y in SetOf(additions);
      if i < |survivors| {
        assert x == survivors[i] && x in SetOf(survivors);
      } else {
        EarlierInDedup(add, SetOf(survivors), i - |survivors|, j - |survivors|);
      }
    }
  }

  lemma EarlierInDedup(xs: seq<string>, skip: set<string>, i: nat, j: nat)
    requires i < j < |Dedup(xs, skip)|
    ensures exists k :: 0 <= k < |xs| && xs[k] == Dedup(xs, skip)[i] && Dedup(xs, skip)[j] !in xs[..k]
  {
    var x, y := Dedup(xs, skip)[i], Dedup(xs, skip)[j];
    DedupKeepsOrder(xs, skip);
    DedupIs(xs, skip);
    assert x in SetOf(Dedup(xs, skip)) && y in SetOf(Dedup(xs, skip));
    FirstIndexIsFirst(xs, x);
    FirstIndexIsFirst(xs, y);
    var k := FirstIndex(xs, x);
    PrefixGrows(xs, k, FirstIndex(xs, y));
  }

  lemma PrefixGrows(xs: seq<string>, k: nat, l: nat)
    requires k <= l <= |xs|
    ensures forall y :: y in xs[..k] ==> y in xs[..l]
  {
    assert xs[..k] == xs[..l][..k];
  }

  lemma {:induction false} FirstIndexIsFirst(xs: seq<string>, x: string)
    requires x in xs
    ensures FirstIndex(xs, x) < |xs| && xs[FirstIndex(xs, x)] == x && x !in xs[..FirstIndex(xs, x)]
  {
    if xs[0] != x {
      assert xs == [xs[0]] + xs[1..];
      FirstIndexIsFirst(xs[1..], x);
      assert xs[..FirstIndex(xs, x)] == [xs[0]] + xs[1..][..FirstIndex(xs[1..], x)];
    }
  }

  method MergeLists(current: seq<string>, add: seq<string>, remove: seq<string>) returns (result: seq<string>)
    ensures result == Merged(current, add, remove)
  {
    var removeSet: set<string> := {};
    for i := 0 to |remove|
      invariant removeSet == SetOf(remove[..i])
    {
      assert remove[..i + 1] == remove[..i] + [remove[i]];
      removeSet := removeSet + {remove[i]};
    }
    assert remove[..|remove|] == remove;
    var seen: set<string> := {};
    result := [];
    for i := 0 to |current|
      invariant result == Dedup(current[..i], removeSet) && seen == SetOf(result)
    {
      assert current[..i + 1][..i] == current[..i];
      var c := current[i];
      if c in removeSet || c in seen {
        continue;
      }
      seen := seen + {c};
      result := result + [c];
    }
    assert current[..|current|] == current;
    ghost var survivors := result;
    for i := 0 to |add|
      invariant result == survivors + Dedup(add[..i], SetOf(survivors)) && seen == SetOf(result)
    {
      assert add[..i + 1][..i] == add[..i];
      var a := add[i];
      if a in seen {
        continue;
      }
      seen := seen + {a};
      result := result + [a];
    }
    assert add[..|add|] == add;
  }

  // ---------- What the merge is ----------

  lemma {:induction false} DedupIs(xs: seq<string>, skip: set<string>)
    ensures NoDuplicates(Dedup(xs, skip)) && SetOf(Dedup(xs, skip)) == SetOf(xs) - skip
  {
    if xs != [] {
      var init, last := xs[..|xs| - 1], xs[|xs| - 1];
      DedupIs(init, skip);
      assert xs == init + [last];
      assert SetOf(xs) == SetOf(init) + {last};
      assert forall x :: x in SetOf(Dedup(init, skip)) <==> x in Dedup(init, skip);
    }
  }

  /** Duplicate-free, and as a set exactly (current minus remove) plus add. */
  lemma MergedIs(current: seq<string>, add: seq<string>, remove: seq<string>)
    ensures NoDuplicates(Merged(current, add, remove))
    ensures SetOf(Merged(current, add, remove)) == (SetOf(current) - SetOf(remove)) + SetOf(add)
  {
    var survivors := Survivors(current, remove);
    DedupIs(current, SetOf(remove));
    DedupIs(add, SetOf(survivors));
    var additions := Additions(current, add, remove);
    assert SetOf(survivors + additions) == SetOf(survivors) + SetOf(additions);
    forall i, j | 0 <= i < |survivors| && 0 <= j < |additions|
      ensures survivors[i] != additions[j]
    {
      assert survivors[i] in SetOf(survivors) && additions[j] in SetOf(additions);
    }
  }

  /** Where a value first occurs; the length when it does not. */
  function FirstIndex(xs: seq<string>, x: string): nat
  {
    if xs == [] then 0 else if xs[0] == x then 0 else 1 + FirstIndex(xs[1..], x)
  }

  lemma {:induction false} FirstIndexOf(xs: seq<string>, x: string)
    ensures FirstIndex(xs, x) <= |xs| && (x in xs <==> FirstIndex(xs, x) < |xs|)
  {
    if xs != [] && xs[0] != x {
      FirstIndexOf(xs[1..], x);
      assert xs == [xs[0]] + xs[1..];
    }
  }

  lemma {:induction false} FirstIndexExtends(xs: seq<string>, y: string, x: string)
    ensures FirstIndex(xs + [y], x) == if x in xs then FirstIndex(xs, x) else if x == y then |xs| else |xs| + 1
  {
    if xs == [] {
      assert xs + [y] == [y];
    } else {
      assert (xs + [y])[1..] == xs[1..] + [y];
      assert xs == [xs[0]] + xs[1..];
      FirstIndexExtends(xs[1..], y, x);
    }
  }

  /** Kept values appear in the order of their first occurrences. */
  lemma {:induction false} DedupKeepsOrder(xs: seq<string>, skip: set<string>)
    ensures forall i, j :: 0 <= i < j < |Dedup(xs, skip)| ==>
              FirstIndex(xs, Dedup(xs, skip)[i]) < FirstIndex(xs, Dedup(xs, skip)[j])
  {
    if xs != [] {
      var init, last := xs[..|xs| - 1], xs[|xs| - 1];
      assert xs == init + [last];
      DedupKeepsOrder(init, skip);
      DedupIs(init, skip);
      forall x | x in Dedup(xs, skip)
        ensures FirstIndex(xs, x) == if x in init then FirstIndex(init, x) else |init|
        ensures x in Dedup(init, skip) ==> x in init && FirstIndex(init, x) < |init|
        ensures x == last && last !in Dedup(init, skip) ==> x !in init
      {
        FirstIndexExtends(init, last, x);
        FirstIndexOf(init, x);
        assert x in SetOf(Dedup(init, skip)) <==> x in SetOf(init) - skip;
        assert x in SetOf(xs);
        DedupIs(xs, skip);
        assert x in SetOf(Dedup(xs, skip));
      }
    }
  }

  lemma {:induction false} DedupOfClean(xs: seq<string>, skip: set<string>)
    requires NoDuplicates(xs) && SetOf(xs) !! skip
    ensures Dedup(xs, skip) == xs
  {
    if xs != [] {
      var init, last := xs[..|xs| - 1], xs[|xs| - 1];
      assert xs == init + [last];
      assert last in SetOf(xs);
      assert SetOf(init) <= SetOf(xs);
      DedupOfClean(init, skip);
    }
  }

  /** The elements of `xs` inside, or outside, a set, in order. */
  function Filter(xs: seq<string>, s: set<string>, inside: bool): seq<string>
  {
    if xs == [] then []
    else Filter(xs[..|xs| - 1], s, inside) + if (xs[|xs| - 1] in s) == inside then [xs[|xs| - 1]] else []
  }

  lemma {:induction false} FilterIs(xs: seq<string>, s: set<string>, inside: bool)
    ensures forall x :: x in Filter(xs, s, inside) <==> x in xs && (x in s) == inside
  {
    if xs != [] {
      FilterIs(xs[..|xs| - 1], s, inside);
      assert xs == xs[..|xs| - 1] + [xs[|xs| - 1]];
    }
  }

  /** Removing values from a duplicate-free list just drops them. */
  lemma {:induction false} DedupOfDistinct(a: seq<string>, b: seq<string>, skip: set<string>)
    requires NoDuplicates(a + b) && SetOf(a) !! skip
    ensures Dedup(a + b, skip) == a + Filter(b, skip, false)
  {
    if b == [] {
      assert a + b == a;
      DedupOfClean(a, skip);
    } else {
      var init, last := b[..|b| - 1], b[|b| - 1];
      var all := a + b;
      assert all[..|all| - 1] == a + init && all == (a + init) + [last];
      assert all[|all| - 1] == last;
      assert forall i :: 0 <= i < |a + init| ==> all[i] == (a + init)[i] && all[i] != last;
      assert last !in a + init;
      DedupOfDistinct(a, init, skip);
      FilterIs(init, skip, false);
    }
  }

  /** Deduplicating while also skipping part of what would be kept leaves the rest of it. */
  lemma {:induction false} DedupSkippingMore(xs: seq<string>, skip: set<string>, more: set<string>)
    ensures Dedup(xs, skip + more) == Filter(Dedup(xs, skip), more, false)
  {
    if xs != [] {
      var init, last := xs[..|xs| - 1], xs[|xs| - 1];
      DedupSkippingMore(init, skip, more);
      var before := Dedup(init, skip);
      FilterIs(before, more, false);
      assert (before + [last])[..|before|] == before;
    }
  }

  lemma {:induction false} FilterSame(xs: seq<string>, s: set<string>, a: bool, s': set<string>, a': bool)
    requires forall x :: x in xs ==> ((x in s) == a <==> (x in s') == a')
    ensures Filter(xs, s, a) == Filter(xs, s', a')
  {
    if xs != [] {
      assert xs == xs[..|xs| - 1] + [xs[|xs| - 1]];
      FilterSame(xs[..|xs| - 1], s, a, s', a');
    }
  }

  /** Repeating an edit keeps the survivors and moves the additions that are also removed to the end. */
  lemma MergedTwice(current: seq<string>, add: seq<string>, remove: seq<string>)
    ensures var additions := Additions(current, add, remove);
            Merged(Merged(current, add, remove), add, remove) ==
            Survivors(current, remove)
            + Filter(additions, SetOf(remove), false) + Filter(additions, SetOf(remove), true)
  {
    var survivors, additions := Survivors(current, remove), Additions(current, add, remove);
    var kept := Filter(additions, SetOf(remove), false);
    MergedIs(current, add, remove);
    DedupIs(current, SetOf(remove));
    DedupOfDistinct(survivors, additions, SetOf(remove));
    assert SetOf(survivors + kept) == SetOf(survivors) + SetOf(kept);
    DedupSkippingMore(add, SetOf(survivors), SetOf(kept));
    FilterIs(additions, SetOf(remove), false);
    FilterSame(additions, SetOf(kept), false, SetOf(remove), true);
  }

  /** No removed value stands before one that is not removed. */
  ghost predicate RemovedLast(xs: seq<string>, removed: set<string>)
  {
    forall i, j :: 0 <= i < j < |xs| && xs[i] in removed ==> xs[j] in removed
  }

  lemma {:induction false} PartitionIsIdentity(xs: seq<string>, s: set<string>)
    ensures Filter(xs, s, false) + Filter(xs, s, true) == xs <==> RemovedLast(xs, s)
  {
    FilterIs(xs, s, false);
    FilterIs(xs, s, true);
    var outs, ins := Filter(xs, s, false), Filter(xs, s, true);
    if outs + ins == xs {
      assert forall k :: 0 <= k < |xs| ==> xs[k] == if k < |outs| then outs[k] else ins[k - |outs|];
      assert forall k :: 0 <= k < |xs| ==> (xs[k] in s <==> k >= |outs|);
    }
    if RemovedLast(xs, s) {
      PartitionOfSplit(xs, s);
    }
  }

  lemma {:induction false} PartitionOfSplit(xs: seq<string>, s: set<string>)
    requires RemovedLast(xs, s)
    ensures Filter(xs, s, false) + Filter(xs, s, true) == xs
  {
    if xs != [] {
      var init, last := xs[..|xs| - 1], xs[|xs| - 1];
      assert xs == init + [last];
      PartitionOfSplit(init, s);
      if last !in s {
        NothingRemovedBefore(xs, s);
        FilterNone(init, s);
      }
    }
  }

  lemma NothingRemovedBefore(xs: seq<string>, s: set<string>)
    requires RemovedLast(xs, s) && xs != [] && xs[|xs| - 1] !in s
    ensures forall k :: 0 <= k < |xs| - 1 ==> xs[k] !in s
  {
  }

  lemma {:induction false} FilterNone(xs: seq<string>, s: set<string>)
    requires forall k :: 0 <= k < |xs| ==> xs[k] !in s
    ensures Filter(xs, s, true) == []
  {
    if xs != [] {
      FilterNone(xs[..|xs| - 1], s);
    }
  }

  lemma AdditionsAreAdded(current: seq<string>, add: seq<string>, remove: seq<string>)
    ensures forall x :: x in Additions(current, add, remove) ==> x in SetOf(add)
  {
    DedupIs(add, SetOf(Survivors(current, remove)));
    forall x | x in Additions(current, add, remove)
      ensures x in SetOf(add)
    {
      assert x in SetOf(Additions(current, add, remove));
    }
  }

  lemma SameSuffix(a: seq<string>, b: seq<string>, c: seq<string>)
    ensures a + b == a + c <==> b == c
  {
    assert (a + b)[|a|..] == b && (a + c)[|a|..] == c;
  }

  /**
   Applying the same edit again changes nothing exactly when, among the additions, the values that
   are also removed come last; in particular when nothing is both added and removed.
   */
  lemma MergeIsIdempotent(current: seq<string>, add: seq<string>, remove: seq<string>)
    ensures Merged(Merged(current, add, remove), add, remove) == Merged(current, add, remove)
            <==> RemovedLast(Additions(current, add, remove), SetOf(remove))
    ensures SetOf(add) !! SetOf(remove) ==> RemovedLast(Additions(current, add, remove), SetOf(remove))
  {
    var survivors, additions := Survivors(current, remove), Additions(current, add, remove);
    var outs, ins := Filter(additions, SetOf(remove), false), Filter(additions, SetOf(remove), true);
    MergedTwice(current, add, remove);
    PartitionIsIdentity(additions, SetOf(remove));
    assert survivors + outs + ins == survivors + (outs + ins);
    SameSuffix(survivors, outs + ins, additions);
    AdditionsAreAdded(current, add, remove);
  }

  lemma DedupOne(x: string, skip: set<string>)
    ensures Dedup([x], skip) == if x in skip then [] else [x]
  {
    assert [x][..0] == [];
  }

  lemma DedupTwo(x: string, y: string, skip: set<string>)
    requires x != y
    ensures Dedup([x, y], skip) == (if x in skip then [] else [x]) + (if y in skip then [] else [y])
  {
    DedupOne(x, skip);
    assert [x, y][..1] == [x];
  }

  /** Adding two values of which the first is also removed: it moves to the end when the edit is repeated. */
  lemma OverlapBreaksIdempotence(x: string, y: string)
    requires x != y
    ensures Merged([], [x, y], [x]) == [x, y]
    ensures Merged([x, y], [x, y], [x]) == [y, x]
  {
    assert Survivors([], [x]) == [] && SetOf([]) == {};
    DedupTwo(x, y, {});
    assert SetOf([x]) == {x} && SetOf([y]) == {y};
    DedupTwo(x, y, {x});
    DedupTwo(x, y, {y});
    assert Survivors([x, y], [x]) == [y];
  }
}
