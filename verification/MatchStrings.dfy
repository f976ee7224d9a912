/** The client's textual form of a resource match: printing it and reading it back. */
module MatchStrings {
  import opened Basics
  import opened Strings

  // ---------- Reading ----------

  /** One comma-separated part: its key and value, or nothing for a blank part or one without `=`. */
  function PartOf(part: string): Option<(string, string)>
  {
    match Cut(TrimSpace(part), '=')
    case None => None
    case Some((k, v)) => Some((TrimSpace(k), TrimSpace(v)))
  }

  function PartsToMap(parts: seq<string>): map<string, string>
  {
    if parts == [] then map[]
    else
      var before := PartsToMap(parts[..|parts| - 1]);
      match PartOf(parts[|parts| - 1])
      case None => before
      case Some((k, v)) => before[k := v]
  }

  function Parsed(s: string): map<string, string> { PartsToMap(Split(s, ',')) }

  method ParseMatch(s: string) returns (out: map<string, string>)
    ensures out == Parsed(s)
    ensures EntriesOf(Split(s, ','), out)
  {
    out := ReadParts(s);
    PartsInOrder(Split(s, ','));
  }

  /** No later part gives the same key again. */
  ghost predicate LastOfKey(parts: seq<string>, i: nat)
    requires i < |parts| && Cut(TrimSpace(parts[i]), '=').Some?
  {
    forall j :: i < j < |parts| && Cut(TrimSpace(parts[j]), '=').Some? ==>
      TrimSpace(Cut(TrimSpace(parts[j]), '=').value.0) != TrimSpace(Cut(TrimSpace(parts[i]), '=').value.0)
  }

  /** The map holds what the parts say: the last part of a key gives its value, and every key is some part's. */
  ghost predicate EntriesOf(parts: seq<string>, out: map<string, string>)
  {
    && (forall i :: 0 <= i < |parts| && Cut(TrimSpace(parts[i]), '=').Some? && LastOfKey(parts, i) ==>
          && TrimSpace(Cut(TrimSpace(parts[i]), '=').value.0) in out
          && out[TrimSpace(Cut(TrimSpace(parts[i]), '=').value.0)] == TrimSpace(Cut(TrimSpace(parts[i]), '=').value.1))
    && (forall key :: key in out ==>
          exists i :: 0 <= i < |parts| && Cut(TrimSpace(parts[i]), '=').Some?
                      && TrimSpace(Cut(TrimSpace(parts[i]), '=').value.0) == key)
  }

  lemma PartsInOrder(parts: seq<string>)
    ensures EntriesOf(parts, PartsToMap(parts))
  {
    forall i | 0 <= i < |parts| && Cut(TrimSpace(parts[i]), '=').Some? && LastOfKey(parts, i)
      ensures TrimSpace(Cut(TrimSpace(parts[i]), '=').value.0) in PartsToMap(parts)
      ensures PartsToMap(parts)[TrimSpace(Cut(TrimSpace(parts[i]), '=').value.0)]
              == TrimSpace(Cut(TrimSpace(parts[i]), '=').value.1)
    {
      LastPartCounts(parts, i);
    }
    forall key | key in PartsToMap(parts)
      ensures exists i :: 0 <= i < |parts| && Cut(TrimSpace(parts[i]), '=').Some?
                          && TrimSpace(Cut(TrimSpace(parts[i]), '=').value.0) == key
    {
      KeyIsOfPart(parts, key);
    }
  }

  lemma {:induction false} LastPartCounts(parts: seq<string>, i: nat)
    requires i < |parts| && Cut(TrimSpace(parts[i]), '=').Some? && LastOfKey(parts, i)
    ensures TrimSpace(Cut(TrimSpace(parts[i]), '=').value.0) in PartsToMap(parts)
    ensures PartsToMap(parts)[TrimSpace(Cut(TrimSpace(parts[i]), '=').value.0)]
            == TrimSpace(Cut(TrimSpace(parts[i]), '=').value.1)
  {
    if i < |parts| - 1 {
      assert LastOfKey(parts[..|parts| - 1], i);
      LastPartCounts(parts[..|parts| - 1], i);
    }
  }

  lemma {:induction false} KeyIsOfPart(parts: seq<string>, key: string)
    requires key in PartsToMap(parts)
    ensures exists i :: 0 <= i < |parts| && Cut(TrimSpace(parts[i]), '=').Some?
                        && TrimSpace(Cut(TrimSpace(parts[i]), '=').value.0) == key
  {
    if key in PartsToMap(parts[..|parts| - 1]) {
      KeyIsOfPart(parts[..|parts| - 1], key);
    }
  }

  method ReadParts(s: string) returns (out: map<string, string>)
    ensures out == Parsed(s)
  {
    out := map[];
    var parts := Split(s, ',');
    for i := 0 to |parts|
      invariant out == PartsToMap(parts[..i])
    {
      assert parts[..i + 1][..i] == parts[..i];
      var part := TrimSpace(parts[i]);
      if part == "" {
        continue;
      }
      var cut := Cut(part, '=');
      if cut.Some? {
        out := out[TrimSpace(cut.value.0) := TrimSpace(cut.value.1)];
      }
    }
    assert parts[..|parts|] == parts;
  }

  // ---------- Printing ----------

  function Parts(keys: seq<string>, m: map<string, string>): seq<string>
    requires forall k :: k in keys ==> k in m
  {
    seq(|keys|, i requires 0 <= i < |keys| => keys[i] + "=" + m[keys[i]])
  }

  /** All keys, each once, in dictionary order. */
  ghost predicate IsListingOf(keys: seq<string>, m: map<string, string>)
  {
    NoDuplicates(keys) && Sorted(keys) && forall k :: k in keys <==> k in m
  }

  /** Every key with its value after an equals sign, commas between the entries. */
  function JoinedEntries(keys: seq<string>, m: map<string, string>): string
    requires forall k :: k in keys ==> k in m
  {
    Join(seq(|keys|, i requires 0 <= i < |keys| => keys[i] + "=" + m[keys[i]]), ',')
  }

  /** The text printed when the map's keys are met in the given order. */
  ghost function Printed(order: seq<string>, m: map<string, string>): string
    requires IterationOrder(order, m)
  {
    SortKeeps(order);
    Join(Parts(Sort(order), m), ',')
  }

  lemma SortKeeps(xs: seq<string>)
    ensures forall x :: x in Sort(xs) <==> x in xs
  {
    SortSorts(xs);
    forall x
      ensures x in Sort(xs) <==> x in xs
    {
      assert x in multiset(Sort(xs)) <==> x in multiset(xs);
    }
  }

  /** Two iterations over one map meet the same keys, so sorting makes them equal. */
  lemma PrintedIgnoresOrder(order: seq<string>, order': seq<string>, m: map<string, string>)
    requires IterationOrder(order, m) && IterationOrder(order', m)
    ensures Printed(order, m) == Printed(order', m)
  {
    DistinctByCount(order);
    DistinctByCount(order');
    forall x
      ensures multiset(order)[x] == multiset(order')[x]
    {
      assert x in multiset(order) <==> x in order;
      assert x in multiset(order') <==> x in order';
    }
    assert multiset(order) == multiset(order');
    SortIgnoresOrder(order, order');
  }

  method FormatMatch(m: map<string, string>) returns (s: string)
    ensures exists order :: IterationOrder(order, m) && s == Printed(order, m)
    ensures forall order :: IterationOrder(order, m) ==> s == Printed(order, m)
    ensures exists keys: seq<string> :: IsListingOf(keys, m) && s == JoinedEntries(keys, m)
  {
    var keys: seq<string> := [];
    var todo := m.Keys;
    while todo != {}
      invariant todo <= m.Keys
      invariant forall k :: k in keys <==> k in m && k !in todo
      invariant NoDuplicates(keys)
      decreases todo
    {
      var k :| k in todo;
      todo := todo - {k};
      keys := keys + [k];
    }
    ghost var order := keys;
    SortKeeps(keys);
    keys := Sort(keys);
    var parts: seq<string> := [];
    for i := 0 to |keys|
      invariant |parts| == i
      invariant forall j :: 0 <= j < i ==> parts[j] == keys[j] + "=" + m[keys[j]]
    {
      parts := parts + [keys[i] + "=" + m[keys[i]]];
    }
    assert parts == Parts(keys, m);
    s := Join(parts, ',');
    assert IterationOrder(order, m) && s == Printed(order, m);
    SortedDistinct(order);
    SortSorts(order);
    assert IsListingOf(keys, m) && s == JoinedEntries(keys, m);
    forall other | IterationOrder(other, m)
      ensures s == Printed(other, m)
    {
      PrintedIgnoresOrder(order, other, m);
    }
  }

  // ---------- Round trip ----------

  predicate CleanEntry(k: string, v: string)
  {
    Trimmed(k) && Trimmed(v) && ',' !in k && ',' !in v && '=' !in k
  }

  lemma TrimmedStays(s: string)
    requires Trimmed(s)
    ensures TrimSpace(s) == s
  {
  }

  lemma PartOfEntry(k: string, v: string)
    requires CleanEntry(k, v)
    ensures PartOf(k + "=" + v) == Some((k, v)) && ',' !in k + "=" + v
  {
    var part := k + "=" + v;
    assert part[0] == (if k == "" then '=' else k[0]);
    assert part[|part| - 1] == (if v == "" then '=' else v[|v| - 1]);
    TrimmedStays(part);
    TrimmedStays(k);
    TrimmedStays(v);
    assert part == k + ['='] + v;
    CutAt(k, v, '=');
  }

  lemma PartsStep(keys: seq<string>, m: map<string, string>)
    requires keys != [] && forall k :: k in keys ==> k in m
    ensures var parts := Parts(keys, m);
            parts[..|parts| - 1] == Parts(keys[..|keys| - 1], m)
                && parts[|parts| - 1] == keys[|keys| - 1] + "=" + m[keys[|keys| - 1]]
  {
  }

  /** The entries of `m` under some of its keys. */
  function Restricted(keys: seq<string>, m: map<string, string>): map<string, string>
    requires forall k :: k in keys ==> k in m
  {
    map k | k in keys :: m[k]
  }

  lemma RestrictedStep(keys: seq<string>, m: map<string, string>)
    requires keys != [] && forall k :: k in keys ==> k in m
    ensures Restricted(keys, m) == Restricted(keys[..|keys| - 1], m)[keys[|keys| - 1] := m[keys[|keys| - 1]]]
  {
    assert keys == keys[..|keys| - 1] + [keys[|keys| - 1]];
  }

  lemma {:induction false} PartsReadBack(keys: seq<string>, m: map<string, string>)
    requires forall k :: k in keys ==> k in m && CleanEntry(k, m[k])
    ensures PartsToMap(Parts(keys, m)) == Restricted(keys, m)
  {
    if keys != [] {
      var init, last := keys[..|keys| - 1], keys[|keys| - 1];
      PartsReadBack(init, m);
      PartOfEntry(last, m[last]);
      PartsStep(keys, m);
      RestrictedStep(keys, m);
    }
  }

  lemma BlankReadsAsEmpty()
    ensures Parsed("") == map[]
  {
    assert Split("", ',') == [""];
    assert TrimSpace("") == "" && Cut("", '=') == None;
    assert [""][..0] == [];
  }

  lemma CleanMatchSurvives(m: map<string, string>, order: seq<string>)
    requires IterationOrder(order, m) && forall k :: k in m ==> CleanEntry(k, m[k])
    ensures Parsed(Printed(order, m)) == m
  {
    SortKeeps(order);
    var keys := Sort(order);
    var parts := Parts(keys, m);
    if keys == [] {
      assert m == map[] by {
        assert forall k :: k !in keys;
      }
      BlankReadsAsEmpty();
    } else {
      forall i | 0 <= i < |parts|
        ensures ',' !in parts[i]
      {
        PartOfEntry(keys[i], m[keys[i]]);
      }
      SplitJoin(parts, ',');
      PartsReadBack(keys, m);
    }
  }

  lemma {:induction false} TrimLeftTrims(s: string)
    ensures TrimLeft(s) != [] ==> !IsSpace(TrimLeft(s)[0])
    ensures forall c :: c in TrimLeft(s) ==> c in s
  {
    if s != [] && IsSpace(s[0]) {
      TrimLeftTrims(s[1..]);
    }
  }

  lemma {:induction false} TrimRightTrims(s: string)
    ensures TrimRight(s) != [] ==> !IsSpace(TrimRight(s)[|TrimRight(s)| - 1]) && TrimRight(s)[0] == s[0]
    ensures forall c :: c in TrimRight(s) ==> c in s
  {
    if s != [] && IsSpace(s[|s| - 1]) {
      TrimRightTrims(s[..|s| - 1]);
    }
  }

  lemma TrimSpaceTrims(s: string)
    ensures Trimmed(TrimSpace(s)) && forall c :: c in TrimSpace(s) ==> c in s
  {
    TrimLeftTrims(s);
    TrimRightTrims(TrimLeft(s));
  }

  lemma {:induction false} CutIsFirst(s: string, sep: char)
    ensures Cut(s, sep).Some? ==> sep !in Cut(s, sep).value.0
    ensures Cut(s, sep).Some? ==> forall c :: c in Cut(s, sep).value.0 || c in Cut(s, sep).value.1 ==> c in s
  {
    if s != [] && s[0] != sep {
      CutIsFirst(s[1..], sep);
    }
  }

  lemma PartIsClean(part: string)
    requires ',' !in part && PartOf(part).Some?
    ensures CleanEntry(PartOf(part).value.0, PartOf(part).value.1)
  {
    var trimmed := TrimSpace(part);
    TrimSpaceTrims(part);
    CutIsFirst(trimmed, '=');
    TrimSpaceTrims(Cut(trimmed, '=').value.0);
    TrimSpaceTrims(Cut(trimmed, '=').value.1);
  }

  lemma {:induction false} ReadEntriesAreClean(parts: seq<string>)
    requires forall i :: 0 <= i < |parts| ==> ',' !in parts[i]
    ensures forall k :: k in PartsToMap(parts) ==> CleanEntry(k, PartsToMap(parts)[k])
  {
    if parts != [] {
      ReadEntriesAreClean(parts[..|parts| - 1]);
      if PartOf(parts[|parts| - 1]).Some? {
        PartIsClean(parts[|parts| - 1]);
      }
    }
  }

  /** Reading back what was printed gives the same match exactly when every entry is clean. */
  lemma ParseOfFormat(m: map<string, string>, order: seq<string>)
    requires IterationOrder(order, m)
    ensures Parsed(Printed(order, m)) == m <==> forall k :: k in m ==> CleanEntry(k, m[k])
  {
    var printed := Printed(order, m);
    SplitPartsClean(printed, ',');
    ReadEntriesAreClean(Split(printed, ','));
    if forall k :: k in m ==> CleanEntry(k, m[k]) {
      CleanMatchSurvives(m, order);
    }
  }

  lemma OneEntryPrinted(v: string)
    ensures Printed(["k"], map["k" := v]) == "k" + "=" + v
  {
    assert ["k"][1..] == [] && Sort(["k"]) == ["k"];
    assert Parts(["k"], map["k" := v]) == ["k" + "=" + v];
  }

  /** What is read of two parts when only the first one is an entry. */
  lemma SecondPartIgnored(first: string, second: string)
    requires PartOf(first).Some? && PartOf(second).None?
    ensures PartsToMap([first, second]) == map[PartOf(first).value.0 := PartOf(first).value.1]
  {
    assert [first, second][..1] == [first] && [first][..0] == [];
    assert PartsToMap([]) == map[];
    assert PartsToMap([first]) == map[PartOf(first).value.0 := PartOf(first).value.1];
  }

  lemma NoEntryWithoutSeparator()
    ensures PartOf("b") == None
  {
    TrimmedStays("b");
    CutNone("b", '=');
  }

  /** For example, a comma inside a value is read as the end of its entry. */
  lemma CommaDoesNotSurvive()
    ensures Parsed(Printed(["k"], map["k" := "a,b"])) == map["k" := "a"]
  {
    OneEntryPrinted("a,b");
    PartOfEntry("k", "a");
    NoEntryWithoutSeparator();
    assert "k" + "=" + "a,b" == ("k" + "=" + "a") + [','] + "b";
    SplitFirst("k" + "=" + "a", "b", ',');
    SplitOne("b", ',');
    SecondPartIgnored("k" + "=" + "a", "b");
  }
}
