/** How deep a resource type lies, and why the loop's guard trips on cyclic hierarchies only. */
module Depth {
  import opened Schemas

  /** The declared parent of each type; the last declaration of a name counts. */
  function ParentTypes(resources: seq<ResourceType>): map<string, string>
  {
    if resources == [] then map[]
    else
      var last := resources[|resources| - 1];
      ParentTypes(resources[..|resources| - 1])[last.name := last.parent]
  }

  lemma {:induction false} NoMoreTypesThanDeclared(resources: seq<ResourceType>)
    ensures |ParentTypes(resources).Keys| <= |resources|
  {
    if resources != [] {
      var init, last := resources[..|resources| - 1], resources[|resources| - 1];
      NoMoreTypesThanDeclared(init);
      assert ParentTypes(resources).Keys == ParentTypes(init).Keys + {last.name};
    }
  }

  /** The last declaration of a type gives its parent. */
  lemma {:induction false} ParentIsLast(resources: seq<ResourceType>, i: nat)
    requires i < |resources| && forall j :: i < j < |resources| ==> resources[j].name != resources[i].name
    ensures resources[i].name in ParentTypes(resources)
            && ParentTypes(resources)[resources[i].name] == resources[i].parent
  {
    if i < |resources| - 1 {
      ParentIsLast(resources[..|resources| - 1], i);
    }
  }

  lemma {:induction false} ParentsAreDeclared(resources: seq<ResourceType>, name: string)
    ensures name in ParentTypes(resources) <==> exists r :: r in resources && r.name == name
  {
    if resources != [] {
      ParentsAreDeclared(resources[..|resources| - 1], name);
      assert resources == resources[..|resources| - 1] + [resources[|resources| - 1]];
    }
  }

  function ParentOf(parent: map<string, string>, name: string): string
  {
    if name in parent then parent[name] else ""
  }

  /** `k` steps up from a type. */
  function Up(parent: map<string, string>, name: string, k: nat): string
  {
    if k == 0 then name else ParentOf(parent, Up(parent, name, k - 1))
  }

  /** None of the first `n` steps up leaves the hierarchy. */
  predicate Above(parent: map<string, string>, name: string, n: nat)
  {
    forall k :: 1 <= k <= n ==> Up(parent, name, k) != ""
  }

  /** The number of proper ancestors; one more than the declared types when walking up never ends. */
  method ResourceDepth(s: Schema, name: string) returns (depth: nat)
    ensures depth <= |s.resources| ==>
              Above(ParentTypes(s.resources), name, depth) && Up(ParentTypes(s.resources), name, depth + 1) == ""
    ensures depth > |s.resources| ==> depth == |s.resources| + 1 && forall n :: Above(ParentTypes(s.resources), name, n)
  {
    var parent: map<string, string> := map[];
    for i := 0 to |s.resources|
      invariant parent == ParentTypes(s.resources[..i])
    {
      assert s.resources[..i + 1][..i] == s.resources[..i];
      parent := parent[s.resources[i].name := s.resources[i].parent];
    }
    assert s.resources[..|s.resources|] == s.resources;
    depth := 0;
    var p := ParentOf(parent, name);
    while p != ""
      invariant depth <= |s.resources| && p == Up(parent, name, depth + 1) && Above(parent, name, depth)
      decreases |s.resources| - depth
    {
      depth := depth + 1;
      if depth > |s.resources| {
        NoMoreTypesThanDeclared(s.resources);
        GuardMeansCycle(parent, name, depth);
        break;
      }
      p := ParentOf(parent, p);
    }
  }

  lemma {:induction false} Repetition(names: seq<string>, within: set<string>) returns (i: nat, j: nat)
    requires |names| > |within| && forall n :: n in names ==> n in within
    ensures i < j < |names| && names[i] == names[j]
  {
    var init, last := names[..|names| - 1], names[|names| - 1];
    assert names == init + [last];
    if last in init {
      i :| 0 <= i < |init| && init[i] == last;
      j := |init|;
    } else {
      i, j := Repetition(init, within - {last});
    }
  }

  lemma {:induction false} SameFrom(parent: map<string, string>, name: string, i: nat, j: nat, k: nat)
    requires Up(parent, name, i) == Up(parent, name, j)
    ensures Up(parent, name, i + k) == Up(parent, name, j + k)
  {
    if k > 0 {
      SameFrom(parent, name, i, j, k - 1);
    }
  }

  /** After as many steps as there are types some type has come twice, so the walk goes round for ever. */
  lemma GuardMeansCycle(parent: map<string, string>, name: string, n: nat)
    requires n > |parent.Keys| && Above(parent, name, n)
    ensures forall k :: Above(parent, name, k)
  {
    var walk := seq(n, k requires 0 <= k < n => Up(parent, name, k));
    forall t | t in walk
      ensures t in parent.Keys
    {
      var k :| 0 <= k < n && walk[k] == t;
      assert Up(parent, name, k + 1) != "";
    }
    var i, j := Repetition(walk, parent.Keys);
    forall k | k >= 1
      ensures Up(parent, name, k) != ""
    {
      GoesRound(parent, name, i, j, n, k);
    }
  }

  lemma {:induction false} GoesRound(parent: map<string, string>, name: string, i: nat, j: nat, n: nat, k: nat)
    requires i < j < n && Up(parent, name, i) == Up(parent, name, j) && Above(parent, name, n) && k >= 1
    ensures Up(parent, name, k) != ""
  {
    if k > n {
      SameFrom(parent, name, i, j, k - j);
      GoesRound(parent, name, i, j, n, k - j + i);
    }
  }
}
