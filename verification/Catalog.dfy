/** The client's own expansion of action groups, and its agreement with the server's decisions. */
module Catalog {
  import opened Basics
  import opened Reachability
  import opened Strings
  import opened Cedar
  import opened Schemas
  import opened Compiler
  import opened CompilerLaws

  type Expansion = map<string, seq<string>>

  predicate Lists(out: Expansion, group: string, action: string)
  {
    group in out && action in out[group]
  }

  /** Some declaration of the action is in a group below or equal to this one, as the client sees the groups. */
  ghost predicate Granted(s: Schema, actions: seq<Action>, group: string, action: string)
  {
    exists a, g :: a in actions && a.name == action && g in a.groups && Reaches(GroupParents(s.groups), g, group)
  }

  ghost predicate GrantedBy(s: Schema, a: Action, n: nat, group: string)
    requires n <= |a.groups|
  {
    exists k :: 0 <= k < n && Reaches(GroupParents(s.groups), a.groups[k], group)
  }

  /** Appends an action's name to the lists of all the ancestors of one of its groups. */
  method AddToAncestors(ancestors: set<string>, name: string, out: Expansion) returns (r: Expansion)
    ensures forall g, x :: Lists(r, g, x) <==> Lists(out, g, x) || (g in ancestors && x == name)
    ensures forall g :: g in r ==> g in out || g in ancestors
    ensures (forall g :: g in out ==> out[g] != []) ==> forall g :: g in r ==> r[g] != []
  {
    r := out;
    var todo := ancestors;
    while todo != {}
      invariant todo <= ancestors
      invariant forall g, x :: Lists(r, g, x) <==> Lists(out, g, x) || (g in ancestors - todo && x == name)
      invariant forall g :: g in r ==> g in out || g in ancestors
      invariant (forall g :: g in out ==> out[g] != []) ==> forall g :: g in r ==> r[g] != []
      decreases todo
    {
      var anc :| anc in todo;
      todo := todo - {anc};
      ghost var before := r;
      r := r[anc := (if anc in r then r[anc] else []) + [name]];
      assert forall x :: Lists(r, anc, x) <==> Lists(before, anc, x) || x == name;
      assert forall g, x :: g != anc ==> (Lists(r, g, x) <==> Lists(before, g, x));
    }
  }

  method AddAction(s: Schema, parents: map<string, seq<string>>, a: Action, out: Expansion) returns (r: Expansion)
    requires parents == GroupParents(s.groups)
    ensures forall g, x :: Lists(r, g, x) <==> Lists(out, g, x) || (x == a.name && GrantedBy(s, a, |a.groups|, g))
    ensures (forall g :: g in out ==> out[g] != []) ==> forall g :: g in r ==> r[g] != []
  {
    r := out;
    for k := 0 to |a.groups|
      invariant forall g, x :: Lists(r, g, x) <==> Lists(out, g, x) || (x == a.name && GrantedBy(s, a, k, g))
      invariant (forall g :: g in out ==> out[g] != []) ==> forall g :: g in r ==> r[g] != []
    {
      var ancestors := AncestorsOf(parents, a.groups[k]);
      r := AddToAncestors(ancestors, a.name, r);
      assert forall g :: GrantedBy(s, a, k + 1, g) <==> GrantedBy(s, a, k, g) || g in ancestors;
    }
  }

  method SortLists(out: Expansion) returns (r: Expansion)
    ensures r.Keys == out.Keys && forall g :: g in r ==> Sorted(r[g]) && multiset(r[g]) == multiset(out[g])
  {
    r := out;
    var todo := out.Keys;
    while todo != {}
      invariant todo <= out.Keys && r.Keys == out.Keys
      invariant forall g :: g in out && g !in todo ==> Sorted(r[g]) && multiset(r[g]) == multiset(out[g])
      invariant forall g :: g in todo ==> r[g] == out[g]
      decreases todo
    {
      var g :| g in todo;
      todo := todo - {g};
      SortSorts(r[g]);
      r := r[g := Sort(r[g])];
    }
  }

  lemma GrantedStep(s: Schema, actions: seq<Action>, a: Action, group: string, action: string)
    ensures Granted(s, actions + [a], group, action) <==>
            Granted(s, actions, group, action) || (action == a.name && GrantedBy(s, a, |a.groups|, group))
  {
    if Granted(s, actions, group, action) {
      var b, g :| b in actions && b.name == action && g in b.groups && Reaches(GroupParents(s.groups), g, group);
      assert b in actions + [a];
    }
    if action == a.name && GrantedBy(s, a, |a.groups|, group) {
      var k :| 0 <= k < |a.groups| && Reaches(GroupParents(s.groups), a.groups[k], group);
      assert a in actions + [a] && a.groups[k] in a.groups;
    }
  }

  method GroupActions(s: Schema) returns (out: Expansion)
    ensures forall g, x :: Lists(out, g, x) <==> Granted(s, s.actions, g, x)
    ensures forall g :: g in out ==> out[g] != [] && Sorted(out[g])
  {
    var parents: map<string, seq<string>> := map[];
    for i := 0 to |s.groups|
      invariant parents == GroupParents(s.groups[..i])
    {
      parents := parents[s.groups[i].name := s.groups[i].parents];
      assert s.groups[..i + 1][..i] == s.groups[..i];
    }
    assert s.groups[..|s.groups|] == s.groups;
    var lists: Expansion := map[];
    for i := 0 to |s.actions|
      invariant forall g, x :: Lists(lists, g, x) <==> Granted(s, s.actions[..i], g, x)
      invariant forall g :: g in lists ==> lists[g] != []
    {
      lists := AddAction(s, parents, s.actions[i], lists);
      assert s.actions[..i + 1] == s.actions[..i] + [s.actions[i]];
      forall g, x
        ensures Granted(s, s.actions[..i + 1], g, x) <==>
                || Granted(s, s.actions[..i], g, x)
                || (x == s.actions[i].name && GrantedBy(s, s.actions[i], |s.actions[i].groups|, g))
      {
        GrantedStep(s, s.actions[..i], s.actions[i], g, x);
      }
    }
    assert s.actions[..|s.actions|] == s.actions;
    out := SortLists(lists);
    forall g, x
      ensures Lists(out, g, x) <==> Lists(lists, g, x)
    {
      if g in lists {
        assert x in out[g] <==> x in multiset(out[g]);
      }
    }
    forall g | g in out
      ensures out[g] != []
    {
      assert lists[g][0] in multiset(out[g]);
    }
  }

  // ---------- Agreement with the server ----------

  ghost predicate IsActionName(s: Schema, n: string) { exists a :: a in s.actions && a.name == n }

  ghost predicate IsGroupName(s: Schema, n: string) { exists g :: g in s.groups && g.name == n }

  /** Actions share no name with a group and are never used as a group; they may be declared several times. */
  ghost predicate DisjointNames(s: Schema)
  {
    && (forall n :: IsGroupName(s, n) ==> !IsActionName(s, n))
    && (forall g, p :: g in s.groups && p in g.parents ==> !IsActionName(s, p))
    && (forall a, g :: a in s.actions && g in a.groups ==> !IsActionName(s, g))
  }

  ghost predicate DeclaredOnce(s: Schema, action: string)
  {
    forall a, b :: a in s.actions && b in s.actions && a.name == action && b.name == action ==> a.groups == b.groups
  }

  /** Wherever some declaration of the action puts it, its last declaration leads there too. */
  ghost predicate LastLeads(s: Schema, action: string)
    requires action in ActionGroups(s.actions)
  {
    forall a, g :: a in s.actions && a.name == action && g in a.groups ==>
      exists h :: h in ActionGroups(s.actions)[action] && Reaches(GroupParents(s.groups), h, g)
  }

  /** The last declaration of an action is one of its declarations. */
  lemma {:induction false} ActionGroupsSource(actions: seq<Action>, n: string)
    requires exists a :: a in actions && a.name == n
    ensures n in ActionGroups(actions)
    ensures exists a :: a in actions && a.name == n && a.groups == ActionGroups(actions)[n]
  {
    var init, last := actions[..|actions| - 1], actions[|actions| - 1];
    assert actions == init + [last];
    if n != last.name {
      ActionGroupsSource(init, n);
    }
  }

  lemma {:induction false} GroupParentsSource(groups: seq<Group>, n: string)
    requires n in GroupParents(groups)
    ensures exists g :: g in groups && g.name == n && g.parents == GroupParents(groups)[n]
  {
    var init, last := groups[..|groups| - 1], groups[|groups| - 1];
    assert groups == init + [last];
    if n != last.name {
      GroupParentsSource(init, n);
    }
  }

  /** From a name that is not an action, the lattice and the client's group map go the same way up. */
  lemma {:induction false} GroupHopsAgree(s: Schema, from: string, to: string, n: nat)
    requires DisjointNames(s) && !IsActionName(s, from)
    ensures Hops(Lattice(s), from, to, n) <==> Hops(GroupParents(s.groups), from, to, n)
    decreases n
  {
    ActionGroupsKeys(s.actions);
    assert from in Lattice(s) <==> from in GroupParents(s.groups);
    if n > 0 && from in Lattice(s) {
      GroupParentsSource(s.groups, from);
      var above := GroupParents(s.groups)[from];
      assert Lattice(s)[from] == above;
      forall p | p in above
        ensures Hops(Lattice(s), p, to, n - 1) <==> Hops(GroupParents(s.groups), p, to, n - 1)
      {
        assert !IsActionName(s, p);
        GroupHopsAgree(s, p, to, n - 1);
      }
    }
  }

  lemma GroupReachAgrees(s: Schema, from: string, to: string)
    requires DisjointNames(s) && !IsActionName(s, from)
    ensures Reaches(Lattice(s), from, to) <==> Reaches(GroupParents(s.groups), from, to)
  {
    forall n: nat
      ensures Hops(Lattice(s), from, to, n) <==> Hops(GroupParents(s.groups), from, to, n)
    {
      GroupHopsAgree(s, from, to, n);
    }
  }

  /** The lattice rolls an action up into a group exactly when its last declaration leads there. */
  lemma RollsUpByLast(s: Schema, group: string, action: string)
    requires DisjointNames(s) && IsActionName(s, action) && action != group
    ensures action in ActionGroups(s.actions)
    ensures Reaches(Lattice(s), action, group) <==>
            exists g :: g in ActionGroups(s.actions)[action] && Reaches(GroupParents(s.groups), g, group)
  {
    ActionGroupsSource(s.actions, action);
    var groups := ActionGroups(s.actions)[action];
    assert Lattice(s)[action] == groups;
    ReachesUnfold(Lattice(s), action, group);
    forall g | g in groups
      ensures Reaches(Lattice(s), g, group) <==> Reaches(GroupParents(s.groups), g, group)
    {
      assert !IsActionName(s, g);
      GroupReachAgrees(s, g, group);
    }
  }

  /** Nothing the server grants is hidden: what the lattice rolls up into a group, the client lists there. */
  lemma NothingIsHidden(s: Schema, group: string, action: string)
    requires DisjointNames(s) && IsActionName(s, action) && action != group && Reaches(Lattice(s), action, group)
    ensures Granted(s, s.actions, group, action)
  {
    RollsUpByLast(s, group, action);
    ActionGroupsSource(s.actions, action);
    var a :| a in s.actions && a.name == action && a.groups == ActionGroups(s.actions)[action];
    var g :| g in a.groups && Reaches(GroupParents(s.groups), g, group);
  }

  /** Where the last declaration leads everywhere the others do, the client lists exactly what the lattice rolls up. */
  lemma ExpansionIsReachability(s: Schema, group: string, action: string)
    requires DisjointNames(s) && IsActionName(s, action) && action != group
    requires action in ActionGroups(s.actions) && LastLeads(s, action)
    ensures Granted(s, s.actions, group, action) <==> Reaches(Lattice(s), action, group)
  {
    if Granted(s, s.actions, group, action) {
      var a, g :| a in s.actions && a.name == action && g in a.groups && Reaches(GroupParents(s.groups), g, group);
      var h :| h in ActionGroups(s.actions)[action] && Reaches(GroupParents(s.groups), h, g);
      var n: nat :| Hops(GroupParents(s.groups), h, g, n);
      HopsThenReaches(GroupParents(s.groups), h, g, group, n);
      RollsUpByLast(s, group, action);
    } else if Reaches(Lattice(s), action, group) {
      NothingIsHidden(s, group, action);
    }
  }

  /** The client's listing of an action is right for every group exactly when its last declaration leads everywhere. */
  lemma ListingIsRightExactly(s: Schema, action: string)
    requires DisjointNames(s) && IsActionName(s, action)
    ensures action in ActionGroups(s.actions)
    ensures (forall group :: group != action ==>
            (Granted(s, s.actions, group, action) <==> Reaches(Lattice(s), action, group)))
            <==> LastLeads(s, action)
  {
    ActionGroupsSource(s.actions, action);
    if LastLeads(s, action) {
      forall group | group != action
        ensures Granted(s, s.actions, group, action) <==> Reaches(Lattice(s), action, group)
      {
        ExpansionIsReachability(s, group, action);
      }
    } else {
      var a, g :| a in s.actions && a.name == action && g in a.groups
                  && !exists h :: h in ActionGroups(s.actions)[action] && Reaches(GroupParents(s.groups), h, g);
      ListedButNotGranted(s, a, g);
    }
  }

  lemma ListedButNotGranted(s: Schema, a: Action, g: string)
    requires DisjointNames(s) && a in s.actions && g in a.groups && a.name in ActionGroups(s.actions)
    requires !exists h :: h in ActionGroups(s.actions)[a.name] && Reaches(GroupParents(s.groups), h, g)
    ensures g != a.name && Granted(s, s.actions, g, a.name) && !Reaches(Lattice(s), a.name, g)
  {
    assert !IsActionName(s, g);
    ReachesSelf(GroupParents(s.groups), g);
    RollsUpByLast(s, g, a.name);
  }

  lemma DeclaredOnceLeads(s: Schema, action: string)
    requires IsActionName(s, action) && DeclaredOnce(s, action)
    ensures action in ActionGroups(s.actions) && LastLeads(s, action)
  {
    ActionGroupsSource(s.actions, action);
    forall a, g | a in s.actions && a.name == action && g in a.groups
      ensures g in ActionGroups(s.actions)[action] && Reaches(GroupParents(s.groups), g, g)
    {
      ReachesSelf(GroupParents(s.groups), g);
    }
  }

  /** Declared in one group and then again in another, an action is listed under the first but not granted by it. */
  lemma RepeatedDeclarationIsOverstated(s: Schema, action: string, first: string, second: string)
    requires s.actions == [Action(action, "", "", [first]), Action(action, "", "", [second])] && s.groups == []
    requires action != first && first != second && action != second
    ensures Granted(s, s.actions, first, action) && !Reaches(Lattice(s), action, first)
  {
    var a, b := s.actions[0], s.actions[1];
    assert a in s.actions && b in s.actions && forall x :: x in s.actions ==> x == a || x == b;
    assert s.actions[..1] == [a];
    assert ActionGroups(s.actions)[action] == [second];
    ReachesUnfold(GroupParents(s.groups), second, first);
    ListedButNotGranted(s, a, first);
  }

  /**
   What a permit for a group allows, the client lists under it; and it allows exactly what is listed
   where the last declaration of the action leads everywhere the others do.
   */
  lemma ShownIsGranted(s: Schema, group: string, sel: ResourceSelector, p: Policy, reqs: seq<Requirement>,
                       world: seq<Entity>, r: Requirement)
    requires WellFormed(s, reqs) && DisjointNames(s) && IsWorld(s, reqs, world) && r in reqs
    requires Compiled(s, [Capability([group], sel)], [p]) && IsGroupName(s, group)
    requires IsActionName(s, r.action) && p.scope in Ancestry(s, r.resource)
    ensures r.action in ActionGroups(s.actions)
    ensures Allows(LastWins(world), [p], Question(s, r)) ==> Granted(s, s.actions, group, r.action)
    ensures LastLeads(s, r.action) ==>
            (Allows(LastWins(world), [p], Question(s, r)) <==> Granted(s, s.actions, group, r.action))
  {
    var c := Capability([group], sel);
    AllowsMeansCovered(s, [c], [p], reqs, world, r);
    ActionGroupsSource(s.actions, r.action);
    assert IsPermitFor(s, [c][0], [p][0]);
    assert c.actions[0] == group;
    assert Covers(s, [c][0], r) <==> Reaches(Lattice(s), r.action, group);
    if Reaches(Lattice(s), r.action, group) {
      NothingIsHidden(s, group, r.action);
    }
    if LastLeads(s, r.action) {
      ExpansionIsReachability(s, group, r.action);
    }
  }

  // ---------- Templates ----------

  /** The concrete actions shown for a template: exactly the declared actions its names reach. */
  method TemplateActions(s: Schema, t: Template) returns (out: seq<string>)
    ensures NoDuplicates(out)
    ensures Sorted(out)
    ensures forall x :: x in out <==>
              exists k :: 0 <= k < |t.actions| &&
                if exists y :: Granted(s, s.actions, t.actions[k], y) then Granted(s, s.actions, t.actions[k], x)
                else x == t.actions[k]
    ensures DisjointNames(s) ==>
              forall x, n :: IsActionName(s, x) && n in t.actions && Reaches(Lattice(s), x, n) ==> x in out
    ensures DisjointNames(s) ==> forall x :: IsActionName(s, x) && x in ActionGroups(s.actions) && LastLeads(s, x) ==>
              (x in out <==> exists n :: n in t.actions && Reaches(Lattice(s), x, n))
  {
    var expand := GroupActions(s);
    var names: seq<string> := [];
    for i := 0 to |t.actions|
      invariant NoDuplicates(names)
      invariant forall x :: x in names <==> exists k :: 0 <= k < i && Shows(expand, t.actions[k], x)
    {
      var members := if t.actions[i] in expand then expand[t.actions[i]] else [t.actions[i]];
      names := AddMissing(names, members);
    }
    out := Sort(names);
    SortSorts(names);
    SortedDistinct(names);
    forall x
      ensures x in out <==> x in names
    {
      assert x in multiset(out) <==> x in multiset(names);
    }
    forall n, x
      ensures Shows(expand, n, x) <==>
              if exists y :: Granted(s, s.actions, n, y) then Granted(s, s.actions, n, x) else x == n
    {
      if n in expand {
        assert Lists(expand, n, expand[n][0]);
      }
    }
    if DisjointNames(s) {
      forall n, x | IsActionName(s, x)
        ensures Reaches(Lattice(s), x, n) ==> Shows(expand, n, x)
        ensures x in ActionGroups(s.actions) && LastLeads(s, x) ==> (Shows(expand, n, x) <==> Reaches(Lattice(s), x, n))
      {
        ShownForName(s, expand, n, x);
      }
    }
  }

  predicate Shows(expand: Expansion, name: string, x: string)
  {
    if name in expand then x in expand[name] else x == name
  }

  lemma ShownForName(s: Schema, expand: Expansion, name: string, x: string)
    requires DisjointNames(s) && IsActionName(s, x)
    requires forall g, y :: Lists(expand, g, y) <==> Granted(s, s.actions, g, y)
    requires forall g :: g in expand ==> expand[g] != []
    ensures Reaches(Lattice(s), x, name) ==> Shows(expand, name, x)
    ensures x in ActionGroups(s.actions) && LastLeads(s, x) ==>
            (Shows(expand, name, x) <==> Reaches(Lattice(s), x, name))
  {
    if x == name {
      ReachesSelf(Lattice(s), x);
      if name in expand {
        assert Lists(expand, name, expand[name][0]);
        var a, g :| a in s.actions && g in a.groups && Reaches(GroupParents(s.groups), g, name);
        GroupReachStaysGroup(s, g, name);
      }
    } else {
      assert Lists(expand, name, x) <==> Granted(s, s.actions, name, x);
      if Reaches(Lattice(s), x, name) {
        NothingIsHidden(s, name, x);
      }
      if x in ActionGroups(s.actions) && LastLeads(s, x) {
        ExpansionIsReachability(s, name, x);
      }
    }
  }

  /** Walking up from a group never arrives at an action. */
  lemma GroupReachStaysGroup(s: Schema, from: string, to: string)
    requires DisjointNames(s) && !IsActionName(s, from) && Reaches(GroupParents(s.groups), from, to)
    ensures !IsActionName(s, to)
  {
    var n: nat :| Hops(GroupParents(s.groups), from, to, n);
    GroupHopsStayGroup(s, from, to, n);
  }

  lemma {:induction false} GroupHopsStayGroup(s: Schema, from: string, to: string, n: nat)
    requires DisjointNames(s) && !IsActionName(s, from) && Hops(GroupParents(s.groups), from, to, n)
    ensures !IsActionName(s, to)
    decreases n
  {
    if n > 0 {
      GroupParentsSource(s.groups, from);
      var p :| p in GroupParents(s.groups)[from] && Hops(GroupParents(s.groups), p, to, n - 1);
      GroupHopsStayGroup(s, p, to, n - 1);
    }
  }

  method AddMissing(names: seq<string>, members: seq<string>) returns (r: seq<string>)
    requires NoDuplicates(names)
    ensures NoDuplicates(r)
    ensures forall x :: x in r <==> x in names || x in members
  {
    r := names;
    for i := 0 to |members|
      invariant NoDuplicates(r)
      invariant forall x :: x in r <==> x in names || x in members[..i]
    {
      assert members[..i + 1] == members[..i] + [members[i]];
      if members[i] !in r {
        r := r + [members[i]];
      }
    }
    assert members[..|members|] == members;
  }
}
