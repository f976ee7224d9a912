/**
 Building the command tree in place: command objects whose child lists grow, found again through a
 map from path prefixes. The objects reachable at the end print as the tree of CommandTree.
 */
module Commands {
  import opened Basics
  import opened Strings
  import opened CommandTree

  class Command {
    const use: string
    /** The operation a leaf runs; a group runs none. */
    const op: Option<OpCommand>
    /** The full path of the command, for the proof only. */
    ghost const path: seq<string>
    var children: seq<Command>

    constructor (use: string, op: Option<OpCommand>, ghost path: seq<string>)
      ensures this.use == use && this.op == op && this.path == path && children == []
    {
      this.use, this.op, this.path, children := use, op, path, [];
    }
  }

  // ---------- Keys of prefixes ----------

  predicate AllWords(path: seq<string>) { forall w :: w in path ==> IsWord(w) }

  /** The running key: the words so far, separated by one blank. */
  function KeyOf(path: seq<string>): string
  {
    if path == [] then "" else TrimSpace(KeyOf(path[..|path| - 1]) + " " + path[|path| - 1])
  }

  lemma WordIsTrimmed(w: string)
    requires IsWord(w)
    ensures Trimmed(w) && ' ' !in w
  {
    assert IsSpace(' ');
    assert w[0] in w && w[|w| - 1] in w;
  }

  lemma {:induction false} JoinAppend(parts: seq<string>, last: string)
    requires parts != []
    ensures Join(parts + [last], ' ') == Join(parts, ' ') + " " + last
  {
    var all := parts + [last];
    if |parts| == 1 {
      assert all[1..] == [last];
      assert all[0] + " " + last == Join(all, ' ');
    } else {
      assert all[1..] == parts[1..] + [last];
      JoinAppend(parts[1..], last);
      assert parts[0] + " " + (Join(parts[1..], ' ') + " " + last)
          == (parts[0] + " " + Join(parts[1..], ' ')) + " " + last;
    }
  }

  lemma TrimDropsBlank(w: string)
    requires IsWord(w)
    ensures TrimSpace("" + " " + w) == w
  {
    WordIsTrimmed(w);
    assert ("" + " " + w)[1..] == w;
    assert TrimLeft(w) == w && TrimRight(w) == w;
  }

  lemma TrimmedPair(a: string, w: string)
    requires Trimmed(a) && a != "" && IsWord(w)
    ensures TrimSpace(a + " " + w) == a + " " + w && Trimmed(a + " " + w)
  {
    WordIsTrimmed(w);
    var key := a + " " + w;
    assert key[0] == a[0] && key[|key| - 1] == w[|w| - 1];
    assert TrimLeft(key) == key && TrimRight(key) == key;
  }

  lemma {:induction false} KeyIsJoin(path: seq<string>)
    requires AllWords(path) && path != []
    ensures KeyOf(path) == Join(path, ' ') && KeyOf(path) != "" && Trimmed(KeyOf(path))
  {
    var init, last := path[..|path| - 1], path[|path| - 1];
    assert path == init + [last];
    assert IsWord(last);
    if init == [] {
      TrimDropsBlank(last);
      WordIsTrimmed(last);
    } else {
      KeyIsJoin(init);
      JoinAppend(init, last);
      TrimmedPair(KeyOf(init), last);
    }
  }

  /** Different prefixes have different keys. */
  lemma KeyInjective(p: seq<string>, q: seq<string>)
    requires AllWords(p) && AllWords(q) && p != [] && q != [] && KeyOf(p) == KeyOf(q)
    ensures p == q
  {
    KeyIsJoin(p);
    KeyIsJoin(q);
    forall w | w in p || w in q
      ensures ' ' !in w
    {
      WordIsTrimmed(w);
    }
    SplitJoin(p, ' ');
    SplitJoin(q, ' ');
  }

  // ---------- The tree printed by a snapshot of the objects ----------

  /** Every command made so far with its children. */
  type Kids = map<Command, seq<Command>>

  /** Children sit right below their parent, no deeper than `depth`, each listed once; leaves have none. */
  ghost predicate Shaped(kids: Kids, depth: nat)
  {
    && (forall c :: c in kids ==> |c.path| <= depth && Listed(kids, kids[c], c.path))
    && (forall c :: c in kids && c.op.Some? ==> kids[c] == [])
    && (forall c, d :: c in kids && d in kids && c.op.None? && d.op.None? && c.path == d.path ==> c == d)
  }

  ghost predicate Listed(kids: Kids, cs: seq<Command>, prefix: seq<string>)
  {
    && (forall i :: 0 <= i < |cs| ==> cs[i] in kids && cs[i].path == prefix + [cs[i].use])
    && NoDuplicates(cs)
  }

  ghost function TreeOf(kids: Kids, depth: nat, c: Command): Tree
    requires Shaped(kids, depth) && c in kids
    decreases depth - |c.path|
  {
    if c.op.Some? then Leaf(c.use, c.op.value)
    else
      assert Listed(kids, kids[c], c.path);
      Group(c.use, seq(|kids[c]|, i requires 0 <= i < |kids[c]| => TreeOf(kids, depth, kids[c][i])))
  }

  ghost function Forest(kids: Kids, depth: nat, cs: seq<Command>): seq<Tree>
    requires Shaped(kids, depth) && forall i :: 0 <= i < |cs| ==> cs[i] in kids
  {
    seq(|cs|, i requires 0 <= i < |cs| => TreeOf(kids, depth, cs[i]))
  }

  lemma TreeOfGroup(kids: Kids, depth: nat, c: Command)
    requires Shaped(kids, depth) && c in kids && c.op.None?
    ensures Listed(kids, kids[c], c.path) && TreeOf(kids, depth, c) == Group(c.use, Forest(kids, depth, kids[c]))
  {
    assert Listed(kids, kids[c], c.path);
    assert Forest(kids, depth, kids[c]) == TreeOf(kids, depth, c).kids;
  }

  /** The snapshot after a new command `n` is made and, unless it goes to the top, added to `x`. */
  ghost predicate Added(kids: Kids, kids': Kids, x: Option<Command>, n: Command)
  {
    && n !in kids && kids'.Keys == kids.Keys + {n} && kids'[n] == []
    && (x.Some? ==>
          && x.value in kids && x.value.op.None? && n.path == x.value.path + [n.use]
          && kids'[x.value] == kids[x.value] + [n])
    && (forall c :: c in kids && x != Some(c) ==> kids'[c] == kids[c])
  }

  lemma AddedKeepsShape(kids: Kids, kids': Kids, depth: nat, x: Option<Command>, n: Command)
    requires Shaped(kids, depth) && Added(kids, kids', x, n) && |n.path| <= depth
    requires n.op.None? ==> forall c :: c in kids && c.op.None? ==> c.path != n.path
    ensures Shaped(kids', depth)
  {
    forall c | c in kids'
      ensures Listed(kids', kids'[c], c.path)
    {
      if c in kids {
        assert Listed(kids, kids[c], c.path);
      }
    }
  }

  /** A command is printed as before unless it lies on the way to where something was added. */
  lemma {:induction false} TreeElsewhere(kids: Kids, kids': Kids, depth: nat, x: Option<Command>, n: Command,
                                         c: Command)
    requires Shaped(kids, depth) && Shaped(kids', depth) && Added(kids, kids', x, n) && c in kids
    requires c.op.None? && x.Some? ==> !Prefix(c.path, x.value.path)
    ensures TreeOf(kids', depth, c) == TreeOf(kids, depth, c)
    decreases depth - |c.path|
  {
    if c.op.None? {
      TreeOfGroup(kids, depth, c);
      TreeOfGroup(kids', depth, c);
      if x.Some? {
        assert Prefix(x.value.path, x.value.path);
      }
      assert kids'[c] == kids[c];
      forall i | 0 <= i < |kids[c]|
        ensures TreeOf(kids', depth, kids[c][i]) == TreeOf(kids, depth, kids[c][i])
      {
        var d := kids[c][i];
        if x.Some? && Prefix(d.path, x.value.path) {
          ShorterPrefix(c.path, d.use, x.value.path);
        }
        TreeElsewhere(kids, kids', depth, x, n, d);
      }
      assert Forest(kids', depth, kids[c]) == Forest(kids, depth, kids[c]);
    }
  }

  lemma ShorterPrefix(p: seq<string>, w: string, q: seq<string>)
    requires Prefix(p + [w], q)
    ensures Prefix(p, q) && q[|p|] == w
  {
    assert q[..|p|] == q[..|p| + 1][..|p|];
    assert (p + [w])[|p|] == w;
  }

  /** Adding to the children of `x` adds to the group at `x`'s path, wherever in the forest it is. */
  lemma {:induction false} ForestAfterAdd(kids: Kids, kids': Kids, depth: nat, x: Command, n: Command,
                                          cs: seq<Command>, prefix: seq<string>, rest: seq<string>)
    requires Shaped(kids, depth) && Shaped(kids', depth) && Added(kids, kids', Some(x), n)
    requires Listed(kids, cs, prefix) && rest != [] && x.path == prefix + rest
    requires HasGroup(Forest(kids, depth, cs), rest)
    ensures Forest(kids', depth, cs) == AddAt(Forest(kids, depth, cs), rest, TreeOf(kids', depth, n))
    decreases |rest|
  {
    var forest := Forest(kids, depth, cs);
    var i := GroupAt(forest, rest[0]);
    var c := cs[i];
    TreeOfGroup(kids, depth, c);
    TreeOfGroup(kids', depth, c);
    forall j | 0 <= j < |cs| && j != i
      ensures TreeOf(kids', depth, cs[j]) == forest[j]
    {
      OthersElsewhere(kids, kids', depth, x, n, cs, prefix, rest, i, j);
    }
    GroupAfterAdd(kids, kids', depth, x, n, c, prefix, rest);
    assert Forest(kids', depth, cs) == forest[i := TreeOf(kids', depth, c)];
  }

  lemma OffTheWay(prefix: seq<string>, w: string, rest: seq<string>)
    requires rest != [] && w != rest[0]
    ensures !Prefix(prefix + [w], prefix + rest)
  {
    assert (prefix + [w])[|prefix|] == w;
    assert (prefix + rest)[..|prefix| + 1][|prefix|] == rest[0];
  }

  lemma OthersElsewhere(kids: Kids, kids': Kids, depth: nat, x: Command, n: Command, cs: seq<Command>,
                        prefix: seq<string>, rest: seq<string>, i: nat, j: nat)
    requires Shaped(kids, depth) && Shaped(kids', depth) && Added(kids, kids', Some(x), n)
    requires Listed(kids, cs, prefix) && rest != [] && x.path == prefix + rest
    requires i < |cs| && j < |cs| && i != j && cs[i].op.None? && cs[i].use == rest[0]
    ensures TreeOf(kids', depth, cs[j]) == TreeOf(kids, depth, cs[j])
  {
    if cs[j].op.None? {
      assert cs[j].path != cs[i].path;
      OffTheWay(prefix, cs[j].use, rest);
    }
    TreeElsewhere(kids, kids', depth, Some(x), n, cs[j]);
  }

  lemma {:induction false} GroupAfterAdd(kids: Kids, kids': Kids, depth: nat, x: Command, n: Command, c: Command,
                                         prefix: seq<string>, rest: seq<string>)
    requires Shaped(kids, depth) && Shaped(kids', depth) && Added(kids, kids', Some(x), n)
    requires c in kids && c.op.None? && rest != [] && c.path == prefix + [rest[0]] && x.path == prefix + rest
    requires HasGroup(Forest(kids, depth, kids[c]), rest[1..])
    ensures TreeOf(kids', depth, c)
            == Group(c.use, AddAt(Forest(kids, depth, kids[c]), rest[1..], TreeOf(kids', depth, n)))
    decreases |rest|, 0
  {
    TreeOfGroup(kids, depth, c);
    TreeOfGroup(kids', depth, c);
    assert rest == [rest[0]] + rest[1..];
    if rest[1..] == [] {
      assert c.path == x.path;
      ChildrenAfterAdd(kids, kids', depth, x, n);
    } else {
      assert |c.path| < |x.path|;
      assert c.path + rest[1..] == x.path;
      ForestAfterAdd(kids, kids', depth, x, n, kids[c], c.path, rest[1..]);
    }
  }

  /** The group added to has its new child last and the others as before. */
  lemma ChildrenAfterAdd(kids: Kids, kids': Kids, depth: nat, x: Command, n: Command)
    requires Shaped(kids, depth) && Shaped(kids', depth) && Added(kids, kids', Some(x), n)
    requires forall i :: 0 <= i < |kids[x]| ==> kids[x][i] in kids
    ensures forall i :: 0 <= i < |kids'[x]| ==> kids'[x][i] in kids'
    ensures Forest(kids', depth, kids'[x]) == Forest(kids, depth, kids[x]) + [TreeOf(kids', depth, n)]
  {
    var listed := kids[x];
    assert Listed(kids, listed, x.path);
    forall i | 0 <= i < |listed|
      ensures TreeOf(kids', depth, listed[i]) == TreeOf(kids, depth, listed[i])
    {
      TreeElsewhere(kids, kids', depth, Some(x), n, listed[i]);
    }
  }

  // ---------- The map of groups ----------

  type Paths = set<seq<string>>

  /** `paths` are the group paths; the map finds each group object under the key of its path, and nothing else. */
  ghost predicate GroupsFound(groups: map<string, Command>, paths: Paths, kids: Kids)
  {
    && (forall p :: p in paths ==> p != [] && AllWords(p) && KeyOf(p) in groups && groups[KeyOf(p)].path == p)
    && (forall k :: k in groups ==>
        groups[k] in kids && groups[k].op.None? && groups[k].path in paths && KeyOf(groups[k].path) == k)
    && (forall c :: c in kids && c.op.None? ==> c.path in paths && groups[KeyOf(c.path)] == c)
  }

  /** The printed forest has its groups at exactly these paths. */
  ghost predicate GroupsMatch(paths: Paths, ts: seq<Tree>)
  {
    forall p :: p != [] ==> (HasGroup(ts, p) <==> p in paths)
  }

  /** Everything that holds between operations, said of a snapshot. */
  ghost predicate Consistent(groups: map<string, Command>, paths: Paths, top: seq<Command>, kids: Kids, depth: nat)
  {
    && Shaped(kids, depth) && Listed(kids, top, []) && GroupsFound(groups, paths, kids)
    && GroupsMatch(paths, Forest(kids, depth, top))
  }

  /** The key of a path is in the map exactly when the path is a group's. */
  lemma KeyInMap(groups: map<string, Command>, paths: Paths, kids: Kids, path: seq<string>)
    requires GroupsFound(groups, paths, kids) && AllWords(path) && path != []
    ensures KeyOf(path) in groups <==> path in paths
  {
    if KeyOf(path) in groups {
      assert groups[KeyOf(path)].path in paths;
      KeyInjective(groups[KeyOf(path)].path, path);
    }
  }

  /** The parent under which a path's next word goes: nothing for the top level. */
  ghost predicate IsParent(kids: Kids, path: seq<string>, x: Option<Command>)
  {
    if path == [] then x == None else x.Some? && x.value in kids && x.value.op.None? && x.value.path == path
  }

  ghost function Given(parent: Command?): Option<Command>
  {
    if parent == null then None else Some(parent)
  }

  /** The tree after making sure of one more group. */
  ghost function WithGroup(ts: seq<Tree>, path: seq<string>, seg: string): seq<Tree>
    requires HasGroup(ts, path)
  {
    if HasGroup(ts, path + [seg]) then ts else AddAt(ts, path, Group(seg, []))
  }

  ghost predicate GrownTo(start: seq<Tree>, words: seq<string>, i: nat, ts: seq<Tree>)
    requires i <= |words|
  {
    ts == Grow(start, words, i)
  }

  lemma WordsSoFar(parts: seq<string>, i: nat)
    requires i < |parts| && AllWords(parts)
    ensures AllWords(parts[..i] + [parts[i]])
  {
  }

  lemma GrowStep(ts: seq<Tree>, words: seq<string>, i: nat)
    requires i < |words|
    ensures words[..i + 1] == words[..i] + [words[i]]
    ensures Grow(ts, words, i + 1) == WithGroup(Grow(ts, words, i), words[..i], words[i])
  {
    assert words[..i + 1] == words[..i] + [words[i]];
  }

  function NodeFor(use: string, op: Option<OpCommand>): Tree
  {
    match op case Some(o) => Leaf(use, o) case None => Group(use, [])
  }

  lemma PrintedAfterAttach(kids: Kids, kids': Kids, depth: nat, x: Option<Command>, n: Command, top: seq<Command>,
                           path: seq<string>)
    requires Shaped(kids, depth) && Shaped(kids', depth) && Added(kids, kids', x, n) && Listed(kids, top, [])
    requires HasGroup(Forest(kids, depth, top), path)
    requires if x.None? then path == [] else path != [] && x.value.path == path
    ensures Forest(kids', depth, if x.None? then top + [n] else top)
            == AddAt(Forest(kids, depth, top), path, NodeFor(n.use, n.op))
  {
    assert TreeOf(kids', depth, n) == NodeFor(n.use, n.op);
    if x.None? {
      forall i | 0 <= i < |top|
        ensures TreeOf(kids', depth, top[i]) == TreeOf(kids, depth, top[i])
      {
        TreeElsewhere(kids, kids', depth, x, n, top[i]);
      }
      assert Forest(kids', depth, top + [n]) == Forest(kids, depth, top) + [NodeFor(n.use, n.op)];
    } else {
      assert [] + path == path;
      ForestAfterAdd(kids, kids', depth, x.value, n, top, [], path);
    }
  }

  lemma HasParentGroup(groups: map<string, Command>, paths: Paths, ts: seq<Tree>, kids: Kids, path: seq<string>,
                       x: Option<Command>)
    requires GroupsMatch(paths, ts) && GroupsFound(groups, paths, kids) && IsParent(kids, path, x)
    ensures HasGroup(ts, path)
  {
  }

  lemma ShapeAfterAttach(groups: map<string, Command>, paths: Paths, kids: Kids, kids': Kids, depth: nat,
                         x: Option<Command>, n: Command)
    requires Shaped(kids, depth) && GroupsFound(groups, paths, kids) && Added(kids, kids', x, n)
    requires |n.path| <= depth && (n.op.None? ==> n.path !in paths)
    ensures Shaped(kids', depth)
  {
    AddedKeepsShape(kids, kids', depth, x, n);
  }

  lemma TopAfterAttach(kids: Kids, kids': Kids, x: Option<Command>, n: Command, top: seq<Command>)
    requires Listed(kids, top, []) && Added(kids, kids', x, n) && (x.None? ==> n.path == [] + [n.use])
    ensures Listed(kids', if x.None? then top + [n] else top, [])
  {
  }

  /** Attaching a new command adds its node to the printed forest at its parent's path. */
  lemma AttachAdds(groups: map<string, Command>, paths: Paths, top: seq<Command>, kids: Kids, kids': Kids, depth: nat,
                   x: Option<Command>, n: Command, path: seq<string>)
    requires Consistent(groups, paths, top, kids, depth) && |path| < depth && IsParent(kids, path, x)
    requires n.path == path + [n.use] && Added(kids, kids', x, n) && (n.op.None? ==> n.path !in paths)
    ensures HasGroup(Forest(kids, depth, top), path)
    ensures Shaped(kids', depth) && Listed(kids', if x.None? then top + [n] else top, [])
    ensures Forest(kids', depth, if x.None? then top + [n] else top)
            == AddAt(Forest(kids, depth, top), path, NodeFor(n.use, n.op))
  {
    HasParentGroup(groups, paths, Forest(kids, depth, top), kids, path, x);
    ShapeAfterAttach(groups, paths, kids, kids', depth, x, n);
    TopAfterAttach(kids, kids', x, n, top);
    PrintedAfterAttach(kids, kids', depth, x, n, top, path);
  }

  lemma MatchAfterAdd(paths: Paths, ts: seq<Tree>, path: seq<string>, t: Tree)
    requires GroupsMatch(paths, ts) && HasGroup(ts, path) && (t.Group? ==> t.kids == [] && path + [t.word] !in paths)
    ensures GroupsMatch(if t.Group? then paths + {path + [t.word]} else paths, AddAt(ts, path, t))
  {
    forall p | p != []
      ensures HasGroup(AddAt(ts, path, t), p) <==> p in if t.Group? then paths + {path + [t.word]} else paths
    {
      HasGroupAfterAdd(ts, path, t, p);
    }
  }

  lemma FoundAfterRecording(groups: map<string, Command>, paths: Paths, kids: Kids, kids': Kids, n: Command)
    requires GroupsFound(groups, paths, kids) && kids'.Keys == kids.Keys + {n} && n !in kids
    requires n.op.None? && n.path != [] && AllWords(n.path) && n.path !in paths
    ensures GroupsFound(groups[KeyOf(n.path) := n], paths + {n.path}, kids')
  {
    KeyInMap(groups, paths, kids, n.path);
  }

  lemma FoundAfterLeaf(groups: map<string, Command>, paths: Paths, kids: Kids, kids': Kids, n: Command)
    requires GroupsFound(groups, paths, kids) && kids'.Keys == kids.Keys + {n} && n.op.Some?
    ensures GroupsFound(groups, paths, kids')
  {
  }

  ghost predicate Prints(kids: Kids, depth: nat, top: seq<Command>, tree: seq<Tree>)
    requires Shaped(kids, depth) && Listed(kids, top, [])
  {
    tree == Forest(kids, depth, top)
  }

  /** A new group attached and recorded: everything holds again, and the tree has the group. */
  lemma GroupMade(groups: map<string, Command>, paths: Paths, top: seq<Command>, kids: Kids,
                  groups': map<string, Command>, paths': Paths, top': seq<Command>, kids': Kids, depth: nat,
                  x: Option<Command>, g: Command, path: seq<string>, seg: string)
    requires Consistent(groups, paths, top, kids, depth) && |path| < depth && IsParent(kids, path, x)
             && Added(kids, kids', x, g)
    requires g.op.None? && g.use == seg && g.path == path + [seg] && AllWords(g.path) && g.path !in paths
    requires groups' == groups[KeyOf(g.path) := g] && paths' == paths + {g.path}
             && top' == if x.None? then top + [g] else top
    ensures HasGroup(Forest(kids, depth, top), path)
    ensures Consistent(groups', paths', top', kids', depth)
    ensures Prints(kids', depth, top', AddAt(Forest(kids, depth, top), path, Group(seg, [])))
    ensures IsParent(kids', path + [seg], Some(g))
  {
    AttachAdds(groups, paths, top, kids, kids', depth, x, g, path);
    MatchAfterAdd(paths, Forest(kids, depth, top), path, Group(seg, []));
    FoundAfterRecording(groups, paths, kids, kids', g);
  }

  lemma LeafMade(groups: map<string, Command>, paths: Paths, top: seq<Command>, kids: Kids, top': seq<Command>,
                 kids': Kids, depth: nat,
                 x: Option<Command>, leaf: Command, path: seq<string>, word: string, op: OpCommand)
    requires Consistent(groups, paths, top, kids, depth) && |path| < depth && IsParent(kids, path, x)
             && Added(kids, kids', x, leaf)
    requires leaf.op == Some(op) && leaf.use == word && leaf.path == path + [word]
             && top' == if x.None? then top + [leaf] else top
    ensures HasGroup(Forest(kids, depth, top), path)
    ensures Consistent(groups, paths, top', kids', depth)
    ensures Prints(kids', depth, top', AddAt(Forest(kids, depth, top), path, Leaf(word, op)))
  {
    AttachAdds(groups, paths, top, kids, kids', depth, x, leaf, path);
    MatchAfterAdd(paths, Forest(kids, depth, top), path, Leaf(word, op));
    FoundAfterLeaf(groups, paths, kids, kids', leaf);
  }

  // ---------- The builder ----------

  class Builder {
    var groups: map<string, Command>
    var top: seq<Command>
    ghost const depth: nat
    ghost var paths: Paths
    ghost var kids: Kids
    ghost var tree: seq<Tree>

    /** The snapshot shows the objects as they are. */
    ghost predicate Current()
      reads this, kids.Keys
    {
      forall c :: c in kids ==> c.children == kids[c]
    }

    ghost predicate Valid()
      reads this, kids.Keys
    {
      Current() && Consistent(groups, paths, top, kids, depth) && Prints(kids, depth, top, tree)
    }

    constructor (ghost depth: nat)
      ensures Valid() && this.depth == depth && kids == map[] && tree == []
    {
      groups, top := map[], [];
      this.depth, kids, paths, tree := depth, map[], {}, [];
    }

    /** Makes a command and appends it to its parent's children, or to the top level. */
    method Attach(parent: Command?, use: string, op: Option<OpCommand>, ghost path: seq<string>) returns (n: Command)
      requires Current() && (parent != null ==> parent in kids && parent.op.None? && parent.path == path)
      modifies this, kids.Keys
      ensures n.op == op && n.use == use && n.path == path + [use] && fresh(n)
      ensures groups == old(groups) && paths == old(paths) && tree == old(tree) && Current()
      ensures Added(old(kids), kids, Given(parent), n) && fresh(kids.Keys - old(kids.Keys))
      ensures top == if parent == null then old(top) + [n] else old(top)
    {
      n := new Command(use, op, path + [use]);
      if parent == null {
        top := top + [n];
        kids := kids[n := []];
      } else {
        parent.children := parent.children + [n];
        kids := kids[parent := kids[parent] + [n]][n := []];
      }
    }

    /** Takes over what holds of the objects as they are. */
    method Record(groups: map<string, Command>, ghost paths: Paths, ghost tree: seq<Tree>)
      requires Current() && Consistent(groups, paths, top, kids, depth) && Prints(kids, depth, top, tree)
      modifies this`groups, this`paths, this`tree
      ensures Valid() && this.groups == groups && this.paths == paths && this.tree == tree
    {
      this.groups, this.paths, this.tree := groups, paths, tree;
    }

    method MakeGroup(parent: Command?, seg: string, key: string, ghost path: seq<string>) returns (g: Command)
      requires Valid() && |path| < depth && IsParent(kids, path, Given(parent))
      requires AllWords(path + [seg]) && path + [seg] !in paths && key == KeyOf(path + [seg])
      modifies this, kids.Keys
      ensures Valid() && fresh(kids.Keys - old(kids.Keys)) && IsParent(kids, path + [seg], Some(g))
      ensures HasGroup(old(tree), path) && tree == AddAt(old(tree), path, Group(seg, []))
    {
      g := Attach(parent, seg, None, path);
      GroupMade(groups, paths, old(top), old(kids), groups[key := g], paths + {path + [seg]}, top, kids, depth,
          Given(parent), g, path, seg);
      Record(groups[key := g], paths + {path + [seg]}, AddAt(tree, path, Group(seg, [])));
    }

    /** The group command for one more word of a path: found under its key, or made. */
    method EnsureGroup(parent: Command?, parentKey: string, seg: string, ghost path: seq<string>)
        returns (key: string, g: Command)
      requires Valid() && AllWords(path + [seg]) && |path| < depth && parentKey == KeyOf(path)
      requires IsParent(kids, path, Given(parent))
      modifies this, kids.Keys
      ensures Valid() && fresh(kids.Keys - old(kids.Keys))
      ensures key == KeyOf(path + [seg]) && IsParent(kids, path + [seg], Some(g))
      ensures HasGroup(old(tree), path) && tree == WithGroup(old(tree), path, seg)
    {
      assert (path + [seg])[..|path|] == path;
      HasParentGroup(groups, paths, tree, kids, path, Given(parent));
      key := TrimSpace(parentKey + " " + seg);
      KeyInMap(groups, paths, kids, path + [seg]);
      if key in groups {
        g := groups[key];
        return;
      }
      g := MakeGroup(parent, seg, key, path);
    }

    /** Where the loop over the words stands after `i` of them. */
    ghost predicate At(start: seq<Tree>, parts: seq<string>, i: nat, parentKey: string, parent: Command?)
      requires i <= |parts|
      reads this
    {
      parentKey == KeyOf(parts[..i]) && IsParent(kids, parts[..i], Given(parent)) && GrownTo(start, parts, i, tree)
    }

    /** One round of the loop over the words. */
    method EnsureWord(parts: seq<string>, i: nat, parentKey: string, parent: Command?, ghost start: seq<Tree>)
        returns (key: string, g: Command)
      requires Valid() && i < |parts| <= depth && AllWords(parts) && At(start, parts, i, parentKey, parent)
      modifies this, kids.Keys
      ensures Valid() && fresh(kids.Keys - old(kids.Keys)) && At(start, parts, i + 1, key, g)
    {
      GrowStep(start, parts, i);
      WordsSoFar(parts, i);
      key, g := EnsureGroup(parent, parentKey, parts[i], parts[..i]);
    }

    /** The loop over all words but the last. */
    method EnsureGroups(parts: seq<string>, n: nat) returns (parent: Command?)
      requires Valid() && n < |parts| <= depth && AllWords(parts)
      modifies this, kids.Keys
      ensures Valid() && fresh(kids.Keys - old(kids.Keys))
      ensures IsParent(kids, parts[..n], Given(parent)) && GrownTo(old(tree), parts, n, tree)
    {
      var parentKey := "";
      parent := null;
      for i := 0 to n
        invariant Valid() && fresh(kids.Keys - old(kids.Keys)) && At(old(tree), parts, i, parentKey, parent)
      {
        parentKey, parent := EnsureWord(parts, i, parentKey, parent, old(tree));
      }
    }

    method AddLeaf(parent: Command?, word: string, op: OpCommand, ghost path: seq<string>)
      requires Valid() && |path| < depth
      requires IsParent(kids, path, Given(parent))
      modifies this, kids.Keys
      ensures Valid() && fresh(kids.Keys - old(kids.Keys))
      ensures HasGroup(old(tree), path) && tree == AddAt(old(tree), path, Leaf(word, op))
    {
      var leaf := Attach(parent, word, Some(op), path);
      LeafMade(groups, paths, old(top), old(kids), top, kids, depth, Given(parent), leaf, path, word, op);
      Record(groups, paths, AddAt(tree, path, Leaf(word, op)));
    }

    /** One operation: its groups from the outside in, then its leaf. */
    method AddOperation(op: OpCommand)
      requires Valid() && Words(op) != [] && |Words(op)| <= depth
      modifies this, kids.Keys
      ensures Valid() && fresh(kids.Keys - old(kids.Keys))
      ensures tree == InsertOp(old(tree), op)
    {
      var parts := Fields(op.path);
      var n := |parts| - 1;
      var parent := EnsureGroups(parts, n);
      AddLeaf(parent, parts[n], op, parts[..n]);
    }
  }

  function Longest(ops: seq<OpCommand>): nat
  {
    if ops == [] then 0
    else
      var before, last := Longest(ops[..|ops| - 1]), |Words(ops[|ops| - 1])|;
      if last > before then last else before
  }

  lemma {:induction false} LongestBounds(ops: seq<OpCommand>)
    ensures forall op :: op in ops ==> |Words(op)| <= Longest(ops)
  {
    if ops != [] {
      LongestBounds(ops[..|ops| - 1]);
      assert ops == ops[..|ops| - 1] + [ops[|ops| - 1]];
    }
  }

  lemma BuildOneMore(ops: seq<OpCommand>, i: nat)
    requires i < |ops| && forall op :: op in ops ==> Words(op) != []
    ensures Build(ops[..i + 1]) == InsertOp(Build(ops[..i]), ops[i])
  {
    assert ops[..i + 1][..i] == ops[..i];
  }

  /** The top-level commands; together with their children they print as the tree of the declared paths. */
  method OperationCommands(ops: seq<OpCommand>) returns (top: seq<Command>, ghost kids: Kids)
    requires forall op :: op in ops ==> Words(op) != []
    ensures forall c :: c in kids ==> c.children == kids[c]
    ensures Shaped(kids, Longest(ops)) && Listed(kids, top, [])
    ensures Forest(kids, Longest(ops), top) == Build(ops)
  {
    var b := new Builder(Longest(ops));
    LongestBounds(ops);
    for i := 0 to |ops|
      invariant fresh(b) && fresh(b.kids.Keys) && b.Valid()
      invariant b.tree == Build(ops[..i])
    {
      b.AddOperation(ops[i]);
      BuildOneMore(ops, i);
    }
    assert ops[..|ops|] == ops;
    top, kids := b.top, b.kids;
  }
}
