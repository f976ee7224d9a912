/**
 The tree a list of operation paths stands for: multi-word paths nest under shared groups. Paths
 are inserted one by one; what the finished tree contains is said independently of that.
 */
module CommandTree {
  import opened Basics
  import opened Strings

  datatype OpCommand = OpCommand(path: string, typ: string)

  // ---------- Words ----------

  predicate NoSpace(w: string) { forall c :: c in w ==> !IsSpace(c) }

  predicate IsWord(w: string) { w != [] && NoSpace(w) }

  /** The text up to the first white space. */
  function Word(s: string): (w: string)
    ensures |w| <= |s| && w == s[..|w|]
    ensures NoSpace(w)
    ensures s != [] && !IsSpace(s[0]) ==> w != []
  {
    if s == [] || IsSpace(s[0]) then [] else [s[0]] + Word(s[1..])
  }

  /** The words of a text, separated by any white space. */
  function Fields(s: string): (words: seq<string>)
    ensures forall w :: w in words ==> IsWord(w)
    decreases |s|
  {
    if s == [] then []
    else if IsSpace(s[0]) then Fields(s[1..])
    else [Word(s)] + Fields(s[|Word(s)|..])
  }

  /** Words with white space around and between them. */
  function Spaced(words: seq<string>, gaps: seq<string>): string
    requires |gaps| == |words| + 1
  {
    if words == [] then gaps[0] else gaps[0] + words[0] + Spaced(words[1..], gaps[1..])
  }

  /** Splitting at white space gives back the words, whatever white space separates and surrounds them. */
  lemma {:induction false} FieldsOfSpaced(words: seq<string>, gaps: seq<string>)
    requires |gaps| == |words| + 1 && (forall w :: w in words ==> IsWord(w)) && forall g :: g in gaps ==> AllSpace(g)
    requires forall i :: 0 < i < |words| ==> gaps[i] != ""
    ensures Fields(Spaced(words, gaps)) == words
  {
    if words == [] {
      FieldsSkipSpace(gaps[0], "");
      assert gaps[0] + "" == gaps[0];
    } else {
      var rest := Spaced(words[1..], gaps[1..]);
      assert forall i :: 0 < i < |words[1..]| ==> gaps[1..][i] == gaps[i + 1];
      FieldsOfSpaced(words[1..], gaps[1..]);
      assert rest == "" || IsSpace(rest[0]) by {
        SpacedStart(words[1..], gaps[1..]);
      }
      assert gaps[0] + words[0] + rest == gaps[0] + (words[0] + rest);
      FieldsSkipSpace(gaps[0], words[0] + rest);
      FieldsTakeWord(words[0], rest);
      assert words == [words[0]] + words[1..];
    }
  }

  lemma SpacedStart(words: seq<string>, gaps: seq<string>)
    requires |gaps| == |words| + 1 && (forall g :: g in gaps ==> AllSpace(g)) && (words != [] ==> gaps[0] != "")
    ensures Spaced(words, gaps) == "" || IsSpace(Spaced(words, gaps)[0])
  {
    assert gaps[0] in gaps;
    assert gaps[0] != "" ==> Spaced(words, gaps)[0] == gaps[0][0] && gaps[0][0] in gaps[0];
  }

  lemma {:induction false} FieldsSkipSpace(gap: string, rest: string)
    requires AllSpace(gap)
    ensures Fields(gap + rest) == Fields(rest)
  {
    if gap == "" {
      assert gap + rest == rest;
    } else {
      assert (gap + rest)[1..] == gap[1..] + rest;
      assert gap[0] in gap;
      FieldsSkipSpace(gap[1..], rest);
    }
  }

  lemma FieldsTakeWord(w: string, rest: string)
    requires IsWord(w) && (rest == "" || IsSpace(rest[0]))
    ensures Fields(w + rest) == [w] + Fields(rest)
  {
    WordAtStart(w, rest);
    assert w[0] in w && (w + rest)[0] == w[0];
    assert (w + rest)[|w|..] == rest;
  }

  lemma {:induction false} WordAtStart(w: string, rest: string)
    requires NoSpace(w) && (rest == "" || IsSpace(rest[0]))
    ensures Word(w + rest) == w
  {
    if w == "" {
      assert w + rest == rest;
    } else {
      assert (w + rest)[1..] == w[1..] + rest && w[0] in w;
      WordAtStart(w[1..], rest);
      assert w == [w[0]] + w[1..];
    }
  }

  function Words(op: OpCommand): seq<string> { Fields(op.path) }

  // ---------- Trees ----------

  datatype Tree = Leaf(word: string, op: OpCommand) | Group(word: string, kids: seq<Tree>)

  /** The first group of that name; the length when there is none. */
  function GroupAt(ts: seq<Tree>, word: string): (i: nat)
    ensures i <= |ts| && (i < |ts| ==> ts[i].Group? && ts[i].word == word)
    ensures forall j :: 0 <= j < i ==> !(ts[j].Group? && ts[j].word == word)
  {
    if ts == [] then 0
    else if ts[0].Group? && ts[0].word == word then 0
    else 1 + GroupAt(ts[1..], word)
  }

  predicate HasGroup(ts: seq<Tree>, path: seq<string>)
    decreases |path|
  {
    path == [] || (var i := GroupAt(ts, path[0]); i < |ts| && HasGroup(ts[i].kids, path[1..]))
  }

  /** `t` appended to the children of the group at `path`. */
  function AddAt(ts: seq<Tree>, path: seq<string>, t: Tree): seq<Tree>
    requires HasGroup(ts, path)
    decreases |path|
  {
    if path == [] then ts + [t]
    else
      var i := GroupAt(ts, path[0]);
      ts[i := Group(path[0], AddAt(ts[i].kids, path[1..], t))]
  }

  lemma GroupAtAppend(ts: seq<Tree>, t: Tree, word: string)
    ensures GroupAt(ts + [t], word) ==
            if GroupAt(ts, word) < |ts| then GroupAt(ts, word)
            else if t.Group? && t.word == word then |ts| else |ts| + 1
  {
    var i, j := GroupAt(ts, word), GroupAt(ts + [t], word);
    if i < |ts| {
      assert (ts + [t])[i] == ts[i];
    }
    if j < |ts| {
      assert (ts + [t])[j] == ts[j];
    }
    if t.Group? && t.word == word {
      assert (ts + [t])[|ts|] == t;
    }
  }

  lemma GroupAtUpdate(ts: seq<Tree>, i: nat, kids: seq<Tree>, word: string)
    requires i < |ts| && ts[i].Group?
    ensures GroupAt(ts[i := Group(ts[i].word, kids)], word) == GroupAt(ts, word)
  {
    var us := ts[i := Group(ts[i].word, kids)];
    var a, b := GroupAt(ts, word), GroupAt(us, word);
    if a < |ts| {
      assert us[a].Group? && us[a].word == word;
    }
    if b < |ts| {
      assert ts[b].Group? && ts[b].word == word;
    }
  }

  /** Adding a node changes which groups exist by at most that node. */
  lemma {:induction false} HasGroupAfterAdd(ts: seq<Tree>, path: seq<string>, t: Tree, q: seq<string>)
    requires HasGroup(ts, path) && (t.Group? ==> t.kids == [] && !HasGroup(ts, path + [t.word]))
    ensures HasGroup(AddAt(ts, path, t), q) <==> HasGroup(ts, q) || (t.Group? && q == path + [t.word])
    decreases |path|
  {
    if q == [] {
    } else if path == [] {
      GroupAtAppend(ts, t, q[0]);
      if t.Group? {
        assert [t.word][1..] == [];
        assert GroupAt(ts, t.word) == |ts|;
        if q[0] == t.word {
          assert q == [t.word] <==> q[1..] == [];
          assert q[1..] != [] ==> GroupAt([], q[1..][0]) == 0;
        }
      }
    } else {
      var i := GroupAt(ts, path[0]);
      var kids := AddAt(ts[i].kids, path[1..], t);
      GroupAtUpdate(ts, i, kids, q[0]);
      assert (path + [t.word])[1..] == path[1..] + [t.word];
      if q[0] == path[0] {
        HasGroupAfterAdd(ts[i].kids, path[1..], t, q[1..]);
        assert q == [q[0]] + q[1..];
        assert path + [t.word] == [path[0]] + (path[1..] + [t.word]);
      }
    }
  }

  /** The tree with groups for the first `n` words of a path, made one by one where missing. */
  function Grow(ts: seq<Tree>, words: seq<string>, n: nat): (r: seq<Tree>)
    requires n <= |words|
    ensures HasGroup(r, words[..n])
  {
    if n == 0 then ts
    else
      var t := Grow(ts, words, n - 1);
      if HasGroup(t, words[..n]) then t
      else
        assert words[..n - 1] + [words[n - 1]] == words[..n];
        HasGroupAfterAdd(t, words[..n - 1], Group(words[n - 1], []), words[..n]);
        AddAt(t, words[..n - 1], Group(words[n - 1], []))
  }

  function InsertOp(ts: seq<Tree>, op: OpCommand): seq<Tree>
    requires Words(op) != []
  {
    var words := Words(op);
    var n := |words| - 1;
    AddAt(Grow(ts, words, n), words[..n], Leaf(words[n], op))
  }

  function Build(ops: seq<OpCommand>): seq<Tree>
    requires forall op :: op in ops ==> Words(op) != []
  {
    if ops == [] then [] else InsertOp(Build(ops[..|ops| - 1]), ops[|ops| - 1])
  }

  // ---------- What a tree contains ----------

  /** All nodes with their full paths: groups with no operation, leaves with theirs. */
  function Nodes(prefix: seq<string>, ts: seq<Tree>): multiset<(seq<string>, Option<OpCommand>)>
    decreases ts
  {
    if ts == [] then multiset{} else NodesOf(prefix, ts[0]) + Nodes(prefix, ts[1..])
  }

  function NodesOf(prefix: seq<string>, t: Tree): multiset<(seq<string>, Option<OpCommand>)>
    decreases t
  {
    match t
    case Leaf(word, op) => multiset{(prefix + [word], Some(op))}
    case Group(word, kids) => multiset{(prefix + [word], None)} + Nodes(prefix + [word], kids)
  }

  lemma {:induction false} NodesConcat(prefix: seq<string>, a: seq<Tree>, b: seq<Tree>)
    ensures Nodes(prefix, a + b) == Nodes(prefix, a) + Nodes(prefix, b)
  {
    if a == [] {
      assert a + b == b;
    } else {
      assert (a + b)[1..] == a[1..] + b && (a + b)[0] == a[0];
      NodesConcat(prefix, a[1..], b);
    }
  }

  lemma NodesOfOne(prefix: seq<string>, t: Tree)
    ensures Nodes(prefix, [t]) == NodesOf(prefix, t)
  {
    assert [t][1..] == [];
  }

  /** Adding a node somewhere adds exactly its own nodes, under their full path. */
  lemma {:induction false} NodesAfterAdd(prefix: seq<string>, ts: seq<Tree>, path: seq<string>, t: Tree)
    requires HasGroup(ts, path)
    ensures Nodes(prefix, AddAt(ts, path, t)) == Nodes(prefix, ts) + Nodes(prefix + path, [t])
    decreases |path|
  {
    if path == [] {
      NodesConcat(prefix, ts, [t]);
      assert prefix + path == prefix;
    } else {
      var i := GroupAt(ts, path[0]);
      var kids := AddAt(ts[i].kids, path[1..], t);
      NodesAfterAdd(prefix + [path[0]], ts[i].kids, path[1..], t);
      assert prefix + [path[0]] + path[1..] == prefix + path;
      NodesReplaced(prefix, ts, i, kids, Nodes(prefix + path, [t]));
    }
  }

  lemma NodesReplaced(prefix: seq<string>, ts: seq<Tree>, i: nat, kids: seq<Tree>,
                      more: multiset<(seq<string>, Option<OpCommand>)>)
    requires i < |ts| && ts[i].Group? && Nodes(prefix + [ts[i].word], kids)
             == Nodes(prefix + [ts[i].word], ts[i].kids) + more
    ensures Nodes(prefix, ts[i := Group(ts[i].word, kids)]) == Nodes(prefix, ts) + more
  {
    var u := Group(ts[i].word, kids);
    assert ts == ts[..i] + ([ts[i]] + ts[i + 1..]);
    assert ts[i := u] == ts[..i] + ([u] + ts[i + 1..]);
    NodesConcat(prefix, ts[..i], [ts[i]] + ts[i + 1..]);
    NodesConcat(prefix, ts[..i], [u] + ts[i + 1..]);
    NodesConcat(prefix, [ts[i]], ts[i + 1..]);
    NodesConcat(prefix, [u], ts[i + 1..]);
    NodesOfOne(prefix, ts[i]);
    NodesOfOne(prefix, u);
  }

  /** A group node for every existing group, and only one. */
  ghost predicate OneNodePerGroup(ts: seq<Tree>)
  {
    forall path :: path != [] ==> Nodes([], ts)[(path, None)] == if HasGroup(ts, path) then 1 else 0
  }

  lemma AddKeepsOneNode(ts: seq<Tree>, path: seq<string>, t: Tree)
    requires OneNodePerGroup(ts) && HasGroup(ts, path)
    requires t.Group? ==> t.kids == [] && !HasGroup(ts, path + [t.word])
    ensures OneNodePerGroup(AddAt(ts, path, t))
    ensures forall q, op :: Nodes([], AddAt(ts, path, t))[(q, Some(op))] ==
              Nodes([], ts)[(q, Some(op))] + if t == Leaf(t.word, op) && q == path + [t.word] then 1 else 0
    ensures forall q :: HasGroup(AddAt(ts, path, t), q) <==> HasGroup(ts, q) || (t.Group? && q == path + [t.word])
  {
    NodesAfterAdd([], ts, path, t);
    NodesOfOne(path, t);
    assert [] + path == path;
    forall q
      ensures HasGroup(AddAt(ts, path, t), q) <==> HasGroup(ts, q) || (t.Group? && q == path + [t.word])
    {
      HasGroupAfterAdd(ts, path, t, q);
    }
  }

  predicate Prefix(p: seq<string>, words: seq<string>)
  {
    |p| <= |words| && p == words[..|p|]
  }

  /** `p` is a nonempty proper prefix of `words`. */
  predicate ProperPrefix(p: seq<string>, words: seq<string>)
  {
    p != [] && p != words && Prefix(p, words)
  }

  lemma {:induction false} GrowAdds(ts: seq<Tree>, words: seq<string>, n: nat)
    requires n <= |words| && OneNodePerGroup(ts)
    ensures OneNodePerGroup(Grow(ts, words, n))
    ensures forall q, op :: Nodes([], Grow(ts, words, n))[(q, Some(op))] == Nodes([], ts)[(q, Some(op))]
    ensures forall q :: HasGroup(Grow(ts, words, n), q) <==> HasGroup(ts, q) || Prefix(q, words[..n])
    decreases n
  {
    if n == 0 {
      assert forall q :: Prefix(q, words[..0]) ==> q == [];
    } else {
      GrowAdds(ts, words, n - 1);
      var t := Grow(ts, words, n - 1);
      assert words[..n] == words[..n - 1] + [words[n - 1]];
      if !HasGroup(t, words[..n]) {
        AddKeepsOneNode(t, words[..n - 1], Group(words[n - 1], []));
      }
      PrefixesGrow(words, n);
      forall q
        ensures HasGroup(Grow(ts, words, n), q) <==> HasGroup(ts, q) || Prefix(q, words[..n])
      {
        assert Prefix(q, words[..n]) <==> Prefix(q, words[..n - 1]) || q == words[..n];
      }
    }
  }

  lemma PrefixesGrow(words: seq<string>, n: nat)
    requires 0 < n <= |words|
    ensures forall q :: Prefix(q, words[..n]) <==> Prefix(q, words[..n - 1]) || q == words[..n]
  {
    forall q
      ensures Prefix(q, words[..n]) <==> Prefix(q, words[..n - 1]) || q == words[..n]
    {
      if |q| < n {
        assert words[..n][..|q|] == words[..n - 1][..|q|];
      } else if |q| == n {
        assert words[..n][..|q|] == words[..n];
      }
    }
  }

  ghost predicate IsPrefixOfSome(path: seq<string>, ops: seq<OpCommand>)
  {
    exists i :: 0 <= i < |ops| && ProperPrefix(path, Words(ops[i]))
  }

  function Declared(ops: seq<OpCommand>): multiset<(seq<string>, OpCommand)>
  {
    if ops == [] then multiset{}
    else Declared(ops[..|ops| - 1]) + multiset{(Words(ops[|ops| - 1]), ops[|ops| - 1])}
  }

  lemma InsertAdds(ts: seq<Tree>, op: OpCommand)
    requires Words(op) != [] && OneNodePerGroup(ts)
    ensures OneNodePerGroup(InsertOp(ts, op))
    ensures forall q, o :: Nodes([], InsertOp(ts, op))[(q, Some(o))] ==
              Nodes([], ts)[(q, Some(o))] + if o == op && q == Words(op) then 1 else 0
    ensures forall q :: q != [] ==> (HasGroup(InsertOp(ts, op), q) <==> HasGroup(ts, q) || ProperPrefix(q, Words(op)))
  {
    var words := Words(op);
    var n := |words| - 1;
    GrowAdds(ts, words, n);
    AddKeepsOneNode(Grow(ts, words, n), words[..n], Leaf(words[n], op));
    assert words[..n] + [words[n]] == words;
    PrefixesGrow(words, |words|);
    assert words[..|words|] == words;
  }

  /**
   Flattening the finished tree gives exactly the declared operations under their paths, each as
   often as declared, and every distinct proper prefix has exactly one group node.
   */
  lemma {:induction false} TreeIsExact(ops: seq<OpCommand>)
    requires forall op :: op in ops ==> Words(op) != []
    ensures forall path, op :: Nodes([], Build(ops))[(path, Some(op))] == Declared(ops)[(path, op)]
    ensures forall path :: path != [] ==>
            Nodes([], Build(ops))[(path, None)] == if IsPrefixOfSome(path, ops) then 1 else 0
    ensures OneNodePerGroup(Build(ops))
    ensures forall path :: path != [] ==> (HasGroup(Build(ops), path) <==> IsPrefixOfSome(path, ops))
  {
    if ops != [] {
      var init, last := ops[..|ops| - 1], ops[|ops| - 1];
      assert ops == init + [last];
      TreeIsExact(init);
      InsertAdds(Build(init), last);
      forall path
        ensures IsPrefixOfSome(path, ops) <==> IsPrefixOfSome(path, init) || ProperPrefix(path, Words(last))
      {
        if IsPrefixOfSome(path, init) {
          var i :| 0 <= i < |init| && ProperPrefix(path, Words(init[i]));
          assert ops[i] == init[i];
        }
        if ProperPrefix(path, Words(last)) {
          assert ops[|init|] == last;
        }
      }
    }
  }

  // ---------- The order of the top level ----------

  datatype Top = TopLeaf(op: OpCommand) | TopGroup(word: string)

  function Tops(ts: seq<Tree>): seq<Top>
  {
    seq(|ts|, i requires 0 <= i < |ts| => if ts[i].Leaf? then TopLeaf(ts[i].op) else TopGroup(ts[i].word))
  }

  /** One-word operations in order, and each first word of longer ones where it is first seen. */
  function FirstSeen(ops: seq<OpCommand>): seq<Top>
    requires forall op :: op in ops ==> Words(op) != []
  {
    if ops == [] then []
    else
      var before, last := FirstSeen(ops[..|ops| - 1]), ops[|ops| - 1];
      if |Words(last)| == 1 then before + [TopLeaf(last)]
      else if TopGroup(Words(last)[0]) in before then before
      else before + [TopGroup(Words(last)[0])]
  }

  lemma TopsAfterAdd(ts: seq<Tree>, path: seq<string>, t: Tree)
    requires HasGroup(ts, path)
    ensures Tops(AddAt(ts, path, t)) == if path == [] then Tops(ts) + Tops([t]) else Tops(ts)
  {
  }

  lemma {:induction false} TopsAfterGrow(ts: seq<Tree>, words: seq<string>, n: nat)
    requires n <= |words|
    ensures Tops(Grow(ts, words, n)) ==
            if n == 0 || TopGroup(words[0]) in Tops(ts) then Tops(ts) else Tops(ts) + [TopGroup(words[0])]
    decreases n
  {
    if n > 0 {
      TopsAfterGrow(ts, words, n - 1);
      var t := Grow(ts, words, n - 1);
      if !HasGroup(t, words[..n]) {
        TopsAfterAdd(t, words[..n - 1], Group(words[n - 1], []));
      }
      if n == 1 {
        HasTopGroup(ts, words[0]);
        assert words[..1] == [words[0]] && words[..0] == [];
        assert Tops([Group(words[0], [])]) == [TopGroup(words[0])];
      }
    }
  }

  lemma HasTopGroup(ts: seq<Tree>, word: string)
    ensures HasGroup(ts, [word]) <==> TopGroup(word) in Tops(ts)
  {
    assert [word][1..] == [];
    var i := GroupAt(ts, word);
    if i < |ts| {
      assert Tops(ts)[i] == TopGroup(word);
    }
    if TopGroup(word) in Tops(ts) {
      var j :| 0 <= j < |ts| && Tops(ts)[j] == TopGroup(word);
      assert ts[j].Group? && ts[j].word == word;
    }
  }

  /** Commands appear at the top in the order they were first needed. */
  lemma {:induction false} TopOrderIsFirstSeen(ops: seq<OpCommand>)
    requires forall op :: op in ops ==> Words(op) != []
    ensures Tops(Build(ops)) == FirstSeen(ops)
  {
    if ops != [] {
      var init, last := ops[..|ops| - 1], ops[|ops| - 1];
      TopOrderIsFirstSeen(init);
      var words := Words(last);
      var n := |words| - 1;
      TopsAfterGrow(Build(init), words, n);
      TopsAfterAdd(Grow(Build(init), words, n), words[..n], Leaf(words[n], last));
      assert Tops([Leaf(words[n], last)]) == [TopLeaf(last)];
    }
  }
}
