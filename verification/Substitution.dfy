/**
 Placeholder substitution in a consent summary. The code replaces the placeholders one name
 after the other while iterating over a map, so the order is arbitrary. For summaries, names and
 values without stray braces every order gives the simultaneous substitution.
 */
module Substitution {
  import opened Basics

  /** Every non-overlapping occurrence of `pattern`, leftmost first, replaced by `value`. */
  function ReplaceAll(s: string, pattern: string, value: string): string
    requires pattern != []
    decreases |s|
  {
    if |s| < |pattern| then s
    else if pattern <= s then value + ReplaceAll(s[|pattern|..], pattern, value)
    else [s[0]] + ReplaceAll(s[1..], pattern, value)
  }

  function Placeholder(name: string): string { "{" + name + "}" }

  predicate BraceFree(s: string) { '{' !in s && '}' !in s }

  // ---------- Summaries as text and holes ----------

  datatype Piece = Text(text: string) | Hole(name: string)

  predicate PieceOk(p: Piece)
  {
    match p case Text(t) => BraceFree(t) case Hole(n) => BraceFree(n)
  }

  function Print(pieces: seq<Piece>): string
  {
    if pieces == [] then ""
    else (match pieces[0] case Text(t) => t case Hole(n) => Placeholder(n)) + Print(pieces[1..])
  }

  /** A summary whose braces are only well-formed, unnested placeholders. */
  ghost predicate IsSummary(summary: string, pieces: seq<Piece>)
  {
    Print(pieces) == summary && forall p :: p in pieces ==> PieceOk(p)
  }

  /** The simultaneous substitution: a hole with a value becomes it, other holes stay. */
  function Fill(pieces: seq<Piece>, values: map<string, string>): seq<Piece>
  {
    seq(|pieces|, i requires 0 <= i < |pieces| =>
      match pieces[i]
      case Text(t) => Text(t)
      case Hole(n) => if n in values then Text(values[n]) else Hole(n))
  }

  function Simultaneous(pieces: seq<Piece>, values: map<string, string>): string
  {
    Print(Fill(pieces, values))
  }

  ghost predicate CleanValues(values: map<string, string>)
  {
    forall n :: n in values ==> BraceFree(n) && BraceFree(values[n])
  }

  // ---------- One replacement is one filled hole ----------

  /** A character at which the pattern does not start is copied unchanged. */
  lemma ReplaceSkipsOne(c: char, rest: string, pattern: string, value: string)
    requires pattern != [] && !(pattern <= [c] + rest)
    ensures ReplaceAll([c] + rest, pattern, value) == [c] + ReplaceAll(rest, pattern, value)
  {
    assert ([c] + rest)[1..] == rest;
  }

  lemma HeadFirst(t: string, rest: string)
    requires t != []
    ensures t + rest == [t[0]] + (t[1..] + rest)
  {
  }

  /** Text without an opening brace is copied unchanged in front of a placeholder pattern. */
  lemma {:induction false} ReplaceSkipsText(t: string, rest: string, name: string, value: string)
    requires '{' !in t
    ensures ReplaceAll(t + rest, Placeholder(name), value) == t + ReplaceAll(rest, Placeholder(name), value)
    decreases |t|
  {
    var p := Placeholder(name);
    if t == [] {
      assert t + rest == rest;
    } else {
      ReplaceSkipsText(t[1..], rest, name, value);
      assert p[0] == '{' && ([t[0]] + (t[1..] + rest))[0] != '{';
      ReplaceSkipsOne(t[0], t[1..] + rest, p, value);
      HeadFirst(t, rest);
      HeadFirst(t, ReplaceAll(rest, p, value));
    }
  }

  lemma {:induction false} ClosingBraceDecides(name: string, other: string, rest: string)
    requires BraceFree(name) && BraceFree(other) && Placeholder(name) <= Placeholder(other) + rest
    ensures name == other
  {
    var p, s := Placeholder(name), Placeholder(other) + rest;
    assert forall i :: 0 <= i < |p| ==> s[i] == p[i];
    assert forall i :: 0 <= i < |name| ==> p[i + 1] == name[i];
    assert forall i :: 0 <= i < |other| ==> s[i + 1] == other[i];
    assert p[|name| + 1] == '}' && s[|other| + 1] == '}';
    assert |name| == |other|;
    forall i | 0 <= i < |name|
      ensures name[i] == other[i]
    {
      assert s[i + 1] == p[i + 1];
    }
  }

  /** A placeholder of another name is copied unchanged. */
  lemma ReplaceSkipsHole(name: string, value: string, hole: string, rest: string)
    requires BraceFree(name) && BraceFree(hole) && hole != name
    ensures ReplaceAll(Placeholder(hole) + rest, Placeholder(name), value)
            == Placeholder(hole) + ReplaceAll(rest, Placeholder(name), value)
  {
    var tail := hole + "}";
    HoleIsBraceThenText(hole, rest);
    HoleIsBraceThenText(hole, ReplaceAll(rest, Placeholder(name), value));
    if Placeholder(name) <= Placeholder(hole) + rest {
      ClosingBraceDecides(name, hole, rest);
    }
    ReplaceSkipsOne('{', tail + rest, Placeholder(name), value);
    ReplaceSkipsText(tail, rest, name, value);
  }

  lemma HoleIsBraceThenText(hole: string, rest: string)
    ensures Placeholder(hole) + rest == ['{'] + ((hole + "}") + rest)
  {
  }

  lemma ReplaceAtHole(name: string, value: string, hole: string, rest: string)
    requires BraceFree(name) && BraceFree(hole)
    ensures ReplaceAll(Placeholder(hole) + rest, Placeholder(name), value)
            == (if hole == name then value else Placeholder(hole)) + ReplaceAll(rest, Placeholder(name), value)
  {
    if hole == name {
      var p, s := Placeholder(name), Placeholder(hole) + rest;
      assert p <= s && s[|p|..] == rest;
    } else {
      ReplaceSkipsHole(name, value, hole, rest);
    }
  }

  lemma {:induction false} ReplaceFillsHoles(pieces: seq<Piece>, name: string, value: string)
    requires BraceFree(name) && forall p :: p in pieces ==> PieceOk(p)
    ensures ReplaceAll(Print(pieces), Placeholder(name), value) == Print(Fill(pieces, map[name := value]))
  {
    if pieces != [] {
      assert Fill(pieces, map[name := value])[1..] == Fill(pieces[1..], map[name := value]);
      ReplaceFillsHoles(pieces[1..], name, value);
      assert PieceOk(pieces[0]);
      match pieces[0] {
        case Text(t) => ReplaceSkipsText(t, Print(pieces[1..]), name, value);
        case Hole(n) => ReplaceAtHole(name, value, n, Print(pieces[1..]));
      }
    }
  }

  // ---------- The loop over the map ----------

  /** The values replaced so far, as the loop goes through the names in `order`. */
  ghost predicate DoneSoFar(order: seq<string>, done: map<string, string>, values: map<string, string>)
  {
    && (forall n :: n in done <==> n in order)
    && (forall n :: n in order ==> n in values && done[n] == values[n])
    && NoDuplicates(order)
  }

  /** The summary after the replacements made for the names of `order`, one after the other. */
  ghost function Sequential(summary: string, order: seq<string>, values: map<string, string>): string
    requires forall n :: n in order ==> n in values
  {
    if order == [] then summary
    else
      var n := order[|order| - 1];
      ReplaceAll(Sequential(summary, order[..|order| - 1], values), Placeholder(n), values[n])
  }

  ghost predicate Rendering(summary: string, values: map<string, string>, rendered: string)
  {
    exists order, done :: DoneSoFar(order, done, values) && done.Keys == values.Keys
                          && rendered == Sequential(summary, order, values)
  }

  method RenderSummary(summary: string, values: map<string, string>) returns (rendered: string)
    ensures Rendering(summary, values, rendered)
  {
    rendered := summary;
    var todo := values.Keys;
    ghost var order: seq<string> := [];
    ghost var done: map<string, string> := map[];
    while todo != {}
      invariant todo <= values.Keys && done.Keys == values.Keys - todo
      invariant DoneSoFar(order, done, values)
      invariant rendered == Sequential(summary, order, values)
      decreases todo
    {
      var name :| name in todo;
      todo := todo - {name};
      rendered := ReplaceAll(rendered, Placeholder(name), values[name]);
      assert (order + [name])[..|order|] == order;
      order, done := order + [name], done[name := values[name]];
    }
    assert done.Keys == values.Keys;
  }

  /** Filling the holes of one more name, after those of `before`, is filling them all at once. */
  lemma FillOneMore(pieces: seq<Piece>, before: map<string, string>, n: string, value: string)
    requires (forall p :: p in pieces ==> PieceOk(p)) && CleanValues(before) && n !in before
    ensures forall p :: p in Fill(pieces, before) ==> PieceOk(p)
    ensures Fill(Fill(pieces, before), map[n := value]) == Fill(pieces, before[n := value])
  {
    forall i | 0 <= i < |pieces|
      ensures PieceOk(Fill(pieces, before)[i])
    {
      assert PieceOk(pieces[i]);
    }
  }

  lemma DoneBefore(order: seq<string>, done: map<string, string>, values: map<string, string>)
    requires order != [] && DoneSoFar(order, done, values)
    ensures var init, n := order[..|order| - 1], order[|order| - 1];
            DoneSoFar(init, done - {n}, values) && (done - {n})[n := values[n]] == done
  {
    assert order == order[..|order| - 1] + [order[|order| - 1]];
  }

  lemma {:induction false} SequentialIsSimultaneous(summary: string, pieces: seq<Piece>, order: seq<string>,
                                                    done: map<string, string>, values: map<string, string>)
    requires IsSummary(summary, pieces) && CleanValues(values) && DoneSoFar(order, done, values)
    ensures Sequential(summary, order, values) == Simultaneous(pieces, done)
    decreases |order|
  {
    if order == [] {
      assert done == map[];
      assert Fill(pieces, done) == pieces;
    } else {
      var init, n := order[..|order| - 1], order[|order| - 1];
      var before := done - {n};
      DoneBefore(order, done, values);
      SequentialIsSimultaneous(summary, pieces, init, before, values);
      FillOneMore(pieces, before, n, values[n]);
      ReplaceFillsHoles(Fill(pieces, before), n, values[n]);
    }
  }

  /** Confluence: whatever order the map is iterated in, the rendering is the simultaneous substitution. */
  lemma RenderingIsSimultaneous(summary: string, pieces: seq<Piece>, values: map<string, string>, rendered: string)
    requires IsSummary(summary, pieces) && CleanValues(values) && Rendering(summary, values, rendered)
    ensures rendered == Simultaneous(pieces, values)
  {
    var order, done :| DoneSoFar(order, done, values) && done.Keys == values.Keys
                       && rendered == Sequential(summary, order, values);
    assert done == values;
    SequentialIsSimultaneous(summary, pieces, order, done, values);
  }

  // ---------- Values that are summaries themselves ----------

  predicate AllOk(pieces: seq<Piece>) { forall p :: p in pieces ==> PieceOk(p) }

  /** The pieces every value is made of. */
  ghost predicate Spelled(values: map<string, string>, spelling: map<string, seq<Piece>>)
  {
    forall n :: n in values ==> BraceFree(n) && n in spelling && AllOk(spelling[n]) && Print(spelling[n]) == values[n]
  }

  function PieceFilled(p: Piece, name: string, value: seq<Piece>): seq<Piece>
  {
    if p == Hole(name) then value else [p]
  }

  function Splice(pieces: seq<Piece>, name: string, value: seq<Piece>): seq<Piece>
  {
    if pieces == [] then [] else PieceFilled(pieces[0], name, value) + Splice(pieces[1..], name, value)
  }

  lemma {:induction false} PrintAppend(a: seq<Piece>, b: seq<Piece>)
    ensures Print(a + b) == Print(a) + Print(b)
  {
    if a == [] {
      assert a + b == b;
    } else {
      assert (a + b)[0] == a[0] && (a + b)[1..] == a[1..] + b;
      PrintAppend(a[1..], b);
    }
  }

  lemma {:induction false} SpliceAppend(a: seq<Piece>, b: seq<Piece>, name: string, value: seq<Piece>)
    ensures Splice(a + b, name, value) == Splice(a, name, value) + Splice(b, name, value)
  {
    if a == [] {
      assert a + b == b;
    } else {
      assert (a + b)[0] == a[0] && (a + b)[1..] == a[1..] + b;
      SpliceAppend(a[1..], b, name, value);
    }
  }

  lemma {:induction false} SpliceMembers(pieces: seq<Piece>, name: string, value: seq<Piece>)
    ensures forall p :: p in Splice(pieces, name, value) <==>
              (p in pieces && p != Hole(name)) || (Hole(name) in pieces && p in value)
  {
    if pieces != [] {
      assert pieces == [pieces[0]] + pieces[1..];
      SpliceMembers(pieces[1..], name, value);
    }
  }

  lemma {:induction false} NothingToSplice(pieces: seq<Piece>, name: string, value: seq<Piece>)
    requires Hole(name) !in pieces
    ensures Splice(pieces, name, value) == pieces
  {
    if pieces != [] {
      assert pieces == [pieces[0]] + pieces[1..];
      NothingToSplice(pieces[1..], name, value);
    }
  }

  lemma {:induction false} ReplaceSplices(pieces: seq<Piece>, name: string, value: seq<Piece>)
    requires BraceFree(name) && AllOk(pieces)
    ensures ReplaceAll(Print(pieces), Placeholder(name), Print(value)) == Print(Splice(pieces, name, value))
  {
    if pieces != [] {
      var rest := pieces[1..];
      ReplaceSplices(rest, name, value);
      PrintAppend(PieceFilled(pieces[0], name, value), Splice(rest, name, value));
      assert PieceOk(pieces[0]);
      match pieces[0] {
        case Text(t) =>
          ReplaceSkipsText(t, Print(rest), name, Print(value));
          PrintOne(pieces[0]);
        case Hole(n) =>
          ReplaceAtHole(name, Print(value), n, Print(rest));
          PrintOne(pieces[0]);
      }
    }
  }

  lemma PrintOne(p: Piece)
    ensures Print([p]) == match p case Text(t) => t case Hole(n) => Placeholder(n)
  {
    assert [p][1..] == [];
  }

  ghost function SequentialPieces(pieces: seq<Piece>, order: seq<string>, spelling: map<string, seq<Piece>>): seq<Piece>
    requires forall n :: n in order ==> n in spelling
  {
    if order == [] then pieces
    else
      var n := order[|order| - 1];
      Splice(SequentialPieces(pieces, order[..|order| - 1], spelling), n, spelling[n])
  }

  lemma {:induction false} SequentialPrints(summary: string, pieces: seq<Piece>, order: seq<string>,
                                            values: map<string, string>, spelling: map<string, seq<Piece>>)
    requires IsSummary(summary, pieces) && Spelled(values, spelling) && forall n :: n in order ==> n in values
    ensures AllOk(SequentialPieces(pieces, order, spelling))
    ensures Sequential(summary, order, values) == Print(SequentialPieces(pieces, order, spelling))
  {
    if order != [] {
      var init, n := order[..|order| - 1], order[|order| - 1];
      SequentialPrints(summary, pieces, init, values, spelling);
      ReplaceSplices(SequentialPieces(pieces, init, spelling), n, spelling[n]);
      SpliceMembers(SequentialPieces(pieces, init, spelling), n, spelling[n]);
    }
  }

  lemma {:induction false} HoleStays(pieces: seq<Piece>, order: seq<string>, spelling: map<string, seq<Piece>>,
                                     name: string)
    requires (forall n :: n in order ==> n in spelling) && name !in order && Hole(name) in pieces
    ensures Hole(name) in SequentialPieces(pieces, order, spelling)
  {
    if order != [] {
      var init, n := order[..|order| - 1], order[|order| - 1];
      HoleStays(pieces, init, spelling, name);
      SpliceMembers(SequentialPieces(pieces, init, spelling), n, spelling[n]);
    }
  }

  lemma {:induction false} SpliceNothingShortens(pieces: seq<Piece>, name: string)
    ensures |Print(Splice(pieces, name, []))| <= |Print(pieces)|
    ensures Hole(name) in pieces ==> |Print(Splice(pieces, name, []))| < |Print(pieces)|
  {
    if pieces != [] {
      assert pieces == [pieces[0]] + pieces[1..];
      SpliceNothingShortens(pieces[1..], name);
      PrintAppend(PieceFilled(pieces[0], name, []), Splice(pieces[1..], name, []));
      PrintOne(pieces[0]);
    }
  }

  /** A summary with a hole prints differently from one without it. */
  lemma HoleShows(without: seq<Piece>, having: seq<Piece>, name: string)
    requires AllOk(without) && AllOk(having) && BraceFree(name) && Hole(name) in having && Hole(name) !in without
    ensures Print(without) != Print(having)
  {
    ReplaceSplices(without, name, []);
    ReplaceSplices(having, name, []);
    NothingToSplice(without, name, []);
    SpliceNothingShortens(having, name);
  }

  /** Splicing in a value no shorter than its placeholder never shortens the text. */
  lemma {:induction false} SpliceLengthens(pieces: seq<Piece>, name: string, value: seq<Piece>)
    requires |Print(value)| >= |Placeholder(name)|
    ensures |Print(Splice(pieces, name, value))| >= |Print(pieces)|
    ensures Hole(name) in pieces && |Print(value)| > |Placeholder(name)| ==>
              |Print(Splice(pieces, name, value))| > |Print(pieces)|
  {
    if pieces != [] {
      assert pieces == [pieces[0]] + pieces[1..];
      SpliceLengthens(pieces[1..], name, value);
      PrintAppend(PieceFilled(pieces[0], name, value), Splice(pieces[1..], name, value));
      PrintOne(pieces[0]);
    }
  }

  /** A value holding its own placeholder and something more is longer than the placeholder. */
  lemma {:induction false} HolderIsLonger(value: seq<Piece>, name: string)
    requires Hole(name) in value
    ensures |Print(value)| >= |Placeholder(name)|
    ensures |Print(value)| == |Placeholder(name)| ==> Print(value) == Placeholder(name)
  {
    assert value == [value[0]] + value[1..];
    if value[0] == Hole(name) {
      assert |Print(value)| == |Placeholder(name)| ==> Print(value[1..]) == "";
    } else {
      HolderIsLonger(value[1..], name);
    }
  }

  lemma {:induction false} Enumerate(names: set<string>) returns (order: seq<string>)
    ensures NoDuplicates(order) && forall n :: n in order <==> n in names
  {
    if names == {} {
      order := [];
    } else {
      var n :| n in names;
      var rest := Enumerate(names - {n});
      order := rest + [n];
    }
  }

  lemma OneLast(pieces: seq<Piece>, rest: seq<string>, n: string, spelling: map<string, seq<Piece>>)
    requires (forall k :: k in rest ==> k in spelling) && n in spelling
    ensures forall k :: k in rest + [n] ==> k in spelling
    ensures SequentialPieces(pieces, rest + [n], spelling)
            == Splice(SequentialPieces(pieces, rest, spelling), n, spelling[n])
  {
    assert (rest + [n])[..|rest|] == rest && (rest + [n])[|rest|] == n;
  }

  lemma OrderIsComplete(values: map<string, string>, rest: seq<string>, n: string, m: string)
    requires n in values && m in values && m != n && forall k :: k in rest <==> k in values && k != n && k != m
    requires NoDuplicates(rest)
    ensures DoneSoFar(rest + [n] + [m], values, values)
  {
  }

  lemma OrderRenders(summary: string, pieces: seq<Piece>, values: map<string, string>,
                     spelling: map<string, seq<Piece>>, order: seq<string>)
    requires IsSummary(summary, pieces) && Spelled(values, spelling) && DoneSoFar(order, values, values)
    ensures (forall k :: k in order ==> k in spelling) && AllOk(SequentialPieces(pieces, order, spelling))
    ensures Rendering(summary, values, Print(SequentialPieces(pieces, order, spelling)))
  {
    SequentialPrints(summary, pieces, order, values, spelling);
  }

  lemma LastTwoRender(summary: string, pieces: seq<Piece>, values: map<string, string>,
                      spelling: map<string, seq<Piece>>, rest: seq<string>, n: string, m: string)
    requires IsSummary(summary, pieces) && Spelled(values, spelling) && n in values && m in values && m != n
    requires NoDuplicates(rest) && forall k :: k in rest <==> k in values && k != n && k != m
    ensures (forall k :: k in rest ==> k in spelling)
            && AllOk(Splice(Splice(SequentialPieces(pieces, rest, spelling), n, spelling[n]), m, spelling[m]))
    ensures Rendering(summary, values,
            Print(Splice(Splice(SequentialPieces(pieces, rest, spelling), n, spelling[n]), m, spelling[m])))
  {
    OrderIsComplete(values, rest, n, m);
    OrderRenders(summary, pieces, values, spelling, rest + [n] + [m]);
    OneLast(pieces, rest, n, spelling);
    OneLast(pieces, rest + [n], m, spelling);
  }

  /** The value of `m` refers to `n` again and to itself: the one case in which two orders can agree by accident. */
  ghost predicate Entangled(spelling: map<string, seq<Piece>>, n: string, m: string)
    requires m in spelling
  {
    Hole(m) in spelling[m] && Hole(n) in spelling[m]
  }

  /** A used value holding the placeholder of another value, one not entangled with it, renders in two ways. */
  lemma OrderMatters(summary: string, pieces: seq<Piece>, values: map<string, string>,
                     spelling: map<string, seq<Piece>>, n: string, m: string)
    requires IsSummary(summary, pieces) && Spelled(values, spelling)
    requires n in values && m in values && m != n && Hole(n) in pieces && Hole(m) in spelling[n]
    requires values[m] != Placeholder(m) && !Entangled(spelling, n, m)
    ensures exists r, r' :: Rendering(summary, values, r) && Rendering(summary, values, r') && r != r'
  {
    var rest := Enumerate(values.Keys - {n, m});
    LastTwoRender(summary, pieces, values, spelling, rest, n, m);
    LastTwoRender(summary, pieces, values, spelling, rest, m, n);
    HoleStays(pieces, rest, spelling, n);
    var before := SequentialPieces(pieces, rest, spelling);
    if Hole(m) in spelling[m] {
      HolderIsLonger(spelling[m], m);
      LastTwoLonger(before, n, spelling[n], m, spelling[m]);
    } else {
      LastTwoDiffer(before, spelling, n, m);
    }
  }

  lemma LastTwoDiffer(before: seq<Piece>, spelling: map<string, seq<Piece>>, n: string, m: string)
    requires n in spelling && m in spelling && m != n && BraceFree(m)
    requires Hole(n) in before && Hole(m) in spelling[n] && Hole(m) !in spelling[m]
    requires AllOk(Splice(Splice(before, n, spelling[n]), m, spelling[m]))
             && AllOk(Splice(Splice(before, m, spelling[m]), n, spelling[n]))
    ensures Print(Splice(Splice(before, n, spelling[n]), m, spelling[m]))
            != Print(Splice(Splice(before, m, spelling[m]), n, spelling[n]))
  {
    SpliceMembers(Splice(before, n, spelling[n]), m, spelling[m]);
    SpliceMembers(before, m, spelling[m]);
    SpliceMembers(Splice(before, m, spelling[m]), n, spelling[n]);
    HoleShows(Splice(Splice(before, n, spelling[n]), m, spelling[m]),
        Splice(Splice(before, m, spelling[m]), n, spelling[n]), m);
  }

  /** What the two orders make of one piece. */
  lemma OnePieceLonger(p: Piece, n: string, v: seq<Piece>, m: string, w: seq<Piece>)
    requires m != n && Hole(m) in v && Hole(n) !in w && |Print(w)| > |Placeholder(m)|
    ensures |Print(Splice(PieceFilled(p, n, v), m, w))| >= |Print(Splice(PieceFilled(p, m, w), n, v))|
    ensures p == Hole(n) ==> |Print(Splice(PieceFilled(p, n, v), m, w))| > |Print(Splice(PieceFilled(p, m, w), n, v))|
  {
    SpliceOne(p, n, v);
    SpliceOne(p, m, w);
    if p == Hole(n) {
      SpliceLengthens(v, m, w);
    } else if p == Hole(m) {
      NothingToSplice(w, n, v);
    }
  }

  lemma SpliceOne(p: Piece, name: string, value: seq<Piece>)
    ensures Splice([p], name, value) == PieceFilled(p, name, value)
  {
    assert [p][1..] == [];
  }

  /** Expanding first the value that refers, then the longer one referred to, gives the longer text. */
  lemma {:induction false} LastTwoLonger(before: seq<Piece>, n: string, v: seq<Piece>, m: string, w: seq<Piece>)
    requires m != n && Hole(m) in v && Hole(n) !in w && |Print(w)| > |Placeholder(m)|
    ensures |Print(Splice(Splice(before, n, v), m, w))| >= |Print(Splice(Splice(before, m, w), n, v))|
    ensures Hole(n) in before ==>
            |Print(Splice(Splice(before, n, v), m, w))| > |Print(Splice(Splice(before, m, w), n, v))|
  {
    if before != [] {
      var head, rest := before[0], before[1..];
      assert before == [head] + rest;
      LastTwoLonger(rest, n, v, m, w);
      OnePieceLonger(head, n, v, m, w);
      TwiceSpliced(head, rest, n, v, m, w);
      TwiceSpliced(head, rest, m, w, n, v);
    }
  }

  lemma TwiceSpliced(head: Piece, rest: seq<Piece>, n: string, v: seq<Piece>, m: string, w: seq<Piece>)
    ensures Print(Splice(Splice([head] + rest, n, v), m, w)) ==
            Print(Splice(PieceFilled(head, n, v), m, w)) + Print(Splice(Splice(rest, n, v), m, w))
  {
    assert ([head] + rest)[1..] == rest;
    SpliceAppend(PieceFilled(head, n, v), Splice(rest, n, v), m, w);
    PrintAppend(Splice(PieceFilled(head, n, v), m, w), Splice(Splice(rest, n, v), m, w));
  }

  /** No used value holds the placeholder of another name that has a value, other than that placeholder itself. */
  ghost predicate Independent(pieces: seq<Piece>, values: map<string, string>, spelling: map<string, seq<Piece>>)
    requires Spelled(values, spelling)
  {
    forall n, m :: Hole(n) in pieces && n in values && m in values && Hole(m) in spelling[n] && m != n ==>
      values[m] == Placeholder(m)
  }

  /** All holes with a name in `done` filled at once. */
  function Spread(pieces: seq<Piece>, done: set<string>, spelling: map<string, seq<Piece>>): seq<Piece>
    requires forall n :: n in done ==> n in spelling
  {
    if pieces == [] then []
    else (if pieces[0].Hole? && pieces[0].name in done then spelling[pieces[0].name]
        else [pieces[0]]) + Spread(pieces[1..], done, spelling)
  }

  /** Values that are their own placeholders, spelled as such. */
  ghost predicate Plain(values: map<string, string>, spelling: map<string, seq<Piece>>)
  {
    forall n :: n in values && values[n] == Placeholder(n) ==> n in spelling && spelling[n] == [Hole(n)]
  }

  lemma {:induction false} SpliceItself(pieces: seq<Piece>, name: string)
    ensures Splice(pieces, name, [Hole(name)]) == pieces
  {
    if pieces != [] {
      SpliceItself(pieces[1..], name);
      assert pieces == [pieces[0]] + pieces[1..];
    }
  }

  lemma {:induction false} SpreadOneMore(pieces: seq<Piece>, values: map<string, string>,
                                         spelling: map<string, seq<Piece>>, done: set<string>, m: string)
    requires Spelled(values, spelling) && Independent(pieces, values, spelling) && Plain(values, spelling)
    requires done <= values.Keys && m in values && m !in done
    ensures Splice(Spread(pieces, done, spelling), m, spelling[m]) == Spread(pieces, done + {m}, spelling)
  {
    if pieces != [] {
      var head, rest := pieces[0], pieces[1..];
      assert pieces == [head] + rest;
      SpreadOneMore(rest, values, spelling, done, m);
      if head.Hole? && head.name in done {
        SplicedValueStays(values, spelling, head.name, m);
        SpliceAppend(spelling[head.name], Spread(rest, done, spelling), m, spelling[m]);
      } else {
        assert ([head] + Spread(rest, done, spelling))[1..] == Spread(rest, done, spelling);
      }
    }
  }

  lemma SplicedValueStays(values: map<string, string>, spelling: map<string, seq<Piece>>, n: string, m: string)
    requires Plain(values, spelling) && n in spelling && m in values && m in spelling
    requires Hole(m) in spelling[n] ==> values[m] == Placeholder(m)
    ensures Splice(spelling[n], m, spelling[m]) == spelling[n]
  {
    if Hole(m) in spelling[n] {
      SpliceItself(spelling[n], m);
    } else {
      NothingToSplice(spelling[n], m, spelling[m]);
    }
  }

  lemma {:induction false} SpreadNothing(pieces: seq<Piece>, spelling: map<string, seq<Piece>>)
    ensures Spread(pieces, {}, spelling) == pieces
  {
    if pieces != [] {
      SpreadNothing(pieces[1..], spelling);
    }
  }

  lemma {:induction false} SequentialIsSpread(pieces: seq<Piece>, order: seq<string>, values: map<string, string>,
                                              spelling: map<string, seq<Piece>>)
    requires Spelled(values, spelling) && Independent(pieces, values, spelling) && Plain(values, spelling)
    requires NoDuplicates(order) && forall n :: n in order ==> n in values
    ensures SequentialPieces(pieces, order, spelling) == Spread(pieces, (set n | n in order), spelling)
  {
    if order == [] {
      assert (set n | n in order) == {};
      SpreadNothing(pieces, spelling);
    } else {
      var init, n := order[..|order| - 1], order[|order| - 1];
      assert order == init + [n];
      SequentialIsSpread(pieces, init, values, spelling);
      SpreadOneMore(pieces, values, spelling, (set k | k in init), n);
      assert (set k | k in order) == (set k | k in init) + {n};
    }
  }

  lemma IndependentRendersOnce(summary: string, pieces: seq<Piece>, values: map<string, string>,
                               spelling: map<string, seq<Piece>>, r: string)
    requires IsSummary(summary, pieces) && Spelled(values, spelling) && Rendering(summary, values, r)
    requires Independent(pieces, values, spelling) && Plain(values, spelling)
    ensures r == Print(Spread(pieces, values.Keys, spelling))
  {
    var order, done :| DoneSoFar(order, done, values) && done.Keys == values.Keys
        && r == Sequential(summary, order, values);
    SequentialPrints(summary, pieces, order, values, spelling);
    SequentialIsSpread(pieces, order, values, spelling);
    assert (set n | n in order) == values.Keys;
  }

  function Respelled(values: map<string, string>, spelling: map<string, seq<Piece>>): map<string, seq<Piece>>
    requires forall n :: n in values ==> n in spelling
  {
    map n | n in values :: if values[n] == Placeholder(n) then [Hole(n)] else spelling[n]
  }

  lemma RespelledIsPlain(pieces: seq<Piece>, values: map<string, string>, spelling: map<string, seq<Piece>>)
    requires Spelled(values, spelling) && Independent(pieces, values, spelling)
    ensures var plain := Respelled(values, spelling);
            Spelled(values, plain) && Independent(pieces, values, plain) && Plain(values, plain)
  {
    forall n | n in values
      ensures Print([Hole(n)]) == Placeholder(n)
    {
      PrintOne(Hole(n));
    }
  }

  /**
   The order is immaterial exactly when no used value refers to another that stands for more than its
   own placeholder; entangled references apart.
   */
  lemma RendersOnceExactly(summary: string, pieces: seq<Piece>, values: map<string, string>,
                           spelling: map<string, seq<Piece>>)
    requires IsSummary(summary, pieces) && Spelled(values, spelling)
    requires forall n, m ::
               Hole(n) in pieces && n in values && m in values && Hole(m) in spelling[n] && m != n
               && values[m] != Placeholder(m)
               ==> !Entangled(spelling, n, m)
    ensures (forall r, r' :: Rendering(summary, values, r) && Rendering(summary, values, r') ==> r == r')
            <==> Independent(pieces, values, spelling)
  {
    if Independent(pieces, values, spelling) {
      RespelledIsPlain(pieces, values, spelling);
      forall r | Rendering(summary, values, r)
        ensures r == Print(Spread(pieces, values.Keys, Respelled(values, spelling)))
      {
        IndependentRendersOnce(summary, pieces, values, Respelled(values, spelling), r);
      }
    } else {
      var n, m :| Hole(n) in pieces && n in values && m in values && Hole(m) in spelling[n] && m != n
          && values[m] != Placeholder(m);
      OrderMatters(summary, pieces, values, spelling, n, m);
    }
  }

  // ---------- Entangled values ----------

  lemma SpliceAll(p: Piece, rest: seq<Piece>, name: string, value: seq<Piece>)
    ensures Splice([p] + rest, name, value) == PieceFilled(p, name, value) + Splice(rest, name, value)
  {
    assert ([p] + rest)[1..] == rest;
  }

  lemma SpliceTwo(n: string, m: string, v: seq<Piece>)
    requires m != n
    ensures Splice([Hole(n)] + [Hole(m)], n, v) == v + [Hole(m)]
    ensures Splice([Hole(m)] + [Hole(n)], n, v) == [Hole(m)] + v
  {
    SpliceAll(Hole(n), [Hole(m)], n, v);
    SpliceAll(Hole(m), [Hole(n)], n, v);
    SpliceOne(Hole(m), n, v);
    SpliceOne(Hole(n), n, v);
  }

  /** Around another, a placeholder: its value in the accidental case below. */
  function Around(n: string, m: string): seq<Piece> { [Hole(n)] + [Hole(m)] + [Hole(n)] }

  lemma SpliceAround(n: string, m: string, v: seq<Piece>)
    requires m != n
    ensures Splice(Around(n, m), n, v) == v + [Hole(m)] + v
    ensures Splice(Around(n, m), m, v) == [Hole(n)] + v + [Hole(n)]
  {
    SpliceAppend([Hole(n)] + [Hole(m)], [Hole(n)], n, v);
    SpliceTwo(n, m, v);
    SpliceOne(Hole(n), n, v);
    SpliceAppend([Hole(n)] + [Hole(m)], [Hole(n)], m, v);
    SpliceTwo(m, n, v);
    SpliceOne(Hole(n), m, v);
  }

  lemma EntangledAgree(n: string, m: string)
    requires m != n
    ensures var pieces, v, w := [Hole(n)] + [Hole(m)], Around(n, m), Around(m, n);
            Splice(Splice(pieces, n, v), m, w) == Splice(Splice(pieces, m, w), n, v)
  {
    var v, w := Around(n, m), Around(m, n);
    SpliceTwo(n, m, v);
    SpliceTwo(m, n, w);
    SpliceAppend(v, [Hole(m)], m, w);
    SpliceAround(n, m, w);
    SpliceOne(Hole(m), m, w);
    SpliceAppend([Hole(n)], w, n, v);
    SpliceAround(m, n, v);
    SpliceOne(Hole(n), n, v);
  }

  lemma OneOfThree(order: seq<string>, n: string, m: string)
    requires NoDuplicates(order) && |order| > 2
    ensures exists k :: k in order && k != n && k != m
  {
    assert order[0] in order && order[1] in order && order[2] in order;
  }

  lemma OrdersOfTwo(order: seq<string>, n: string, m: string)
    requires m != n && NoDuplicates(order) && forall k :: k in order <==> k == n || k == m
    ensures order == [n] + [m] || order == [m] + [n]
  {
    assert n in order && m in order;
    var i :| 0 <= i < |order| && order[i] == n;
    var j :| 0 <= j < |order| && order[j] == m;
    if |order| > 2 {
      OneOfThree(order, n, m);
    }
  }

  /** Both expansions, as they come out for entangled values. */
  function Tangle(n: string, m: string): seq<Piece>
  {
    Splice(Splice([Hole(n)] + [Hole(m)], n, Around(n, m)), m, Around(m, n))
  }

  function TangledSpelling(n: string, m: string): map<string, seq<Piece>>
  {
    map[n := Around(n, m), m := Around(m, n)]
  }

  lemma TangleEitherWay(n: string, m: string, order: seq<string>)
    requires m != n && (order == [n] + [m] || order == [m] + [n])
    ensures SequentialPieces([Hole(n)] + [Hole(m)], order, TangledSpelling(n, m)) == Tangle(n, m)
  {
    var pieces, spelling := [Hole(n)] + [Hole(m)], TangledSpelling(n, m);
    assert [] + [order[0]] == [order[0]];
    OneLast(pieces, [], order[0], spelling);
    OneLast(pieces, [order[0]], order[1], spelling);
    EntangledAgree(n, m);
  }

  lemma TangledSpells(n: string, m: string)
    requires m != n && BraceFree(n) && BraceFree(m)
    ensures Spelled(map[n := Print(Around(n, m)), m := Print(Around(m, n))], TangledSpelling(n, m))
  {
  }

  /**
   Two values that refer to each other and to themselves and nevertheless render once: entangled
   references do have to be set apart.
   */
  lemma EntangledCanRenderOnce(n: string, m: string, r: string)
    requires m != n && BraceFree(n) && BraceFree(m)
    requires Rendering(Print([Hole(n)] + [Hole(m)]), map[n := Print(Around(n, m)), m := Print(Around(m, n))], r)
    ensures r == Print(Tangle(n, m))
  {
    var pieces, values := [Hole(n)] + [Hole(m)], map[n := Print(Around(n, m)), m := Print(Around(m, n))];
    TangledSpells(n, m);
    var order, done :| DoneSoFar(order, done, values) && done.Keys == values.Keys
        && r == Sequential(Print(pieces), order, values);
    OrdersOfTwo(order, n, m);
    SequentialPrints(Print(pieces), pieces, order, values, TangledSpelling(n, m));
    TangleEitherWay(n, m, order);
  }

  /** For example, two renderings of one summary. */
  lemma BracesInValuesMakeOrderMatter()
    ensures var values := map["a" := "{b}", "b" := "x"];
            Rendering("{a}", values, "x") && Rendering("{a}", values, "{b}")
  {
    var values := map["a" := "{b}", "b" := "x"];
    assert ["a", "b"][..1] == ["a"] && ["b", "a"][..1] == ["b"];
    assert Placeholder("a") == "{a}" && Placeholder("b") == "{b}";
    assert ReplaceAll("{a}", "{a}", "{b}") == "{b}" by { assert "{a}"[3..] == ""; }
    assert ReplaceAll("{b}", "{b}", "x") == "x" by { assert "{b}"[3..] == ""; }
    assert ReplaceAll("{a}", "{b}", "x") == "{a}" by {
      assert "{a}"[1] != "{b}"[1];
      assert "{a}"[1..] == "a}";
    }
    assert Sequential("{a}", ["a"], values) == "{b}";
    assert Sequential("{a}", ["a", "b"], values) == "x";
    assert Sequential("{a}", ["b"], values) == "{a}";
    assert Sequential("{a}", ["b", "a"], values) == "{b}";
    assert DoneSoFar(["a", "b"], values, values) && DoneSoFar(["b", "a"], values, values);
  }
}
