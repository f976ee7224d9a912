/** The REST proxy's derivation of the permission a request needs from its method and path. */
module Routes {
  import opened Basics
  import opened Strings
  import opened Reachability
  import opened Cedar
  import opened Schemas
  import opened Compiler
  import opened CompilerLaws
  import opened Templates
  import opened GitHub

  // ---------- Path segments ----------

  function NonEmpty(parts: seq<string>): seq<string>
  {
    if parts == [] then []
    else NonEmpty(parts[..|parts| - 1]) + if parts[|parts| - 1] != "" then [parts[|parts| - 1]] else []
  }

  function SegmentsOf(path: string): seq<string> { NonEmpty(Split(path, '/')) }

  method Segments(path: string) returns (out: seq<string>)
    ensures out == SegmentsOf(path)
  {
    var parts := Split(path, '/');
    out := [];
    for i := 0 to |parts|
      invariant out == NonEmpty(parts[..i])
    {
      assert parts[..i + 1][..i] == parts[..i];
      if parts[i] != "" {
        out := out + [parts[i]];
      }
    }
    assert parts[..|parts|] == parts;
  }

  predicate IsSegment(s: string) { s != "" && '/' !in s }

  lemma {:induction false} NonEmptyPrepend(part: string, parts: seq<string>)
    ensures NonEmpty([part] + parts) == (if part != "" then [part] else []) + NonEmpty(parts)
  {
    if parts == [] {
      assert [part] + parts == [part];
      assert [part][..0] == [];
    } else {
      var all := [part] + parts;
      assert all[..|all| - 1] == [part] + parts[..|parts| - 1];
      NonEmptyPrepend(part, parts[..|parts| - 1]);
    }
  }

  lemma LeadingSlash(rest: string)
    ensures SegmentsOf("/" + rest) == SegmentsOf(rest)
  {
    SplitFirst("", rest, '/');
    assert "" + ['/'] + rest == "/" + rest;
    NonEmptyPrepend("", Split(rest, '/'));
  }

  lemma LeadingSegment(seg: string, rest: string)
    requires IsSegment(seg) && (rest == "" || rest[0] == '/')
    ensures SegmentsOf(seg + rest) == [seg] + SegmentsOf(rest)
  {
    if rest == "" {
      SplitOne(seg, '/');
      SplitOne("", '/');
      assert seg + rest == seg;
      assert [seg][..0] == [] && [""][..0] == [];
    } else {
      SplitFirst(seg, rest[1..], '/');
      assert seg + ['/'] + rest[1..] == seg + rest;
      NonEmptyPrepend(seg, Split(rest[1..], '/'));
      LeadingSlash(rest[1..]);
      assert "/" + rest[1..] == rest;
    }
  }

  function Slashes(n: nat): string { if n == 0 then "" else "/" + Slashes(n - 1) }

  /** A path with any number of slashes in front of, between and behind its segments. */
  function PathOf(segs: seq<string>, gaps: seq<nat>, trailing: nat): string
    requires |gaps| == |segs|
  {
    if segs == [] then Slashes(trailing)
    else Slashes(gaps[0]) + segs[0] + PathOf(segs[1..], gaps[1..], trailing)
  }

  lemma OneSlashFirst(more: string, rest: string)
    ensures ("/" + more) + rest == "/" + (more + rest)
  {
  }

  lemma {:induction false} SlashesAreEmpty(n: nat, rest: string)
    ensures SegmentsOf(Slashes(n) + rest) == SegmentsOf(rest)
  {
    if n == 0 {
      assert Slashes(0) + rest == rest;
    } else {
      SlashesAreEmpty(n - 1, rest);
      LeadingSlash(Slashes(n - 1) + rest);
      OneSlashFirst(Slashes(n - 1), rest);
    }
  }

  /** Segments come back whatever the slashes around them; only neighbours must be separated. */
  lemma {:induction false} SegmentsOfPath(segs: seq<string>, gaps: seq<nat>, trailing: nat)
    requires |gaps| == |segs| && (forall x :: x in segs ==> IsSegment(x)) && forall i :: 1 <= i < |gaps| ==> gaps[i] > 0
    ensures SegmentsOf(PathOf(segs, gaps, trailing)) == segs
  {
    if segs == [] {
      SlashesAreEmpty(trailing, "");
      assert Slashes(trailing) + "" == Slashes(trailing);
      SplitOne("", '/');
      assert [""][..0] == [];
    } else {
      var rest := PathOf(segs[1..], gaps[1..], trailing);
      SegmentsOfPath(segs[1..], gaps[1..], trailing);
      assert rest == "" || rest[0] == '/' by {
        if |segs| > 1 {
          assert Slashes(gaps[1])[0] == '/';
        }
      }
      LeadingSegment(segs[0], rest);
      SlashesAreEmpty(gaps[0], segs[0] + rest);
      assert Slashes(gaps[0]) + (segs[0] + rest) == PathOf(segs, gaps, trailing);
      assert segs == [segs[0]] + segs[1..];
    }
  }

  // ---------- The refinement table ----------

  datatype Route = Route(verb: string, pattern: string, action: string, bindBody: bool,
                         resource: map<string, string> -> AuthzRef)

  predicate IsVar(seg: string) { |seg| >= 2 && seg[0] == '{' && seg[|seg| - 1] == '}' }

  function VarName(seg: string): string
    requires IsVar(seg)
  {
    seg[1..|seg| - 1]
  }

  predicate SegmentFits(pattern: string, seg: string) { IsVar(pattern) || pattern == seg }

  predicate Fits(rt: Route, verb: string, segs: seq<string>)
  {
    var psegs := SegmentsOf(rt.pattern);
    rt.verb == verb && |psegs| == |segs| && forall j :: 0 <= j < |segs| ==> SegmentFits(psegs[j], segs[j])
  }

  /** The variables captured, a later segment of the same name replacing an earlier one. */
  function Capture(psegs: seq<string>, segs: seq<string>): map<string, string>
    requires |psegs| == |segs|
  {
    if psegs == [] then map[]
    else
      var n := |psegs| - 1;
      var before := Capture(psegs[..n], segs[..n]);
      if IsVar(psegs[n]) then before[VarName(psegs[n]) := segs[n]] else before
  }

  method MatchSegments(psegs: seq<string>, segs: seq<string>) returns (ok: bool, vars: map<string, string>)
    requires |psegs| == |segs|
    ensures ok <==> forall j :: 0 <= j < |segs| ==> SegmentFits(psegs[j], segs[j])
    ensures ok ==> vars == Capture(psegs, segs)
  {
    vars, ok := map[], true;
    for j := 0 to |psegs|
      invariant ok && vars == Capture(psegs[..j], segs[..j])
      invariant forall k :: 0 <= k < j ==> SegmentFits(psegs[k], segs[k])
    {
      assert psegs[..j + 1][..j] == psegs[..j] && segs[..j + 1][..j] == segs[..j];
      var ps := psegs[j];
      if |ps| >= 2 && ps[0] == '{' && ps[|ps| - 1] == '}' {
        vars := vars[ps[1..|ps| - 1] := segs[j]];
      } else if ps != segs[j] {
        ok := false;
      }
      if !ok {
        return;
      }
    }
    assert psegs[..|psegs|] == psegs && segs[..|segs|] == segs;
  }

  datatype Matched = Matched(row: nat, vars: map<string, string>)

  predicate NoneFits(routes: seq<Route>, n: nat, verb: string, segs: seq<string>)
    requires n <= |routes|
  {
    forall i :: 0 <= i < n ==> !Fits(routes[i], verb, segs)
  }

  predicate FirstFit(routes: seq<Route>, row: nat, verb: string, segs: seq<string>)
  {
    row < |routes| && Fits(routes[row], verb, segs) && NoneFits(routes, row, verb, segs)
  }

  function CapturedBy(rt: Route, segs: seq<string>): map<string, string>
    requires |SegmentsOf(rt.pattern)| == |segs|
  {
    Capture(SegmentsOf(rt.pattern), segs)
  }

  /** The first row whose method, segment count and literal segments agree, with what it captures. */
  method Match(routes: seq<Route>, verb: string, path: string) returns (m: Option<Matched>)
    ensures m.None? ==> NoneFits(routes, |routes|, verb, SegmentsOf(path))
    ensures m.Some? ==> FirstFit(routes, m.value.row, verb, SegmentsOf(path))
                        && m.value.vars == CapturedBy(routes[m.value.row], SegmentsOf(path))
    ensures m.Some? ==>
              var psegs, segs := SegmentsOf(routes[m.value.row].pattern), SegmentsOf(path);
              && routes[m.value.row].verb == verb && |psegs| == |segs|
              && (forall j :: 0 <= j < |segs| ==>
                    || (|psegs[j]| >= 2 && psegs[j][0] == '{' && psegs[j][|psegs[j]| - 1] == '}')
                    || psegs[j] == segs[j])
              && (forall j :: 0 <= j < |segs| && LastVar(psegs, j) ==>
                    psegs[j][1..|psegs[j]| - 1] in m.value.vars && m.value.vars[psegs[j][1..|psegs[j]| - 1]] == segs[j])
              && forall x :: x in m.value.vars ==> exists j :: 0 <= j < |segs| && psegs[j] == "{" + x + "}"
    ensures forall i :: 0 <= i < (if m.Some? then m.value.row else |routes|) && routes[i].verb == verb ==>
              var psegs, segs := SegmentsOf(routes[i].pattern), SegmentsOf(path);
              || |psegs| != |segs|
              || exists j :: 0 <= j < |segs| && psegs[j] != segs[j]
                             && !(|psegs[j]| >= 2 && psegs[j][0] == '{' && psegs[j][|psegs[j]| - 1] == '}')
  {
    m := FindRow(routes, verb, path);
    if m.Some? {
      CapturedInText(SegmentsOf(routes[m.value.row].pattern), SegmentsOf(path));
    }
  }

  /** The segment is a variable, and no later one is the same variable. */
  ghost predicate LastVar(psegs: seq<string>, j: nat)
    requires j < |psegs|
  {
    |psegs[j]| >= 2 && psegs[j][0] == '{' && psegs[j][|psegs[j]| - 1] == '}' && psegs[j] !in psegs[j + 1..]
  }

  lemma CapturedInText(psegs: seq<string>, segs: seq<string>)
    requires |psegs| == |segs|
    ensures forall j :: 0 <= j < |segs| && LastVar(psegs, j) ==>
              psegs[j][1..|psegs[j]| - 1] in Capture(psegs, segs)
                  && Capture(psegs, segs)[psegs[j][1..|psegs[j]| - 1]] == segs[j]
    ensures forall x :: x in Capture(psegs, segs) ==> exists j :: 0 <= j < |segs| && psegs[j] == "{" + x + "}"
  {
    forall j | 0 <= j < |segs| && LastVar(psegs, j)
      ensures psegs[j][1..|psegs[j]| - 1] in Capture(psegs, segs)
      ensures Capture(psegs, segs)[psegs[j][1..|psegs[j]| - 1]] == segs[j]
    {
      LastVarCounts(psegs, segs, j);
    }
    forall x | x in Capture(psegs, segs)
      ensures exists j :: 0 <= j < |segs| && psegs[j] == "{" + x + "}"
    {
      CapturedIsVar(psegs, segs, x);
    }
  }

  lemma {:induction false} LastVarCounts(psegs: seq<string>, segs: seq<string>, j: nat)
    requires |psegs| == |segs| && j < |psegs| && LastVar(psegs, j)
    ensures VarName(psegs[j]) in Capture(psegs, segs) && Capture(psegs, segs)[VarName(psegs[j])] == segs[j]
  {
    var n := |psegs| - 1;
    if j < n {
      assert psegs[j + 1..] == psegs[..n][j + 1..] + [psegs[n]];
      LastVarCounts(psegs[..n], segs[..n], j);
      if IsVar(psegs[n]) && VarName(psegs[n]) == VarName(psegs[j]) {
        SameVar(psegs[n], psegs[j]);
      }
    }
  }

  lemma SameVar(a: string, b: string)
    requires IsVar(a) && IsVar(b) && VarName(a) == VarName(b)
    ensures a == b
  {
    assert a == "{" + VarName(a) + "}" && b == "{" + VarName(b) + "}";
  }

  lemma {:induction false} CapturedIsVar(psegs: seq<string>, segs: seq<string>, x: string)
    requires |psegs| == |segs| && x in Capture(psegs, segs)
    ensures exists j :: 0 <= j < |segs| && psegs[j] == "{" + x + "}"
  {
    var n := |psegs| - 1;
    if x in Capture(psegs[..n], segs[..n]) {
      CapturedIsVar(psegs[..n], segs[..n], x);
      var j :| 0 <= j < n && psegs[..n][j] == "{" + x + "}";
      assert psegs[j] == "{" + x + "}";
    } else {
      assert psegs[n] == "{" + x + "}";
    }
  }

  method FindRow(routes: seq<Route>, verb: string, path: string) returns (m: Option<Matched>)
    ensures m.None? ==> NoneFits(routes, |routes|, verb, SegmentsOf(path))
    ensures m.Some? ==> FirstFit(routes, m.value.row, verb, SegmentsOf(path))
                        && m.value.vars == CapturedBy(routes[m.value.row], SegmentsOf(path))
  {
    var segs := Segments(path);
    for i := 0 to |routes|
      invariant NoneFits(routes, i, verb, segs)
    {
      if routes[i].verb != verb {
        continue;
      }
      var psegs := Segments(routes[i].pattern);
      if |psegs| != |segs| {
        continue;
      }
      var ok, vars := MatchSegments(psegs, segs);
      if ok {
        return Some(Matched(i, vars));
      }
    }
    return None;
  }

  // ---------- Instantiating a pattern ----------

  ghost predicate DistinctVars(psegs: seq<string>)
  {
    forall i, j :: 0 <= i < j < |psegs| && IsVar(psegs[i]) && IsVar(psegs[j]) ==> VarName(psegs[i]) != VarName(psegs[j])
  }

  /** `values` gives each variable of the pattern, and nothing else, a nonempty slash-free value. */
  ghost predicate Binds(psegs: seq<string>, values: map<string, string>)
  {
    && (forall j :: 0 <= j < |psegs| && IsVar(psegs[j]) ==> VarName(psegs[j]) in values)
    && (forall n :: n in values ==>
        IsSegment(values[n]) && exists j :: 0 <= j < |psegs| && IsVar(psegs[j]) && VarName(psegs[j]) == n)
  }

  function Instance(psegs: seq<string>, values: map<string, string>): seq<string>
  {
    seq(|psegs|, j requires 0 <= j < |psegs| =>
      if IsVar(psegs[j]) && VarName(psegs[j]) in values then values[VarName(psegs[j])] else psegs[j])
  }

  /** One of the first `n` segments is the variable `x`. */
  ghost predicate Names(psegs: seq<string>, n: nat, x: string)
    requires n <= |psegs|
  {
    exists j :: 0 <= j < n && IsVar(psegs[j]) && VarName(psegs[j]) == x
  }

  lemma NamesOneMore(psegs: seq<string>, n: nat, x: string)
    requires n < |psegs|
    ensures Names(psegs, n + 1, x) <==> Names(psegs, n, x) || (IsVar(psegs[n]) && VarName(psegs[n]) == x)
  {
  }

  lemma CaptureOneMore(psegs: seq<string>, segs: seq<string>, n: nat)
    requires n < |psegs| == |segs|
    ensures Capture(psegs[..n + 1], segs[..n + 1]) ==
            if IsVar(psegs[n]) then Capture(psegs[..n], segs[..n])[VarName(psegs[n]) := segs[n]]
                else Capture(psegs[..n], segs[..n])
  {
    assert psegs[..n + 1][..n] == psegs[..n] && segs[..n + 1][..n] == segs[..n];
  }

  lemma {:induction false} CaptureOfInstance(psegs: seq<string>, values: map<string, string>, n: nat, x: string)
    requires Binds(psegs, values) && n <= |psegs|
    ensures x in Capture(psegs[..n], Instance(psegs, values)[..n]) <==> Names(psegs, n, x)
    ensures Names(psegs, n, x) ==> x in values && Capture(psegs[..n], Instance(psegs, values)[..n])[x] == values[x]
  {
    if n > 0 {
      CaptureOfInstance(psegs, values, n - 1, x);
      NamesOneMore(psegs, n - 1, x);
      CaptureOneMore(psegs, Instance(psegs, values), n - 1);
    }
  }

  lemma {:induction false} NonEmptyAreSegments(parts: seq<string>)
    requires forall p :: p in parts ==> '/' !in p
    ensures forall x :: x in NonEmpty(parts) ==> IsSegment(x)
  {
    if parts != [] {
      NonEmptyAreSegments(parts[..|parts| - 1]);
    }
  }

  lemma PatternSegments(pattern: string)
    ensures forall x :: x in SegmentsOf(pattern) ==> IsSegment(x)
  {
    SplitPartsClean(pattern, '/');
    NonEmptyAreSegments(Split(pattern, '/'));
  }

  lemma InstanceSegments(psegs: seq<string>, values: map<string, string>)
    requires Binds(psegs, values) && forall x :: x in psegs ==> IsSegment(x)
    ensures forall x :: x in Instance(psegs, values) ==> IsSegment(x)
    ensures forall j :: 0 <= j < |psegs| ==> SegmentFits(psegs[j], Instance(psegs, values)[j])
  {
  }

  lemma CaptureGivesValues(psegs: seq<string>, values: map<string, string>)
    requires Binds(psegs, values) && DistinctVars(psegs)
    ensures Capture(psegs, Instance(psegs, values)) == values
  {
    assert psegs[..|psegs|] == psegs && Instance(psegs, values)[..|psegs|] == Instance(psegs, values);
    forall x
      ensures x in Capture(psegs, Instance(psegs, values)) <==> x in values
      ensures x in values ==> Capture(psegs, Instance(psegs, values))[x] == values[x]
    {
      CaptureOfInstance(psegs, values, |psegs|, x);
      assert x in values ==> Names(psegs, |psegs|, x);
    }
  }

  /** A path built from a row's pattern is matched by that row and gives back exactly the values put in. */
  lemma InstanceIsCaptured(rt: Route, values: map<string, string>, gaps: seq<nat>, trailing: nat)
    requires DistinctVars(SegmentsOf(rt.pattern)) && Binds(SegmentsOf(rt.pattern), values)
    requires |gaps| == |SegmentsOf(rt.pattern)| && forall i :: 1 <= i < |gaps| ==> gaps[i] > 0
    ensures var segs := SegmentsOf(PathOf(Instance(SegmentsOf(rt.pattern), values), gaps, trailing));
            Fits(rt, rt.verb, segs) && CapturedBy(rt, segs) == values
  {
    var psegs := SegmentsOf(rt.pattern);
    PatternSegments(rt.pattern);
    InstanceSegments(psegs, values);
    SegmentsOfPath(Instance(psegs, values), gaps, trailing);
    CaptureGivesValues(psegs, values);
  }

  /**
   So a request for an instantiated row, with no earlier row in its way, needs that row's permission
   on those values.
   */
  lemma InstanceIsMatched(routes: seq<Route>, row: nat, values: map<string, string>, gaps: seq<nat>, trailing: nat,
                          m: Option<Matched>)
    requires row < |routes| && DistinctVars(SegmentsOf(routes[row].pattern))
             && Binds(SegmentsOf(routes[row].pattern), values)
    requires |gaps| == |SegmentsOf(routes[row].pattern)| && forall i :: 1 <= i < |gaps| ==> gaps[i] > 0
    requires var segs := SegmentsOf(PathOf(Instance(SegmentsOf(routes[row].pattern), values), gaps, trailing));
             && NoneFits(routes, row, routes[row].verb, segs)
             && (m.None? ==> NoneFits(routes, |routes|, routes[row].verb, segs))
             && (m.Some? ==> FirstFit(routes, m.value.row, routes[row].verb, segs)
                             && m.value.vars == CapturedBy(routes[m.value.row], segs))
    ensures m == Some(Matched(row, values))
  {
    InstanceIsCaptured(routes[row], values, gaps, trailing);
    var segs := SegmentsOf(PathOf(Instance(SegmentsOf(routes[row].pattern), values), gaps, trailing));
    if m.Some? {
      FirstFitUnique(routes, row, m.value.row, routes[row].verb, segs);
    }
  }

  // ---------- Requirements ----------

  function Var(vars: map<string, string>, name: string): string
  {
    if name in vars then vars[name] else ""
  }

  predicate IsDigit(c: char) { '0' <= c <= '9' }

  function DigitsValue(s: string): nat
    requires forall c :: c in s ==> IsDigit(c)
  {
    if s == [] then 0
    else
      var last := s[|s| - 1];
      assert IsDigit(last);
      10 * DigitsValue(s[..|s| - 1]) + (last as int - '0' as int)
  }

  /** A decimal number with an optional sign that fits 64 bits; 0 when the text is not one. */
  function Atoi(s: string): int
  {
    var digits := if s != [] && (s[0] == '-' || s[0] == '+') then s[1..] else s;
    if digits == [] || exists c :: c in digits && !IsDigit(c) then 0
    else
      var v: int := if s[0] == '-' then 0 - DigitsValue(digits) else DigitsValue(digits);
      if -0x8000_0000_0000_0000 <= v < 0x8000_0000_0000_0000 then v else 0
  }

  lemma {:induction false} DigitsOfDecimal(n: nat)
    ensures forall c :: c in Decimal(n) ==> IsDigit(c)
    ensures DigitsValue(Decimal(n)) == n
  {
    DecimalDigits(n);
    if n < 10 {
      assert Decimal(n)[..0] == [];
    } else {
      DigitsOfDecimal(n / 10);
      assert Decimal(n)[..|Decimal(n)| - 1] == Decimal(n / 10);
    }
  }

  /** Parsing undoes formatting for every 64-bit number. */
  lemma AtoiOfFormat(n: int)
    requires -0x8000_0000_0000_0000 <= n < 0x8000_0000_0000_0000
    ensures Atoi(FormatInt(n)) == n
  {
    var m := if n < 0 then -n else n;
    DecimalDigits(m);
    DigitsOfDecimal(m);
    if n < 0 {
      assert FormatInt(n)[1..] == Decimal(m);
    } else {
      assert FormatInt(n)[0] in Decimal(m);
    }
  }

  /**
     What is not a 64-bit number in decimal digits, with or without a sign, reads as zero; a plus sign
     changes nothing.
   */
  lemma AtoiOtherwise(s: string)
    ensures s == "" || s == "-" || s == "+" ==> Atoi(s) == 0
    ensures (exists i :: 0 < i < |s| && !('0' <= s[i] <= '9')) ==> Atoi(s) == 0
    ensures s != "" && !('0' <= s[0] <= '9') && s[0] != '-' && s[0] != '+' ==> Atoi(s) == 0
    ensures -0x8000_0000_0000_0000 <= Atoi(s) < 0x8000_0000_0000_0000
    ensures s != "" && '0' <= s[0] <= '9' ==> Atoi("+" + s) == Atoi(s)
  {
    if i :| 0 < i < |s| && !('0' <= s[i] <= '9') {
      assert !IsDigit(s[i]) && s[i] in s && s[i] in s[1..];
    }
    if s != "" {
      assert s[0] in s && (IsDigit(s[0]) <==> '0' <= s[0] <= '9') && ("+" + s)[1..] == s;
    }
  }

  /** The slash path with these segments, such as `/repos/{owner}/{repo}/pulls`. */
  function Pattern(segs: seq<string>): string
  {
    PathOf(segs, seq(|segs|, i requires 0 <= i < |segs| => 1), 0)
  }

  function ReviewPattern(): seq<string> { ["repos", "{owner}", "{repo}", "pulls", "{number}", "reviews"] }

  function IssuesPattern(): seq<string> { ["repos", "{owner}", "{repo}", "issues"] }

  function PullsPattern(): seq<string> { ["repos", "{owner}", "{repo}", "pulls"] }

  function ApiRoutes(): seq<Route>
  {
    [Route("POST", Pattern(ReviewPattern()), "pull.review", true,
           v => PullRef(Var(v, "owner") + "/" + Var(v, "repo"), Atoi(Var(v, "number")))),
     Route("POST", Pattern(IssuesPattern()), "issue.create", true,
           v => RepoRef(Var(v, "owner") + "/" + Var(v, "repo"))),
     Route("GET", Pattern(PullsPattern()), "pull.list", false,
           v => RepoRef(Var(v, "owner") + "/" + Var(v, "repo")))]
  }

  /** The resource of an unmapped path, coarsely. */
  function TargetFromPath(path: string): Target
  {
    var segs := SegmentsOf(path);
    if |segs| >= 3 && segs[0] == "repos" then Repo(segs[1] + "/" + segs[2])
    else if |segs| >= 2 && (segs[0] == "orgs" || segs[0] == "users") then Org(segs[1])
    else Api
  }

  function DefaultAction(verb: string): string
  {
    if verb == "GET" || verb == "HEAD" then "github.read" else "github.write"
  }

  function RowRequirement(rt: Route, segs: seq<string>, bodyHash: string): Requirement
    requires |SegmentsOf(rt.pattern)| == |segs|
  {
    Requirement(rt.action, ConvertRef(rt.resource(CapturedBy(rt, segs))),
        if rt.bindBody then map["body_sha256" := bodyHash] else map[])
  }

  function DefaultRequirement(verb: string, path: string): Requirement
  {
    Requirement(DefaultAction(verb), RefOf(TargetFromPath(path)), map[])
  }

  /** The one check a request must pass; `bodyHash` is the digest of its body. */
  method RequirementFor(routes: seq<Route>, verb: string, path: string, bodyHash: string) returns (r: Requirement)
    ensures (NoneFits(routes, |routes|, verb, SegmentsOf(path)) && r == DefaultRequirement(verb, path))
            || exists row: nat :: FirstFit(routes, row, verb, SegmentsOf(path))
                && r == RowRequirement(routes[row], SegmentsOf(path), bodyHash)
    ensures forall row: nat :: FirstFit(routes, row, verb, SegmentsOf(path)) ==>
              && r.action == routes[row].action
              && r.resource == ConvertRef(routes[row].resource(CapturedBy(routes[row], SegmentsOf(path))))
              && r.context == if routes[row].bindBody then map["body_sha256" := bodyHash] else map[]
    ensures NoneFits(routes, |routes|, verb, SegmentsOf(path)) ==>
              var segs := SegmentsOf(path);
              && r.action == (if verb == "GET" || verb == "HEAD" then "github.read" else "github.write")
              && r.context == map[] && r == DefaultRequirement(verb, path)
              && (|segs| >= 3 && segs[0] == "repos" ==> r.resource == RefOf(Repo(segs[1] + "/" + segs[2])))
              && (|segs| >= 2 && (segs[0] == "orgs" || segs[0] == "users") ==> r.resource == RefOf(Org(segs[1])))
              && (!(|segs| >= 3 && segs[0] == "repos") && !(|segs| >= 2
                  && (segs[0] == "orgs" || segs[0] == "users")) ==>
                    r.resource == ResourceRef("github.api", "github", map[], None))
  {
    r := RequirementOf(routes, verb, path, bodyHash);
    forall row: nat | FirstFit(routes, row, verb, SegmentsOf(path))
      ensures r == RowRequirement(routes[row], SegmentsOf(path), bodyHash)
    {
      if row': nat :| FirstFit(routes, row', verb, SegmentsOf(path))
                      && r == RowRequirement(routes[row'], SegmentsOf(path), bodyHash) {
        FirstFitUnique(routes, row, row', verb, SegmentsOf(path));
      }
    }
    OwnersAreNotRepos();
  }

  lemma OwnersAreNotRepos()
    ensures "repos" != "orgs" && "repos" != "users"
  {
    assert |"repos"| != |"orgs"| && "repos"[0] != "users"[0];
  }

  method RequirementOf(routes: seq<Route>, verb: string, path: string, bodyHash: string) returns (r: Requirement)
    ensures (NoneFits(routes, |routes|, verb, SegmentsOf(path)) && r == DefaultRequirement(verb, path))
            || exists row: nat :: FirstFit(routes, row, verb, SegmentsOf(path))
                && r == RowRequirement(routes[row], SegmentsOf(path), bodyHash)
  {
    var m := Match(routes, verb, path);
    if m.Some? {
      var rt := routes[m.value.row];
      r := Requirement(rt.action, ConvertRef(rt.resource(m.value.vars)), map[]);
      if rt.bindBody {
        r := r.(context := map["body_sha256" := bodyHash]);
      }
      assert r == RowRequirement(routes[m.value.row], SegmentsOf(path), bodyHash);
      return;
    }
    var action := "github.write";
    if verb == "GET" || verb == "HEAD" {
      action := "github.read";
    }
    r := Requirement(action, RefOf(TargetFromPath(path)), map[]);
  }

  /** There is at most one first row, so the requirement is a function of the request. */
  lemma FirstFitUnique(routes: seq<Route>, row: nat, row': nat, verb: string, segs: seq<string>)
    requires FirstFit(routes, row, verb, segs) && FirstFit(routes, row', verb, segs)
    ensures row == row' && !NoneFits(routes, |routes|, verb, segs)
  {
  }

  // ---------- The shipped table ----------

  lemma SegmentsOfPattern(segs: seq<string>)
    requires forall x :: x in segs ==> IsSegment(x)
    ensures SegmentsOf(Pattern(segs)) == segs
  {
    SegmentsOfPath(segs, seq(|segs|, i requires 0 <= i < |segs| => 1), 0);
  }

  lemma PatternLiterals()
    ensures IsSegment("repos") && IsSegment("pulls") && IsSegment("issues")
    ensures IsSegment("{owner}") && IsSegment("{repo}")
  {
  }

  lemma ReviewLiterals()
    ensures IsSegment("{number}") && IsSegment("reviews")
  {
  }

  lemma ReviewSegments()
    ensures SegmentsOf(Pattern(ReviewPattern())) == ReviewPattern()
  {
    PatternLiterals();
    ReviewLiterals();
    SegmentsOfPattern(ReviewPattern());
  }

  lemma IssuesSegments()
    ensures SegmentsOf(Pattern(IssuesPattern())) == IssuesPattern()
  {
    PatternLiterals();
    SegmentsOfPattern(IssuesPattern());
  }

  lemma PullsSegments()
    ensures SegmentsOf(Pattern(PullsPattern())) == PullsPattern()
  {
    PatternLiterals();
    SegmentsOfPattern(PullsPattern());
  }

  lemma RowShape(row: nat, verb: string, segs: seq<string>)
    requires row < |ApiRoutes()| && Fits(ApiRoutes()[row], verb, segs)
    ensures |segs| == if row == 0 then 6 else 4
    ensures |verb| == if row == 2 then 3 else 4
  {
    ReviewSegments();
    IssuesSegments();
    PullsSegments();
  }

  /** No request fits two rows of the shipped table, so the order of its rows does not matter. */
  lemma TableIsUnambiguous(row: nat, row': nat, verb: string, segs: seq<string>)
    requires row < |ApiRoutes()| && row' < |ApiRoutes()|
    requires Fits(ApiRoutes()[row], verb, segs) && Fits(ApiRoutes()[row'], verb, segs)
    ensures row == row'
  {
    RowShape(row, verb, segs);
    RowShape(row', verb, segs);
  }

  lemma ReviewVars()
    ensures IsVar(ReviewPattern()[1]) && IsVar(ReviewPattern()[2]) && IsVar(ReviewPattern()[4])
  {
    var p := ReviewPattern();
    assert p[1][0] == '{' && p[1][|p[1]| - 1] == '}';
    assert p[2][0] == '{' && p[2][|p[2]| - 1] == '}';
    assert p[4][0] == '{' && p[4][|p[4]| - 1] == '}';
  }

  lemma ReviewSegmentsFit(segs: seq<string>)
    requires |segs| == 6 && segs[0] == ReviewPattern()[0] && segs[3] == ReviewPattern()[3]
             && segs[5] == ReviewPattern()[5]
    ensures forall j :: 0 <= j < 6 ==> SegmentFits(ReviewPattern()[j], segs[j])
  {
    ReviewVars();
  }

  lemma ReviewFits(owner: string, repo: string, number: string)
    ensures FirstFit(ApiRoutes(), 0, "POST", ["repos", owner, repo, "pulls", number, "reviews"])
  {
    ReviewSegments();
    ReviewSegmentsFit(["repos", owner, repo, "pulls", number, "reviews"]);
  }

  lemma ReviewRefersTo(owner: string, repo: string, n: int)
    requires -0x8000_0000_0000_0000 <= n < 0x8000_0000_0000_0000
    ensures ConvertRef(ApiRoutes()[0].resource(map["owner" := owner, "repo" := repo, "number" := FormatInt(n)]))
            == RefOf(Pull(owner + "/" + repo, n))
  {
    AtoiOfFormat(n);
  }

  /** A review of pull request `n` needs `pull.review` on exactly that pull request, bound to the body. */
  lemma ReviewRequirement(owner: string, repo: string, n: int, bodyHash: string)
    requires -0x8000_0000_0000_0000 <= n < 0x8000_0000_0000_0000
    ensures var segs := ["repos", owner, repo, "pulls", FormatInt(n), "reviews"];
            FirstFit(ApiRoutes(), 0, "POST", segs)
            && RowRequirement(ApiRoutes()[0], segs, bodyHash) ==
               Requirement("pull.review", RefOf(Pull(owner + "/" + repo, n)), map["body_sha256" := bodyHash])
  {
    ReviewFits(owner, repo, FormatInt(n));
    ReviewSegments();
    ReviewCapture(["repos", owner, repo, "pulls", FormatInt(n), "reviews"]);
    ReviewRefersTo(owner, repo, n);
  }

  lemma ReviewCapture(segs: seq<string>)
    requires |segs| == 6
    ensures Capture(ReviewPattern(), segs)
            == map["owner" := segs[1], "repo" := segs[2], "number" := segs[4]]
  {
    var p := ReviewPattern();
    assert VarName(p[1]) == "owner" && VarName(p[2]) == "repo" && VarName(p[4]) == "number";
    assert !IsVar(p[0]) && !IsVar(p[3]) && !IsVar(p[5]);
    forall n: nat | n < 6
      ensures p[..n + 1][..n] == p[..n] && segs[..n + 1][..n] == segs[..n]
    {
    }
    assert Capture(p[..0], segs[..0]) == map[];
    assert Capture(p[..1], segs[..1]) == map[];
    assert Capture(p[..2], segs[..2]) == map["owner" := segs[1]];
    assert Capture(p[..3], segs[..3]) == map["owner" := segs[1], "repo" := segs[2]];
    assert Capture(p[..4], segs[..4]) == map["owner" := segs[1], "repo" := segs[2]];
    assert Capture(p[..5], segs[..5]) == map["owner" := segs[1], "repo" := segs[2], "number" := segs[4]];
    assert p[..6] == p && segs[..6] == segs;
  }

  lemma RepositoryVars(literal: string)
    requires !IsVar(literal)
    ensures var p := ["repos", "{owner}", "{repo}", literal];
            && !IsVar(p[0]) && IsVar(p[1]) && IsVar(p[2]) && VarName(p[1]) == "owner" && VarName(p[2]) == "repo"
  {
    Braced("owner", "{owner}");
    Braced("repo", "{repo}");
  }

  lemma Braced(name: string, seg: string)
    requires seg == "{" + name + "}"
    ensures IsVar(seg) && VarName(seg) == name
  {
    assert seg[1..|seg| - 1] == name;
  }

  lemma RepositoryCapture(literal: string, segs: seq<string>)
    requires !IsVar(literal) && |segs| == 4
    ensures Capture(["repos", "{owner}", "{repo}", literal], segs) == map["owner" := segs[1], "repo" := segs[2]]
  {
    var p := ["repos", "{owner}", "{repo}", literal];
    RepositoryVars(literal);
    forall n: nat | n < 4
      ensures p[..n + 1][..n] == p[..n] && segs[..n + 1][..n] == segs[..n]
    {
    }
    assert Capture(p[..0], segs[..0]) == map[];
    assert Capture(p[..1], segs[..1]) == map[];
    assert Capture(p[..2], segs[..2]) == map["owner" := segs[1]];
    assert Capture(p[..3], segs[..3]) == map["owner" := segs[1], "repo" := segs[2]];
    assert p[..4] == p && segs[..4] == segs;
  }

  lemma RepositoryFits(literal: string, segs: seq<string>)
    requires !IsVar(literal) && |segs| == 4
    ensures (forall j :: 0 <= j < 4 ==> SegmentFits(["repos", "{owner}", "{repo}", literal][j], segs[j]))
            <==> segs[0] == "repos" && segs[3] == literal
  {
    var p := ["repos", "{owner}", "{repo}", literal];
    RepositoryVars(literal);
    assert SegmentFits(p[0], segs[0]) <==> segs[0] == "repos";
    assert SegmentFits(p[3], segs[3]) <==> segs[3] == literal;
  }

  lemma FitsInText(rt: Route, literal: string, verb: string, segs: seq<string>)
    requires !IsVar(literal) && SegmentsOf(rt.pattern) == ["repos", "{owner}", "{repo}", literal]
    ensures Fits(rt, verb, segs) <==> rt.verb == verb && |segs| == 4 && segs[0] == "repos" && segs[3] == literal
  {
    if |segs| == 4 {
      RepositoryFits(literal, segs);
    }
  }

  /** Which requests the rows after the first are for: creating an issue, and listing pull requests. */
  lemma OtherRowsInText(verb: string, segs: seq<string>)
    ensures Fits(ApiRoutes()[1], verb, segs)
            <==> verb == "POST" && |segs| == 4 && segs[0] == "repos" && segs[3] == "issues"
    ensures Fits(ApiRoutes()[2], verb, segs)
            <==> verb == "GET" && |segs| == 4 && segs[0] == "repos" && segs[3] == "pulls"
  {
    IssuesSegments();
    PullsSegments();
    FitsInText(ApiRoutes()[1], "issues", verb, segs);
    FitsInText(ApiRoutes()[2], "pulls", verb, segs);
  }

  /** The first row is for reviews of pull requests. */
  lemma FirstRowInText(verb: string, segs: seq<string>)
    ensures Fits(ApiRoutes()[0], verb, segs) <==>
            verb == "POST" && |segs| == 6 && segs[0] == "repos" && segs[3] == "pulls" && segs[5] == "reviews"
  {
    ReviewSegments();
    if |segs| == 6 {
      ReviewSegmentsInText(segs);
    }
  }

  lemma ReviewSegmentsInText(segs: seq<string>)
    requires |segs| == 6
    ensures (forall j :: 0 <= j < 6 ==> SegmentFits(ReviewPattern()[j], segs[j]))
            <==> segs[0] == "repos" && segs[3] == "pulls" && segs[5] == "reviews"
  {
    var p := ReviewPattern();
    ReviewVars();
    assert SegmentFits(p[0], segs[0]) <==> segs[0] == "repos";
    assert SegmentFits(p[3], segs[3]) <==> segs[3] == "pulls";
    assert SegmentFits(p[5], segs[5]) <==> segs[5] == "reviews";
  }

  /**
     Creating an issue needs `issue.create` on its repository, bound to the body; listing pulls needs
     `pull.list` there.
   */
  lemma OtherRequirements(segs: seq<string>, bodyHash: string)
    requires |segs| == 4
    ensures Fits(ApiRoutes()[1], "POST", segs) ==>
              RowRequirement(ApiRoutes()[1], segs, bodyHash) ==
              Requirement("issue.create", RefOf(Repo(segs[1] + "/" + segs[2])), map["body_sha256" := bodyHash])
    ensures Fits(ApiRoutes()[2], "GET", segs) ==>
              RowRequirement(ApiRoutes()[2], segs, bodyHash)
                  == Requirement("pull.list", RefOf(Repo(segs[1] + "/" + segs[2])), map[])
  {
    IssuesSegments();
    PullsSegments();
    RepositoryCapture("issues", segs);
    RepositoryCapture("pulls", segs);
    RowRefersTo(1, segs[1], segs[2]);
    RowRefersTo(2, segs[1], segs[2]);
  }

  lemma RowRefersTo(row: nat, owner: string, repo: string)
    requires row == 1 || row == 2
    ensures ConvertRef(ApiRoutes()[row].resource(map["owner" := owner, "repo" := repo]))
            == RefOf(Repo(owner + "/" + repo))
  {
    assert "owner" != "repo" by { assert |"owner"| != |"repo"|; }
  }

  // ---------- Unmapped endpoints fail closed ----------

  /** No issued policy covers an action the vocabulary does not declare. */
  lemma UndeclaredActionUnsatisfied(s: Schema, p: Policy, r: Requirement, world: seq<Entity>)
    requires WellFormed(s, [r]) && IsWorld(s, [r], world) && !HasAction(s, r.action) && Issued(s, p)
    ensures !Satisfied(LastWins(world), p, Question(s, r))
  {
    var c :| HasHeadOf(s, c, p) && forall a :: a in c.actions ==> HasAction(s, a);
    HeadMeansCovers(s, [r], world, c, p, r);
    forall a | a in c.actions
      ensures !Reaches(Lattice(s), r.action, a)
    {
      ReachesUnfold(Lattice(s), r.action, a);
    }
  }

  lemma DefaultIsWellFormed(s: Schema, verb: string, path: string)
    requires IsGitHub(s)
    ensures WellFormed(s, [DefaultRequirement(verb, path)])
  {
    GitHubIsWellFormed(s, [DefaultRequirement(verb, path)]);
  }

  lemma NothingSatisfiedDenies(em: EntityMap, policies: seq<Policy>, q: Request)
    requires forall p :: p in policies && p.effect == Permit ==> !Satisfied(em, p, q)
    ensures !Allows(em, policies, q)
  {
  }

  /**
   Whatever the method and path, a request that matches no row is denied: nothing the resource
   server can issue over a vocabulary without the two coarse actions authorizes it.
   */
  lemma UnmappedFailsClosed(s: Schema, policies: seq<Policy>, verb: string, path: string, world: seq<Entity>)
    requires IsGitHub(s) && !HasAction(s, "github.read") && !HasAction(s, "github.write")
    requires forall p :: p in policies && p.effect == Permit ==> Issued(s, p)
    requires IsWorld(s, [DefaultRequirement(verb, path)], world)
    ensures !Decision(LastWins(world), policies, Questions(s, [DefaultRequirement(verb, path)]))
  {
    var r := DefaultRequirement(verb, path);
    DefaultIsWellFormed(s, verb, path);
    forall p | p in policies && p.effect == Permit
      ensures !Satisfied(LastWins(world), p, Question(s, r))
    {
      UndeclaredActionUnsatisfied(s, p, r, world);
    }
    NothingSatisfiedDenies(LastWins(world), policies, Question(s, r));
    assert Questions(s, [r])[0] == Question(s, r);
    assert Question(s, r) in Questions(s, [r]);
  }
}
