/** One output filter (rtk/src/line_filter.rs): rewriting, selection, truncation,
    deduplication and head/tail retention of lines. Regexes are predicates and string
    functions. */
module LineFilter {
  import opened Text
  import opened Lines
  import opened Dedup
  import T = SmartTruncate

  type Pattern = string -> bool

  datatype OutputRule = OutputRule(pattern: Pattern, unless: Option<Pattern>, message: string)

  datatype Filter = Filter(
    commandTypes: seq<string>,
    commandPatterns: seq<Pattern>,
    matchPatterns: seq<Pattern>,
    stripAnsi: bool,
    filterStderr: bool,
    replace: seq<string -> string>,
    matchOutput: seq<OutputRule>,
    stripPatterns: seq<Pattern>,
    keepPatterns: seq<Pattern>,
    collapsePatterns: seq<Pattern>,
    truncateLineAt: nat,
    deduplicate: bool,
    maxLines: nat,
    preserveHead: nat,
    preserveTail: nat,
    priorityPatterns: seq<Pattern>,
    onEmpty: string)

  /** The two fixed rewritings. */
  datatype Regexes = Regexes(ansi: string -> string, stderr: string -> string)

  const DEDUP_THRESHOLD: nat := 3

  predicate Any(ps: seq<Pattern>, l: string) {
    exists i :: 0 <= i < |ps| && ps[i](l)
  }

  // ---- rewriting ------------------------------------------------------------

  function Replaced(rs: seq<string -> string>, l: string): string {
    if |rs| == 0 then l else rs[|rs| - 1](Replaced(rs[..|rs| - 1], l))
  }

  /** A line after the ANSI, stderr and replacement stages. */
  function Rewritten(f: Filter, re: Regexes, l: string): string {
    var a := if f.stripAnsi then re.ansi(l) else l;
    var b := if f.filterStderr then re.stderr(a) else a;
    Replaced(f.replace, b)
  }

  function MapLines(g: string -> string, lines: seq<string>): (r: seq<string>)
    ensures |r| == |lines| && forall i :: 0 <= i < |r| ==> r[i] == g(lines[i])
  {
    seq(|lines|, i requires 0 <= i < |lines| => g(lines[i]))
  }

  function Rewrite(f: Filter, re: Regexes, text: string): seq<string> {
    MapLines(l => Rewritten(f, re, l), SplitLines(text))
  }

  /** The message of the first output rule that applies to the whole text. */
  function ShortCircuit(rules: seq<OutputRule>, blob: string): Option<string> {
    if |rules| == 0 then None
    else if rules[0].pattern(blob) && !(rules[0].unless.Some? && rules[0].unless.value(blob)) then Some(rules[0].message)
    else ShortCircuit(rules[1..], blob)
  }

  /** The replacements apply one after the other, the first first, after the ANSI codes and
      the stderr prefix have gone, in that order, each if asked for. */
  lemma RewrittenExactly(f: Filter, re: Regexes, g: string -> string, rest: seq<string -> string>, l: string)
    ensures Replaced([], l) == l && Replaced([g] + rest, l) == Replaced(rest, g(l))
    ensures f.stripAnsi && f.filterStderr ==> Rewritten(f, re, l) == Replaced(f.replace, re.stderr(re.ansi(l)))
    ensures f.stripAnsi && !f.filterStderr ==> Rewritten(f, re, l) == Replaced(f.replace, re.ansi(l))
    ensures !f.stripAnsi && f.filterStderr ==> Rewritten(f, re, l) == Replaced(f.replace, re.stderr(l))
    ensures !f.stripAnsi && !f.filterStderr ==> Rewritten(f, re, l) == Replaced(f.replace, l)
  {
    FirstReplacement(g, rest, l);
  }

  lemma {:induction false} FirstReplacement(g: string -> string, rest: seq<string -> string>, l: string)
    ensures Replaced([g] + rest, l) == Replaced(rest, g(l))
  {
    if |rest| == 0 {
      assert [g] + rest == [g] && [g][..0] == [];
    } else {
      FirstReplacement(g, rest[..|rest| - 1], l);
      assert ([g] + rest)[..|rest|] == [g] + rest[..|rest| - 1];
    }
  }

  /** Rule `i` replaces the output: its pattern matches and its exception does not, and
      that holds of no rule before it. */
  ghost predicate IsFirstRule(rules: seq<OutputRule>, blob: string, i: nat) {
    && i < |rules| && rules[i].pattern(blob) && (rules[i].unless.Some? ==> !rules[i].unless.value(blob))
    && forall j :: 0 <= j < i ==>
         !rules[j].pattern(blob) || (rules[j].unless.Some? && rules[j].unless.value(blob))
  }

  lemma {:induction false} ShortCircuitExactly(rules: seq<OutputRule>, blob: string)
    ensures forall i: nat :: IsFirstRule(rules, blob, i) ==> ShortCircuit(rules, blob) == Some(rules[i].message)
    ensures ShortCircuit(rules, blob).Some? ==> exists i: nat :: IsFirstRule(rules, blob, i)
  {
    if |rules| > 0 {
      var rest := rules[1..];
      assert rules == [rules[0]] + rest;
      ShortCircuitExactly(rest, blob);
      forall i: nat | IsFirstRule(rules, blob, i)
        ensures ShortCircuit(rules, blob) == Some(rules[i].message)
      {
        if i > 0 {
          assert IsFirstRule(rest, blob, i - 1);
        }
      }
      if rules[0].pattern(blob) && !(rules[0].unless.Some? && rules[0].unless.value(blob)) {
        assert IsFirstRule(rules, blob, 0);
      } else if i: nat :| IsFirstRule(rest, blob, i) {
        assert IsFirstRule(rules, blob, i + 1);
      }
    }
  }

  // ---- selection ------------------------------------------------------------

  function Stripped(f: Filter, lines: seq<string>): seq<string> {
    T.KeepIf(lines, l => !Any(f.stripPatterns, l))
  }

  /** The keep patterns, unless they would leave nothing. */
  function KeptOf(f: Filter, lines: seq<string>): seq<string> {
    var kept := T.KeepIf(lines, l => Any(f.keepPatterns, l));
    if f.keepPatterns == [] || kept == [] then lines else kept
  }

  /** A line matched by `p` with the same trimmed text is in `lines`. */
  predicate SeenIn(p: Pattern, lines: seq<string>, l: string) {
    exists i :: 0 <= i < |lines| && p(lines[i]) && Trim(lines[i]) == Trim(l)
  }

  function CollapseBy(p: Pattern, lines: seq<string>): seq<string> {
    if |lines| == 0 then []
    else
      var init, l := lines[..|lines| - 1], lines[|lines| - 1];
      if p(l) && SeenIn(p, init, l) then CollapseBy(p, init) else CollapseBy(p, init) + [l]
  }

  function Selected(f: Filter, lines: seq<string>): seq<string> {
    CollapseBy(l => Any(f.collapsePatterns, l), KeptOf(f, Stripped(f, lines)))
  }

  /** Whether the selection lets line `i` through, stage by stage but of the original
      lines: it is not stripped; it is kept, or no line that is left is to be kept; and it
      is not to be collapsed into an earlier one that got as far. */
  predicate Enters(f: Filter, lines: seq<string>, i: nat)
    requires i < |lines|
  {
    && !Any(f.stripPatterns, lines[i])
    && (Any(f.keepPatterns, lines[i])
        || forall j :: 0 <= j < |lines| ==> Any(f.stripPatterns, lines[j]) || !Any(f.keepPatterns, lines[j]))
  }

  predicate Passes(f: Filter, lines: seq<string>, i: nat)
    requires i < |lines|
  {
    && Enters(f, lines, i)
    && (Any(f.collapsePatterns, lines[i]) ==>
          forall j :: 0 <= j < i && Enters(f, lines, j) && Any(f.collapsePatterns, lines[j]) ==>
                        Trim(lines[j]) != Trim(lines[i]))
  }

  /** The lines among the first `n` that pass, in order. */
  function Passing(f: Filter, lines: seq<string>, n: nat): seq<string>
    requires n <= |lines|
  {
    if n == 0 then []
    else Passing(f, lines, n - 1) + if Passes(f, lines, n - 1) then [lines[n - 1]] else []
  }

  function Entering(f: Filter, lines: seq<string>, n: nat): seq<string>
    requires n <= |lines|
  {
    if n == 0 then []
    else Entering(f, lines, n - 1) + if Enters(f, lines, n - 1) then [lines[n - 1]] else []
  }

  lemma {:induction false} KeepIfTwice(lines: seq<string>, p: Pattern, q: Pattern, r: Pattern)
    requires forall l <- lines :: r(l) <==> p(l) && q(l)
    ensures T.KeepIf(T.KeepIf(lines, p), q) == T.KeepIf(lines, r)
  {
    if |lines| > 0 {
      var init, l := lines[..|lines| - 1], lines[|lines| - 1];
      assert l in lines && forall x <- init :: x in lines;
      KeepIfTwice(init, p, q, r);
      var k := T.KeepIf(init, p);
      assert (k + [l])[..|k|] == k;
    }
  }

  lemma {:induction false} KeepIfEnters(f: Filter, lines: seq<string>, n: nat, p: Pattern)
    requires n <= |lines| && forall i :: 0 <= i < |lines| ==> (p(lines[i]) <==> Enters(f, lines, i))
    ensures T.KeepIf(lines[..n], p) == Entering(f, lines, n)
  {
    hide Enters;
    if n > 0 {
      KeepIfEnters(f, lines, n - 1, p);
      assert lines[..n][..n - 1] == lines[..n - 1];
      assert Entering(f, lines, n - 1) + [] == Entering(f, lines, n - 1);
    }
  }

  lemma KeepIfNothing(lines: seq<string>, p: Pattern)
    ensures T.KeepIf(lines, p) == [] <==> forall l <- lines :: !p(l)
  {
    T.KeepIfKeeps(lines, p);
    var k := T.KeepIf(lines, p);
    assert |k| > 0 ==> k[0] in k;
  }

  /** The first two stages let through exactly the entering lines. */
  lemma KeptEnters(f: Filter, lines: seq<string>)
    ensures KeptOf(f, Stripped(f, lines)) == Entering(f, lines, |lines|)
  {
    hide Any;
    var strip: Pattern := l => !Any(f.stripPatterns, l);
    var keep: Pattern := l => Any(f.keepPatterns, l);
    var both: Pattern := l => !Any(f.stripPatterns, l) && Any(f.keepPatterns, l);
    KeepIfTwice(lines, strip, keep, both);
    KeepIfNothing(lines, both);
    assert lines[..|lines|] == lines;
    NoPatterns(f, lines);
    if f.keepPatterns == [] || T.KeepIf(lines, both) == [] {
      assert forall i :: 0 <= i < |lines| ==> lines[i] in lines;
      assert forall i :: 0 <= i < |lines| ==> !both(lines[i]);
      KeepIfEnters(f, lines, |lines|, strip);
    } else {
      var l :| l in lines && both(l);
      var j :| 0 <= j < |lines| && lines[j] == l;
      KeepIfEnters(f, lines, |lines|, both);
    }
  }

  lemma NoPatterns(f: Filter, lines: seq<string>)
    ensures f.keepPatterns == [] ==> forall l <- lines :: !Any(f.keepPatterns, l)
  {
  }

  lemma {:induction false} EnteringHas(f: Filter, lines: seq<string>, n: nat, p: Pattern, l: string)
    requires n <= |lines|
    ensures SeenIn(p, Entering(f, lines, n), l) <==>
              exists j :: 0 <= j < n && Enters(f, lines, j) && p(lines[j]) && Trim(lines[j]) == Trim(l)
  {
    hide Enters, Trim;
    if n > 0 {
      EnteringHas(f, lines, n - 1, p, l);
      var init := Entering(f, lines, n - 1);
      if Enters(f, lines, n - 1) {
        SeenAppend(p, init, lines[n - 1], l);
      } else {
        assert init + [] == init;
      }
    }
  }

  lemma SeenAppend(p: Pattern, init: seq<string>, x: string, l: string)
    ensures SeenIn(p, init + [x], l) <==> SeenIn(p, init, l) || (p(x) && Trim(x) == Trim(l))
  {
    hide Trim;
    var now := init + [x];
    assert now[|init|] == x;
    if i :| 0 <= i < |init| && p(init[i]) && Trim(init[i]) == Trim(l) {
      assert now[i] == init[i];
    }
  }

  lemma {:induction false} CollapsePasses(f: Filter, lines: seq<string>, n: nat)
    requires n <= |lines|
    ensures CollapseBy(l => Any(f.collapsePatterns, l), Entering(f, lines, n)) == Passing(f, lines, n)
  {
    hide Enters, Trim, Any, SeenIn;
    if n > 0 {
      var p: Pattern := l => Any(f.collapsePatterns, l);
      CollapsePasses(f, lines, n - 1);
      var init, l := Entering(f, lines, n - 1), lines[n - 1];
      assert Passing(f, lines, n - 1) + [] == Passing(f, lines, n - 1);
      if Enters(f, lines, n - 1) {
        assert (init + [l])[..|init|] == init;
        EnteringHas(f, lines, n - 1, p, l);
      } else {
        assert init + [] == init;
      }
    }
  }

  /** Strip, keep and collapse together select exactly the passing lines, in order. */
  lemma SelectionIsPassing(f: Filter, lines: seq<string>)
    ensures Selected(f, lines) == Passing(f, lines, |lines|)
  {
    hide KeptOf, Stripped, Passing, Entering, CollapseBy;
    KeptEnters(f, lines);
    CollapsePasses(f, lines, |lines|);
  }

  lemma {:induction false} PassingHas(f: Filter, lines: seq<string>, n: nat, i: nat)
    requires i < n <= |lines| && Passes(f, lines, i)
    ensures lines[i] in Passing(f, lines, n)
  {
    hide Passes;
    if i < n - 1 {
      PassingHas(f, lines, n - 1, i);
    }
  }

  // ---- line length ----------------------------------------------------------

  /** `truncate_unicode_safe`. */
  function TruncateSafe(line: string, maxChars: nat): string {
    if maxChars == 0 || |line| <= maxChars then line
    else if maxChars <= 3 then line[..maxChars]
    else line[..maxChars - 3] + "..."
  }

  /** A line is cut to the limit exactly and keeps its beginning; it is left alone
      exactly when it is within the limit. */
  lemma TruncateSafeCaps(line: string, maxChars: nat)
    requires maxChars > 0
    ensures |TruncateSafe(line, maxChars)| == T.Min(|line|, maxChars)
    ensures TruncateSafe(line, maxChars) == line <==> |line| <= maxChars
    ensures 3 < maxChars < |line| ==> TruncateSafe(line, maxChars) == line[..maxChars - 3] + "..."
    ensures maxChars <= 3 && maxChars < |line| ==> TruncateSafe(line, maxChars) == line[..maxChars]
  {
  }

  // ---- the whole filter -----------------------------------------------------

  function Shortened(f: Filter, lines: seq<string>): seq<string> {
    MapLines(l => TruncateSafe(l, f.truncateLineAt), lines)
  }

  function Deduped(f: Filter, lines: seq<string>): seq<string> {
    var joined := SplitLines(Join(lines));
    if f.deduplicate && Collapsed(joined, DEDUP_THRESHOLD) > 0
    then SplitLines(Join(Encode(joined, DEDUP_THRESHOLD))) else lines
  }

  function FinalOptions(f: Filter, maxLines: nat): T.Options {
    T.Options(maxLines, 0, f.preserveHead, f.preserveTail, l => Any(f.priorityPatterns, l))
  }

  function Finished(f: Filter, maxLines: nat, lines: seq<string>): string {
    T.Truncated(Join(lines), FinalOptions(f, maxLines), 0)
  }

  function OrEmpty(f: Filter, text: string): string {
    if Trim(text) == "" && f.onEmpty != "" then f.onEmpty else text
  }

  /** The text of `apply_line_filter`. */
  function Applied(f: Filter, re: Regexes, text: string, limit: Option<nat>): string {
    var lines := Rewrite(f, re, text);
    match ShortCircuit(f.matchOutput, Join(lines))
    case Some(message) => message
    case None =>
      OrEmpty(f, Finished(f, limit.GetOr(f.maxLines), Deduped(f, Shortened(f, Selected(f, lines)))))
  }

  lemma {:induction false} SplitOfTwo(a: string, b: string)
    ensures SplitLf(a + "\n" + b) == SplitLf(a) + SplitLf(b)
  {
    hide SplitLf, PutFirst;
    if |a| == 0 {
      SplitHead('\n', b);
      SplitOne("");
      assert "" + "\n" + b == ['\n'] + b && a == "";
    } else {
      var rest := a[1..] + "\n" + b;
      SplitOfTwo(a[1..], b);
      assert a == [a[0]] + a[1..] && a + "\n" + b == [a[0]] + rest;
      SplitHead(a[0], a[1..]);
      SplitHead(a[0], rest);
      if a[0] == '\n' {
        Associative([""], SplitLf(a[1..]), SplitLf(b));
      } else {
        PutFirstAppend(a[0], SplitLf(a[1..]), SplitLf(b));
      }
    }
  }

  /** A line without line feeds is a line of the joined text, whatever the others hold. */
  lemma {:induction false} JoinedHas(lines: seq<string>, l: string)
    requires l in lines && '\n' !in l
    ensures l in SplitLf(Join(lines))
  {
    if |lines| == 1 {
      SplitOne(l);
    } else {
      SplitOfTwo(lines[0], Join(lines[1..]));
      if l == lines[0] {
        SplitOne(l);
      } else {
        JoinedHas(lines[1..], l);
      }
    }
  }

  lemma StrippedHas(text: string, l: string)
    requires l in SplitLf(text) && !EndsInCr(l)
    ensures l in SplitLines(text)
  {
    var p := SplitLf(text);
    var i :| 0 <= i < |p| && p[i] == l;
    assert SplitLines(text)[i] == l;
  }

  lemma {:induction false} EncodeKeeps(lines: seq<string>, t: nat, l: string)
    requires l in lines
    ensures l in Encode(lines, t)
    decreases |lines|
  {
    hide Repeated, Dropped;
    var n := Taken(lines, t);
    var i :| 0 <= i < |lines| && lines[i] == l;
    if i < n {
      assert l == lines[0] == Written(lines, t)[0];
    } else {
      assert lines[n..][i - n] == l;
      EncodeKeeps(lines[n..], t, l);
    }
  }

  /** A line that can be joined and split without changing. */
  ghost predicate Steady(l: string) {
    '\n' !in l && !EndsInCr(l)
  }

  lemma DedupedHas(f: Filter, lines: seq<string>, l: string)
    requires l in lines && Steady(l)
    ensures l in Deduped(f, lines)
  {
    hide Encode, Join, SplitLf, SplitLines, Collapsed;
    JoinedHas(lines, l);
    StrippedHas(Join(lines), l);
    var joined := SplitLines(Join(lines));
    EncodeKeeps(joined, DEDUP_THRESHOLD, l);
    JoinedHas(Encode(joined, DEDUP_THRESHOLD), l);
    StrippedHas(Join(Encode(joined, DEDUP_THRESHOLD)), l);
  }

  /** Cutting lines never loses a priority line of the text. */
  lemma TruncatedHas(text: string, o: T.Options, l: string)
    requires o.maxChars == 0 && l in SplitLf(text) && Steady(l) && o.priority(l)
    ensures l in SplitLf(T.Truncated(text, o, 0))
  {
    hide SplitLf, SplitLines, T.Selected, T.Over, T.LineMarker, Join, T.Head, T.TailBeyondHead, T.Parts;
    StrippedHas(text, l);
    if T.Over(text, o) {
      T.LinesOfOutput(text, o, 0);
      var lines := SplitLines(text);
      var out := SplitLf(T.Truncated(text, o, 0));
      var h, s := T.Head(lines, o), T.Selected(lines, o);
      T.PriorityAndTailSurvive(lines, o, l);
      var i :| 0 <= i < |s| && s[i] == l;
      if i < |h| {
        assert out[..|h|][i] == h[i] == s[i];
      } else {
        assert out[|h| + 1..][i - |h|] == s[|h|..][i - |h|];
      }
    }
  }

  lemma {:induction false} TrimStartSkips(s: string)
    ensures TrimStart(s) == "" <==> Blank(s)
    ensures TrimStart(s) != "" ==> !IsWhitespace(TrimStart(s)[0])
  {
    if |s| > 0 {
      assert s[0] in s && s == [s[0]] + s[1..];
      TrimStartSkips(s[1..]);
    }
  }

  lemma {:induction false} TrimEndKeepsText(s: string)
    requires s != "" && !IsWhitespace(s[0])
    ensures TrimEnd(s) != ""
  {
    if IsWhitespace(s[|s| - 1]) {
      TrimEndKeepsText(s[..|s| - 1]);
    }
  }

  lemma TrimmedEmptyExactly(s: string)
    ensures Trim(s) == "" <==> Blank(s)
  {
    TrimStartSkips(s);
    if TrimStart(s) != "" {
      TrimEndKeepsText(TrimStart(s));
    }
  }

  lemma {:induction false} PieceChars(s: string, l: string)
    requires l in SplitLf(s)
    ensures forall c <- l :: c in s
  {
    if |s| > 0 {
      var r := SplitLf(s[1..]);
      assert s == [s[0]] + s[1..];
      assert r[0] in r && forall x <- r[1..] :: x in r;
      if l in r {
        PieceChars(s[1..], l);
      } else if l != "" {
        PieceChars(s[1..], r[0]);
        assert l == [s[0]] + r[0];
      }
    }
  }

  lemma OrEmptyHas(f: Filter, text: string, l: string)
    requires l in SplitLf(text) && !Blank(l)
    ensures OrEmpty(f, text) == text
  {
    PieceChars(text, l);
    TrimmedEmptyExactly(text);
  }

  /** Unless an output rule replaces everything: a priority line that the selection
      lets through and that is not cut for length is a line of the output, whatever the
      other stages do. */
  lemma PriorityLineSurvives(f: Filter, re: Regexes, text: string, limit: Option<nat>, i: nat)
    requires i < |Rewrite(f, re, text)|
    requires ShortCircuit(f.matchOutput, Join(Rewrite(f, re, text))) == None
    requires var lines := Rewrite(f, re, text); var l := lines[i];
             && Passes(f, lines, i) && Any(f.priorityPatterns, l)
             && (f.truncateLineAt == 0 || |l| <= f.truncateLineAt)
             && Steady(l) && !Blank(l)
    ensures Rewrite(f, re, text)[i] in SplitLf(Applied(f, re, text, limit))
  {
    hide Rewrite, Passes, Any, Passing, Selected, Deduped, SplitLf, Join, Steady, Blank, ShortCircuit, OrEmpty;
    var lines := Rewrite(f, re, text);
    var l := lines[i];
    SelectionIsPassing(f, lines);
    PassingHas(f, lines, |lines|, i);
    var selected := Selected(f, lines);
    var k :| 0 <= k < |selected| && selected[k] == l;
    assert Shortened(f, selected)[k] == l;
    DedupedHas(f, Shortened(f, selected), l);
    var deduped := Deduped(f, Shortened(f, selected));
    SteadyJoined(deduped, l);
    var o := FinalOptions(f, limit.GetOr(f.maxLines));
    TruncatedHas(Join(deduped), o, l);
    OrEmptyHas(f, T.Truncated(Join(deduped), o, 0), l);
  }

  lemma SteadyJoined(lines: seq<string>, l: string)
    requires l in lines && Steady(l)
    ensures l in SplitLf(Join(lines))
  {
    JoinedHas(lines, l);
  }

  // ---- the stages in order --------------------------------------------------

  lemma CollapseStep(p: Pattern, lines: seq<string>, k: nat)
    requires k < |lines|
    ensures CollapseBy(p, lines[..k + 1]) ==
              if p(lines[k]) && SeenIn(p, lines[..k], lines[k]) then CollapseBy(p, lines[..k])
              else CollapseBy(p, lines[..k]) + [lines[k]]
  {
    assert lines[..k + 1][..k] == lines[..k];
  }

  lemma SeenStep(p: Pattern, lines: seq<string>, k: nat, l: string)
    requires k < |lines|
    ensures SeenIn(p, lines[..k + 1], l) <==> SeenIn(p, lines[..k], l) || (p(lines[k]) && Trim(lines[k]) == Trim(l))
  {
    assert lines[..k + 1] == lines[..k] + [lines[k]];
    SeenAppend(p, lines[..k], lines[k], l);
  }

  /** The collapse stage, with the set of trimmed texts seen so far. */
  method CollapseLines(ps: seq<Pattern>, lines: seq<string>) returns (r: seq<string>)
    ensures r == CollapseBy(l => Any(ps, l), lines)
  {
    hide Any, Trim, SeenIn;
    ghost var p: Pattern := l => Any(ps, l);
    var seen: set<string> := {};
    r := [];
    NoneSeen(p);
    for k := 0 to |lines|
      invariant r == CollapseBy(p, lines[..k])
      invariant forall l :: Trim(l) in seen <==> SeenIn(p, lines[..k], l)
    {
      CollapseStep(p, lines, k);
      forall l
        ensures SeenIn(p, lines[..k + 1], l) <==> SeenIn(p, lines[..k], l) || (p(lines[k]) && Trim(lines[k]) == Trim(l))
      {
        SeenStep(p, lines, k, l);
      }
      if !Any(ps, lines[k]) {
        r := r + [lines[k]];
      } else {
        var key := Trim(lines[k]);
        if key !in seen {
          r := r + [lines[k]];
        }
        seen := seen + {key};
      }
    }
    assert lines[..|lines|] == lines;
  }

  lemma NoneSeen(p: Pattern)
    ensures forall l :: !SeenIn(p, [], l)
  {
  }

  /** What a filter's output must be: the message of the first rule that applies; else the
      passing lines, cut for length, deduplicated and truncated, or the text for an empty
      output. */
  ghost predicate IsFiltered(f: Filter, re: Regexes, text: string, limit: Option<nat>, r: string) {
    var lines := Rewrite(f, re, text);
    var p := Passing(f, lines, |lines|);
    var cut := seq(|p|, i requires 0 <= i < |p| => TruncateSafe(p[i], f.truncateLineAt));
    var joined := SplitLines(Join(cut));
    var left := if f.deduplicate && Collapsed(joined, 3) > 0 then SplitLines(Join(Encode(joined, 3))) else cut;
    && |lines| == |SplitLines(text)| && (forall i :: 0 <= i < |lines| ==> lines[i] == Rewritten(f, re, SplitLines(text)[i]))
    && (forall i: nat :: IsFirstRule(f.matchOutput, Join(lines), i) ==> r == f.matchOutput[i].message)
    && ((forall i: nat :: !IsFirstRule(f.matchOutput, Join(lines), i)) ==>
          exists t :: T.IsTruncation(Join(left), FinalOptions(f, if limit.Some? then limit.value else f.maxLines), 0, t)
                      && r == if Blank(t.text) && f.onEmpty != "" then f.onEmpty else t.text)
  }

  lemma FinalOptionsExactly(f: Filter, n: nat, l: string)
    ensures var o := FinalOptions(f, n);
            && o.maxLines == n && o.maxChars == 0 && o.preserveHead == f.preserveHead && o.preserveTail == f.preserveTail
            && (o.priority(l) <==> exists i :: 0 <= i < |f.priorityPatterns| && f.priorityPatterns[i](l))
  {
  }

  lemma FinishedIs(f: Filter, n: nat, lines: seq<string>)
    ensures exists t :: T.IsTruncation(Join(lines), FinalOptions(f, n), 0, t) && t.text == Finished(f, n, lines)
  {
    hide Join, T.Truncated, T.DroppedLines, T.IsTruncation;
    var text, o := Join(lines), FinalOptions(f, n);
    var t := T.Truncation(T.Truncated(text, o, 0), T.Over(text, o), if T.Over(text, o) then T.DroppedLines(text, o, 0) else 0);
    T.TruncatedIs(text, o, 0, t);
  }

  /** The filter meets it. */
  lemma AppliedIsFiltered(f: Filter, re: Regexes, text: string, limit: Option<nat>)
    ensures IsFiltered(f, re, text, limit, Applied(f, re, text, limit))
  {
    hide Join, Encode, Collapsed, SplitLines, TruncateSafe, Finished, ShortCircuit, Rewritten, Passing, Selected, Trim;
    hide IsFirstRule, T.IsTruncation, Blank;
    var lines := Rewrite(f, re, text);
    ShortCircuitExactly(f.matchOutput, Join(lines));
    SelectionIsPassing(f, lines);
    var p := Passing(f, lines, |lines|);
    var cut := seq(|p|, i requires 0 <= i < |p| => TruncateSafe(p[i], f.truncateLineAt));
    assert Shortened(f, Selected(f, lines)) == cut;
    var n := if limit.Some? then limit.value else f.maxLines;
    FinishedIs(f, n, Deduped(f, cut));
    TrimmedEmptyExactly(Finished(f, n, Deduped(f, cut)));
  }

  /** `apply_line_filter`. */
  method ApplyLineFilter(f: Filter, re: Regexes, text: string, limit: Option<nat>) returns (r: string)
    ensures IsFiltered(f, re, text, limit, r)
    ensures r == Applied(f, re, text, limit)
  {
    AppliedIsFiltered(f, re, text, limit);
    hide Rewritten, Any, SeenIn, Encode, Collapsed, SplitLines, Join, ShortCircuit, Trim, TruncateSafe, T.Truncated, IsFiltered;
    var lines := MapLines(l => Rewritten(f, re, l), SplitLines(text));
    var message := ShortCircuit(f.matchOutput, Join(lines));
    if message.Some? {
      return message.value;
    }
    lines := T.KeepIf(lines, l => !Any(f.stripPatterns, l));
    if f.keepPatterns != [] {
      var kept := T.KeepIf(lines, l => Any(f.keepPatterns, l));
      if kept != [] {
        lines := kept;
      }
    }
    lines := CollapseLines(f.collapsePatterns, lines);
    lines := MapLines(l => TruncateSafe(l, f.truncateLineAt), lines);
    if f.deduplicate {
      var deduped, collapsed := DeduplicateRepeatedLines(Join(lines), DEDUP_THRESHOLD);
      if collapsed > 0 {
        lines := SplitLines(deduped);
      }
    }
    var truncated := T.Run(Join(lines), FinalOptions(f, limit.GetOr(f.maxLines)), 0);
    r := if Trim(truncated.text) == "" && f.onEmpty != "" then f.onEmpty else truncated.text;
  }
}
