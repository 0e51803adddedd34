/** The quote-aware command splitter (rtk/src/detector.rs). */
module Detector {
  import opened Text
  import opened Lines

  /** What the scanner remembers. */
  datatype Scan = Scan(single: bool, double: bool, backtick: bool, depth: nat)

  const TOP := Scan(false, false, false, 0)

  predicate Opens(s: string, i: nat) {
    i + 1 < |s| && s[i] == '$' && s[i + 1] == '('
  }

  /** Characters consumed at `i`. */
  function Width(s: string, i: nat, st: Scan): (w: nat)
    requires i < |s|
    ensures 1 <= w && i + w <= |s|
  {
    if !st.single && !st.backtick && (st.double || st.depth == 0) && Opens(s, i) then 2 else 1
  }

  /** The scanner after the characters at `i`. */
  function Next(s: string, i: nat, st: Scan): Scan
    requires i < |s|
  {
    var ch := s[i];
    if st.single then st.(single := ch != '\'')
    else if st.backtick then st.(backtick := ch != '`')
    else if st.double then st.(double := ch != '"', depth := if Opens(s, i) then st.depth + 1 else st.depth)
    else if st.depth > 0 then
      st.(depth := if ch == '(' then st.depth + 1 else if ch == ')' then st.depth - 1 else st.depth)
    else if ch == '\'' then st.(single := true)
    else if ch == '"' then st.(double := true)
    else if ch == '`' then st.(backtick := true)
    else if Opens(s, i) || ch == '(' then st.(depth := 1)
    else st
  }

  /** Length of the separator at `i`, or 0. */
  function SepLen(s: string, i: nat): nat {
    if i < |s| && s[i] == ';' then 1
    else if i + 1 < |s| && s[i] == s[i + 1] && (s[i] == '&' || s[i] == '|') then 2
    else 0
  }

  /** First separator met at top level when scanning from `i`, or the length. */
  function FirstSep(s: string, i: nat, st: Scan): (p: nat)
    requires i <= |s|
    ensures i <= p <= |s|
    ensures p < |s| ==> SepLen(s, p) > 0
    decreases |s| - i
  {
    if i == |s| || (st == TOP && SepLen(s, i) > 0) then i
    else FirstSep(s, i + Width(s, i, st), Next(s, i, st))
  }

  datatype Splitting = Splitting(segments: seq<string>, separators: seq<string>)

  function Cons(segment: string, separator: string, r: Splitting): Splitting {
    Splitting([segment] + r.segments, [separator] + r.separators)
  }

  function Split(s: string): (r: Splitting)
    ensures |r.segments| == |r.separators| + 1
    decreases |s|
  {
    var p := FirstSep(s, 0, TOP);
    if p == |s| then Splitting([s], [])
    else Cons(s[..p], s[p..p + SepLen(s, p)], Split(s[p + SepLen(s, p)..]))
  }

  // ---- what a splitting is --------------------------------------------------

  function Glue(segments: seq<string>, separators: seq<string>): string
    requires |segments| == |separators| + 1
  {
    if |separators| == 0 then segments[0]
    else segments[0] + separators[0] + Glue(segments[1..], separators[1..])
  }

  /** No separator at top level. */
  predicate Atomic(s: string) {
    FirstSep(s, 0, TOP) == |s|
  }

  predicate IsSeparator(d: string) {
    d in {"&&", "||", ";"}
  }

  /** `sep` is the first top-level separator of `seg + sep`: the scanner is outside
      every quote, backtick and parenthesis when it meets it. */
  predicate Closes(seg: string, sep: string) {
    && IsSeparator(sep)
    && FirstSep(seg + sep, 0, TOP) == |seg| && SepLen(seg + sep, |seg|) == |sep|
  }

  ghost predicate IsSplitting(s: string, r: Splitting) {
    && |r.segments| == |r.separators| + 1
    && s == Glue(r.segments, r.separators)
    && (forall i :: 0 <= i < |r.separators| ==> Closes(r.segments[i], r.separators[i]))
    && Atomic(r.segments[|r.separators|])
  }

  /** Cutting after position `n`, before any separator, leaves none. */
  lemma {:induction false} PrefixIsAtomic(s: string, n: nat, i: nat, st: Scan)
    requires i <= |s| && i <= n <= FirstSep(s, i, st)
    ensures FirstSep(s[..n], i, st) == n
    decreases n - i
  {
    hide Next, SepLen;
    if i + 1 < n {
      PrefixStep(s, n, i, st);
      PrefixIsAtomic(s, n, i + Width(s, i, st), Next(s, i, st));
    } else if i < n {
      LastStep(s, n, i, st);
    }
  }

  lemma PrefixStep(s: string, n: nat, i: nat, st: Scan)
    requires i + 1 < n <= |s|
    ensures Width(s[..n], i, st) == Width(s, i, st) && Next(s[..n], i, st) == Next(s, i, st)
    ensures SepLen(s[..n], i) == SepLen(s, i)
  {
    assert s[..n][i] == s[i] && s[..n][i + 1] == s[i + 1];
  }

  lemma LastStep(s: string, n: nat, i: nat, st: Scan)
    requires i + 1 == n <= |s| && n <= FirstSep(s, i, st)
    ensures FirstSep(s[..n], i, st) == n
  {
    assert s[..n][i] == s[i];
    assert SepLen(s[..n], i) > 0 ==> SepLen(s, i) > 0;
  }

  lemma SameStep(s: string, t: string, i: nat, st: Scan)
    requires i + 1 < |s|
    ensures Width(s + t, i, st) == Width(s, i, st) && Next(s + t, i, st) == Next(s, i, st)
    ensures SepLen(s + t, i) == SepLen(s, i)
  {
    assert (s + t)[i] == s[i] && (s + t)[i + 1] == s[i + 1];
  }

  /** More text after a separator does not change where it is. */
  lemma {:induction false} FirstSepStable(s: string, t: string, i: nat, st: Scan)
    requires i <= |s| && FirstSep(s, i, st) < |s|
    ensures FirstSep(s + t, i, st) == FirstSep(s, i, st)
    decreases |s| - i
  {
    hide Width, Next;
    if i < FirstSep(s, i, st) {
      SameStep(s, t, i, st);
      FirstSepStable(s, t, i + Width(s, i, st), Next(s, i, st));
    } else {
      hide FirstSep;
      SepStable(s, t, i, st);
    }
  }

  lemma SepStable(s: string, t: string, i: nat, st: Scan)
    requires i < |s| && FirstSep(s, i, st) == i
    ensures FirstSep(s + t, i, st) == i
  {
    assert st == TOP && SepLen(s, i) > 0;
    assert (s + t)[i] == s[i] && (i + 1 < |s| ==> (s + t)[i + 1] == s[i + 1]);
  }

  lemma SuffixStep(s: string, k: nat, i: nat, st: Scan)
    requires k + i < |s|
    ensures Width(s[k..], i, st) == Width(s, k + i, st) && Next(s[k..], i, st) == Next(s, k + i, st)
    ensures SepLen(s[k..], i) == SepLen(s, k + i)
  {
    assert s[k..][i] == s[k + i] && (k + i + 1 < |s| ==> s[k..][i + 1] == s[k + i + 1]);
  }

  /** Scanning a suffix is scanning from there. */
  lemma {:induction false} SuffixScan(s: string, k: nat, i: nat, st: Scan)
    requires k + i <= |s|
    ensures FirstSep(s[k..], i, st) == FirstSep(s, k + i, st) - k
    decreases |s| - k - i
  {
    hide Width, Next, SepLen, FirstSep;
    if k + i < |s| {
      SuffixStep(s, k, i, st);
      if st == TOP && SepLen(s, k + i) > 0 {
        ScanStop(s, k + i);
        ScanStop(s[k..], i);
      } else {
        ScanOn(s, k + i, st);
        ScanOn(s[k..], i, st);
        SuffixScan(s, k, i + Width(s, k + i, st), Next(s, k + i, st));
      }
    } else {
      ScanEnd(s, st);
      ScanEnd(s[k..], st);
    }
  }

  lemma SplitStep(s: string)
    ensures var p := FirstSep(s, 0, TOP);
            if p == |s| then Split(s) == Splitting([s], [])
            else p + SepLen(s, p) <= |s| && SepLen(s, p) > 0
                 && Split(s) == Cons(s[..p], s[p..p + SepLen(s, p)], Split(s[p + SepLen(s, p)..]))
  {
    hide FirstSep, Cons;
  }

  lemma SepIsSep(s: string, p: nat)
    requires SepLen(s, p) > 0
    ensures p + SepLen(s, p) <= |s| && IsSeparator(s[p..p + SepLen(s, p)])
  {
    if s[p] == ';' {
      assert s[p..p + 1] == ";";
    } else {
      assert s[p..p + 2] == [s[p]] + [s[p + 1]];
      assert "&&" == ['&'] + ['&'] && "||" == ['|'] + ['|'];
    }
  }

  lemma ClosesFrom(s: string, p: nat, n: nat)
    requires p < n <= |s| && FirstSep(s[..n], 0, TOP) == p && SepLen(s[..n], p) == n - p
    requires IsSeparator(s[p..n])
    ensures Closes(s[..p], s[p..n])
  {
    hide FirstSep, SepLen, IsSeparator;
    assert s[..p] + s[p..n] == s[..n];
  }

  lemma FirstSepCloses(s: string)
    requires FirstSep(s, 0, TOP) < |s|
    ensures var p := FirstSep(s, 0, TOP);
            p + SepLen(s, p) <= |s| && Closes(s[..p], s[p..p + SepLen(s, p)]) && Atomic(s[..p])
  {
    hide FirstSep, SepLen, IsSeparator, Closes;
    var p := FirstSep(s, 0, TOP);
    SepIsSep(s, p);
    PrefixIsAtomic(s, p, 0, TOP);
    FirstSepInPrefix(s, p + SepLen(s, p), 0, TOP);
    ClosesFrom(s, p, p + SepLen(s, p));
  }

  lemma {:induction false} FirstSepInPrefix(s: string, n: nat, i: nat, st: Scan)
    requires i <= |s| && FirstSep(s, i, st) < |s|
    requires FirstSep(s, i, st) + SepLen(s, FirstSep(s, i, st)) <= n <= |s|
    ensures FirstSep(s[..n], i, st) == FirstSep(s, i, st)
    ensures SepLen(s[..n], FirstSep(s, i, st)) == SepLen(s, FirstSep(s, i, st))
    decreases |s| - i
  {
    hide Next;
    if i < FirstSep(s, i, st) {
      PrefixStep(s, n, i, st);
      FirstSepInPrefix(s, n, i + Width(s, i, st), Next(s, i, st));
    } else {
      assert s[..n][i] == s[i] && (i + 1 < n ==> s[..n][i + 1] == s[i + 1]);
    }
  }

  lemma ConsSplitting(f: string, d: string, tail: string, r: Splitting)
    requires Closes(f, d) && IsSplitting(tail, r)
    ensures IsSplitting(f + d + tail, Cons(f, d, r))
  {
    hide Closes, Atomic;
    var c := Cons(f, d, r);
    assert c.segments[1..] == r.segments && c.separators[1..] == r.separators;
  }

  /** Segments and separators rebuild the command; every cut is at top level and no
      segment holds another. */
  lemma {:induction false} SplitIsSplitting(s: string)
    ensures IsSplitting(s, Split(s))
    decreases |s|
  {
    hide IsSplitting, Split, FirstSep, Cons;
    var p := FirstSep(s, 0, TOP);
    SplitStep(s);
    if p < |s| {
      var n := p + SepLen(s, p);
      FirstSepCloses(s);
      SplitIsSplitting(s[n..]);
      ConsSplitting(s[..p], s[p..n], s[n..], Split(s[n..]));
      assert s == s[..p] + s[p..n] + s[n..];
    } else {
      SingleSplitting(s);
    }
  }

  lemma SingleSplitting(s: string)
    requires Atomic(s)
    ensures IsSplitting(s, Splitting([s], []))
  {
  }

  /** And that determines it. */
  lemma {:induction false} SplittingIsUnique(s: string, r: Splitting)
    requires IsSplitting(s, r)
    ensures r == Split(s)
    decreases |r.separators|
  {
    hide Closes, Split, FirstSep;
    SplitStep(s);
    if |r.separators| > 0 {
      var f, d := r.segments[0], r.separators[0];
      var fs, ds := r.segments[1..], r.separators[1..];
      var tail := Glue(fs, ds);
      assert s == f + d + tail;
      HeadFound(f, d, tail);
      assert s[..|f|] == f && s[|f|..|f| + |d|] == d && s[|f| + |d|..] == tail;
      SplittingIsUnique(tail, Splitting(fs, ds));
      assert r.segments == [f] + fs && r.separators == [d] + ds;
      assert r == Cons(f, d, Splitting(fs, ds));
    } else {
      assert s == r.segments[0] && r.segments == [s] && r.separators == [];
      assert r == Splitting([s], []);
    }
  }

  lemma HeadFound(f: string, d: string, tail: string)
    requires Closes(f, d)
    ensures FirstSep(f + d + tail, 0, TOP) == |f| && SepLen(f + d + tail, |f|) == |d| > 0
  {
    FirstSepStable(f + d, tail, 0, TOP);
    assert (f + d)[|f|] == d[0] && (|d| == 2 ==> (f + d)[|f| + 1] == d[1]);
  }

  // ---- the last segment -----------------------------------------------------

  /** The last segment that is not blank, trimmed. */
  function LastNonBlank(segments: seq<string>): Option<string> {
    if |segments| == 0 then None
    else if Trim(segments[|segments| - 1]) != "" then Some(Trim(segments[|segments| - 1]))
    else LastNonBlank(segments[..|segments| - 1])
  }

  /** `last_command_segment`. */
  function LastSegment(s: string): string {
    var segments := Split(s).segments;
    if |segments| == 1 then s else LastNonBlank(segments).GetOr(s)
  }

  lemma {:induction false} TrimStartIsAtomic(s: string)
    requires Atomic(s)
    ensures Atomic(TrimStart(s))
  {
    if |s| > 0 && IsWhitespace(s[0]) {
      SuffixScan(s, 1, 0, TOP);
      assert Width(s, 0, TOP) == 1 && Next(s, 0, TOP) == TOP;
      TrimStartIsAtomic(s[1..]);
    }
  }

  lemma {:induction false} TrimEndIsPrefix(s: string)
    ensures TrimEnd(s) <= s
  {
    if |s| > 0 && IsWhitespace(s[|s| - 1]) {
      TrimEndIsPrefix(s[..|s| - 1]);
    }
  }

  lemma TrimIsAtomic(s: string)
    requires Atomic(s)
    ensures Atomic(Trim(s))
  {
    TrimStartIsAtomic(s);
    var t := TrimStart(s);
    TrimEndIsPrefix(t);
    var n := |TrimEnd(t)|;
    assert TrimEnd(t) == t[..n];
    PrefixIsAtomic(t, n, 0, TOP);
  }

  lemma {:induction false} SegmentsAreAtomic(s: string)
    ensures forall g <- Split(s).segments :: Atomic(g)
    decreases |s|
  {
    hide Atomic, Split, FirstSep;
    var p := FirstSep(s, 0, TOP);
    SplitStep(s);
    if p < |s| {
      FirstSepCloses(s);
      SegmentsAreAtomic(s[p + SepLen(s, p)..]);
    } else {
      WholeIsAtomic(s);
    }
  }

  lemma WholeIsAtomic(s: string)
    requires FirstSep(s, 0, TOP) == |s|
    ensures Atomic(s)
  {
  }

  lemma {:induction false} LastNonBlankIsTrimmed(segments: seq<string>)
    ensures LastNonBlank(segments).Some? ==>
              exists g :: g in segments && LastNonBlank(segments).value == Trim(g)
  {
    if |segments| > 0 {
      var last := segments[|segments| - 1];
      assert last in segments;
      if Trim(last) == "" {
        LastNonBlankIsTrimmed(segments[..|segments| - 1]);
      }
    }
  }

  /** Taking the last segment twice is taking it once, for every command: the
      detector relies on it when it applies it again to what it found in the text. */
  lemma LastSegmentIsIdempotent(s: string)
    ensures LastSegment(LastSegment(s)) == LastSegment(s)
  {
    var segments := Split(s).segments;
    LastNonBlankIsTrimmed(segments);
    SegmentsAreAtomic(s);
    if |segments| > 1 && LastNonBlank(segments).Some? {
      var g :| g in segments && LastNonBlank(segments).value == Trim(g);
      TrimIsAtomic(g);
      SplitStep(Trim(g));
    }
  }

  /** `i` is the last segment with text in it. */
  ghost predicate IsLastWithText(segments: seq<string>, i: nat) {
    i < |segments| && Trim(segments[i]) != "" && forall j :: i < j < |segments| ==> Trim(segments[j]) == ""
  }

  lemma {:induction false} LastNonBlankExactly(segments: seq<string>)
    ensures LastNonBlank(segments) == None <==> forall j :: 0 <= j < |segments| ==> Trim(segments[j]) == ""
    ensures forall i: nat :: IsLastWithText(segments, i) ==> LastNonBlank(segments) == Some(Trim(segments[i]))
  {
    hide Trim;
    if |segments| > 0 {
      var init := segments[..|segments| - 1];
      LastNonBlankExactly(init);
      forall i: nat | IsLastWithText(segments, i)
        ensures LastNonBlank(segments) == Some(Trim(segments[i]))
      {
        if i < |init| {
          assert IsLastWithText(init, i);
        }
      }
    }
  }

  /** The last segment: the last one with text in it, trimmed; the whole command if there
      is one segment, or none has text. */
  lemma LastSegmentExactly(s: string, i: nat)
    ensures var segments := Split(s).segments;
            && (|segments| == 1 ==> LastSegment(s) == s)
            && (|segments| > 1 && IsLastWithText(segments, i) ==> LastSegment(s) == Trim(segments[i]))
            && ((forall j :: 0 <= j < |segments| ==> Trim(segments[j]) == "") ==> LastSegment(s) == s)
  {
    hide Split, Trim, IsLastWithText;
    LastNonBlankExactly(Split(s).segments);
  }

  /** The first of up to `n` lines that reads as a command, cut to its last segment.
      `prompt` drops a leading prompt, `isCommand` recognises a command; both are
      regexes in the program. */
  function CommandFromText(lines: seq<string>, n: nat, prompt: string -> string, isCommand: string -> bool): Option<string> {
    if n == 0 || |lines| == 0 then None
    else
      var l := prompt(Trim(StripCr(lines[0])));
      if l != "" && isCommand(l) then Some(LastSegment(l))
      else CommandFromText(lines[1..], n - 1, prompt, isCommand)
  }

  /** The command `detect_command_type` settles on: the given one unless blank, else
      the one found in the text; cut to its last segment once more. */
  function DetectedCommand(
    command: Option<string>, text: string, prompt: string -> string, isCommand: string -> bool): Option<string>
  {
    var base :=
      if command.Some? && Trim(command.value) != "" then Trim(command.value)
      else CommandFromText(SplitLf(text), 20, prompt, isCommand).GetOr("");
    var detected := LastSegment(base);
    if detected == "" then None else Some(detected)
  }

  /** The line as the detector reads it. */
  function Prompted(line: string, prompt: string -> string): string {
    prompt(Trim(if line != "" && line[|line| - 1] == '\r' then line[..|line| - 1] else line))
  }

  ghost predicate IsFirstCommand(lines: seq<string>, n: nat, prompt: string -> string, isCommand: string -> bool, i: nat) {
    && i < n && i < |lines| && Prompted(lines[i], prompt) != "" && isCommand(Prompted(lines[i], prompt))
    && forall j :: 0 <= j < i ==> Prompted(lines[j], prompt) == "" || !isCommand(Prompted(lines[j], prompt))
  }

  /** The command found in the text is the last segment of the first line that is one,
      among the first `n`. */
  lemma {:induction false} CommandFromTextExactly(
    lines: seq<string>, n: nat, prompt: string -> string, isCommand: string -> bool)
    ensures forall i: nat :: IsFirstCommand(lines, n, prompt, isCommand, i) ==>
              CommandFromText(lines, n, prompt, isCommand) == Some(LastSegment(Prompted(lines[i], prompt)))
    ensures CommandFromText(lines, n, prompt, isCommand).Some? ==> exists i: nat :: IsFirstCommand(lines, n, prompt, isCommand, i)
  {
    hide LastSegment, Trim;
    if n > 0 && |lines| > 0 {
      var rest, m: nat := lines[1..], n - 1;
      CommandFromTextExactly(rest, m, prompt, isCommand);
      forall i: nat | IsFirstCommand(lines, n, prompt, isCommand, i)
        ensures CommandFromText(lines, n, prompt, isCommand) == Some(LastSegment(Prompted(lines[i], prompt)))
      {
        if i > 0 {
          assert lines == [lines[0]] + rest;
          assert IsFirstCommand(rest, m, prompt, isCommand, i - 1);
        }
      }
      var l := Prompted(lines[0], prompt);
      if l != "" && isCommand(l) {
        assert IsFirstCommand(lines, n, prompt, isCommand, 0);
      } else if i: nat :| IsFirstCommand(rest, m, prompt, isCommand, i) {
        assert lines == [lines[0]] + rest;
        assert IsFirstCommand(lines, n, prompt, isCommand, i + 1);
      }
    }
  }

  /** A given command that is not blank is cut to its last segment; otherwise the first
      command among the first 20 lines decides, and without one there is none. */
  lemma DetectedCommandExactly(command: Option<string>, text: string, prompt: string -> string, isCommand: string -> bool, i: nat)
    ensures command.Some? && Trim(command.value) != "" ==>
              DetectedCommand(command, text, prompt, isCommand) == Some(LastSegment(Trim(command.value)))
    ensures command == None || Trim(command.value) == "" ==>
              && (IsFirstCommand(SplitLf(text), 20, prompt, isCommand, i) ==>
                    DetectedCommand(command, text, prompt, isCommand) == Some(LastSegment(Prompted(SplitLf(text)[i], prompt))))
              && ((forall j: nat :: !IsFirstCommand(SplitLf(text), 20, prompt, isCommand, j)) ==>
                    DetectedCommand(command, text, prompt, isCommand) == None)
  {
    hide LastSegment, Trim, CommandFromText, IsFirstCommand;
    CommandFromTextExactly(SplitLf(text), 20, prompt, isCommand);
    CommandFromTextIsSegment(SplitLf(text), 20, prompt, isCommand);
    LastSegmentEmptyExactly("");
    if command.Some? {
      LastSegmentEmptyExactly(Trim(command.value));
    }
  }

  lemma {:induction false} LastNonBlankIsNotEmpty(segments: seq<string>)
    ensures LastNonBlank(segments).Some? ==> LastNonBlank(segments).value != ""
  {
    if |segments| > 0 {
      LastNonBlankIsNotEmpty(segments[..|segments| - 1]);
    }
  }

  lemma LastSegmentEmptyExactly(s: string)
    ensures LastSegment(s) == "" <==> s == ""
  {
    SplitStep(s);
    LastNonBlankIsNotEmpty(Split(s).segments);
  }

  lemma {:induction false} CommandFromTextIsSegment(
    lines: seq<string>, n: nat, prompt: string -> string, isCommand: string -> bool)
    ensures var c := CommandFromText(lines, n, prompt, isCommand);
            c.Some? ==> c.value != "" && LastSegment(c.value) == c.value
  {
    hide LastSegment;
    if n > 0 && |lines| > 0 {
      var l := prompt(Trim(StripCr(lines[0])));
      if l != "" && isCommand(l) {
        LastSegmentIsIdempotent(l);
        LastSegmentEmptyExactly(l);
      } else {
        CommandFromTextIsSegment(lines[1..], n - 1, prompt, isCommand);
      }
    }
  }

  /** Without a given command, the detector reports exactly the command it found in the
      text: cutting that command a second time changes nothing and never loses it. */
  lemma DetectionFromTextIsStable(text: string, prompt: string -> string, isCommand: string -> bool)
    ensures DetectedCommand(None, text, prompt, isCommand) == CommandFromText(SplitLf(text), 20, prompt, isCommand)
  {
    hide LastSegment, CommandFromText;
    CommandFromTextIsSegment(SplitLf(text), 20, prompt, isCommand);
    LastSegmentEmptyExactly("");
  }

  // ---- text put in front ----------------------------------------------------

  lemma SepShift(head: string, rest: string, p: nat)
    requires SepLen(rest, p) > 0
    ensures SepLen(head + rest, |head| + p) == SepLen(rest, p) && p + SepLen(rest, p) <= |rest|
  {
    var s := head + rest;
    assert s[|head| + p] == rest[p] && (p + 1 < |rest| ==> s[|head| + p + 1] == rest[p + 1]);
  }

  lemma SliceShift(head: string, rest: string, p: nat, n: nat)
    requires p <= n <= |rest|
    ensures (head + rest)[..|head| + p] == head + rest[..p]
    ensures (head + rest)[|head| + p..|head| + n] == rest[p..n]
    ensures (head + rest)[|head| + n..] == rest[n..]
  {
  }

  /** `head` put before the first segment. */
  function AddHead(head: string, r: Splitting): Splitting
    requires |r.segments| > 0
  {
    Splitting([head + r.segments[0]] + r.segments[1..], r.separators)
  }

  lemma AddHeadCons(head: string, f: string, d: string, more: Splitting)
    ensures AddHead(head, Cons(f, d, more)) == Cons(head + f, d, more)
  {
    assert ([f] + more.segments)[1..] == more.segments;
  }

  lemma AddHeadWhole(head: string, rest: string)
    ensures AddHead(head, Splitting([rest], [])) == Splitting([head + rest], [])
  {
  }

  lemma SplitAfter(head: string, rest: string)
    requires FirstSep(head + rest, 0, TOP) == |head| + FirstSep(rest, 0, TOP)
    ensures Split(head + rest) == AddHead(head, Split(rest))
  {
    hide FirstSep, Split, SepLen, Cons, AddHead;
    var s, p := head + rest, FirstSep(rest, 0, TOP);
    SplitStep(s);
    SplitStep(rest);
    if p < |rest| {
      var n := p + SepLen(rest, p);
      SepShift(head, rest, p);
      SliceShift(head, rest, p, n);
      AddHeadCons(head, rest[..p], rest[p..n], Split(rest[n..]));
    } else {
      AddHeadWhole(head, rest);
    }
  }

  /** The scanner comes out of `head` at top level. */
  lemma PassedOver(head: string, rest: string)
    requires FirstSep(head + rest, 0, TOP) == FirstSep(head + rest, |head|, TOP)
    ensures FirstSep(head + rest, 0, TOP) == |head| + FirstSep(rest, 0, TOP)
  {
    hide FirstSep;
    SuffixScan(head + rest, |head|, 0, TOP);
    assert (head + rest)[|head|..] == rest;
  }

  // ---- words ----------------------------------------------------------------

  /** The words of a command line, as a shell reads them: ordinary characters; a `$`,
      `&` or `|` that stands alone before one; quoted text; a group; a substitution. */
  datatype Word =
    | Plain(c: char)
    | Lone(mark: char, c: char)
    | Quoted(q: char, body: string)
    | Group(body: string)
    | Substitution(body: string)

  predicate IsPlain(c: char) {
    c !in "'\"`$(;&|"
  }

  predicate BalancedAt(x: string, d: nat) {
    if |x| == 0 then d == 0
    else if x[0] == '(' then BalancedAt(x[1..], d + 1)
    else if x[0] == ')' then d > 0 && BalancedAt(x[1..], d - 1)
    else BalancedAt(x[1..], d)
  }

  /** Parentheses match. */
  predicate Balanced(x: string) {
    BalancedAt(x, 0)
  }

  function Count(x: string, c: char): nat {
    if |x| == 0 then 0 else (if x[0] == c then 1 else 0) + Count(x[1..], c)
  }

  /** What the first `k` characters open, beside `d`, and close. */
  ghost predicate Covers(x: string, d: nat, k: nat)
    requires k <= |x|
  {
    Count(x[..k], ')') <= d + Count(x[..k], '(')
  }

  lemma CoversStep(x: string, d: nat, k: nat)
    requires 0 < k <= |x|
    ensures x[0] == '(' ==> (Covers(x, d, k) <==> Covers(x[1..], d + 1, k - 1))
    ensures x[0] == ')' && d > 0 ==> (Covers(x, d, k) <==> Covers(x[1..], d - 1, k - 1))
    ensures x[0] !in "()" ==> (Covers(x, d, k) <==> Covers(x[1..], d, k - 1))
  {
    assert x[..k][1..] == x[1..][..k - 1] && x[..k][0] == x[0];
  }

  /** By counting: no beginning closes more than it and the `d` before it open, and in the
      end all are closed. */
  lemma {:induction false} BalancedExactly(x: string, d: nat)
    ensures BalancedAt(x, d) <==>
              && Count(x, ')') == d + Count(x, '(')
              && forall k: nat :: k <= |x| ==> Covers(x, d, k)
  {
    if |x| > 0 {
      var rest, e: int := x[1..], if x[0] == '(' then d + 1 else if x[0] == ')' then d - 1 else d;
      if e < 0 {
        assert x[..1] == ")" && Count(")"[1..], ')') == 0;
        assert !Covers(x, d, 1);
      } else {
        BalancedExactly(rest, e);
        forall k: nat | 0 < k <= |x|
          ensures Covers(x, d, k) <==> Covers(rest, e, k - 1)
        {
          CoversStep(x, d, k);
        }
        assert x[..0] == "";
        assert forall k: nat :: k <= |rest| ==> k + 1 <= |x| && (Covers(x, d, k + 1) <==> Covers(rest, e, k));
      }
    }
  }

  ghost predicate HasSubstitution(x: string) {
    exists k: nat :: k < |x| && Opens(x, k)
  }

  ghost predicate WellFormed(w: Word) {
    match w
    case Plain(c) => IsPlain(c)
    case Lone(mark, c) => mark in "$&|" && IsPlain(c)
    case Quoted(q, body) => q in "'\"`" && q !in body && (q == '"' ==> !HasSubstitution(body))
    case Group(body) => Balanced(body)
    case Substitution(body) => Balanced(body)
  }

  function WordText(w: Word): string {
    match w
    case Plain(c) => [c]
    case Lone(mark, c) => [mark, c]
    case Quoted(q, body) => [q] + body + [q]
    case Group(body) => "(" + body + ")"
    case Substitution(body) => "$(" + body + ")"
  }

  function WordsText(ws: seq<Word>): string {
    if |ws| == 0 then "" else WordText(ws[0]) + WordsText(ws[1..])
  }

  /** Inside the quote `q`. */
  function Within(q: char): Scan {
    Scan(q == '\'', q == '"', q == '`', 0)
  }

  function AtDepth(d: nat): Scan {
    Scan(false, false, false, d)
  }

  lemma {:induction false} ToClosingQuote(s: string, i: nat, j: nat, q: char)
    requires i <= j < |s| && q in "'\"`" && s[j] == q && forall k :: i <= k < j ==> s[k] != q
    requires q == '"' ==> forall k: nat :: i <= k < j ==> !Opens(s, k)
    ensures FirstSep(s, i, Within(q)) == FirstSep(s, j + 1, TOP)
    decreases j - i
  {
    ScanOn(s, i, Within(q));
    if i < j {
      ToClosingQuote(s, i + 1, j, q);
    }
  }

  lemma QuotedShape(q: char, x: string, rest: string)
    requires q !in x
    ensures var s, j := [q] + x + [q] + rest, 1 + |x|;
            && s[0] == q && s[j] == q
            && (forall k :: 1 <= k < j ==> s[k] != q)
            && (q == '"' ==> forall k: nat :: 1 <= k < j ==> (Opens(s, k) <==> Opens(x, k - 1)))
  {
    var s, j := [q] + x + [q] + rest, 1 + |x|;
    forall k: nat | 1 <= k < j
      ensures s[k] != q && (q == '"' ==> (Opens(s, k) <==> Opens(x, k - 1)))
    {
      assert s[k] == x[k - 1] && (k + 1 < j ==> s[k + 1] == x[k]);
    }
  }

  lemma OpeningQuote(s: string, q: char)
    requires |s| > 1 && q in "'\"`" && s[0] == q
    ensures FirstSep(s, 0, TOP) == FirstSep(s, 1, Within(q))
  {
    ScanOn(s, 0, TOP);
  }

  lemma QuotedPasses(q: char, x: string, rest: string)
    requires q in "'\"`" && q !in x && (q == '"' ==> !HasSubstitution(x))
    ensures FirstSep([q] + x + [q] + rest, 0, TOP) == |x| + 2 + FirstSep(rest, 0, TOP)
  {
    hide FirstSep, Opens;
    var s, j := [q] + x + [q] + rest, 1 + |x|;
    QuotedShape(q, x, rest);
    OpeningQuote(s, q);
    ToClosingQuote(s, 1, j, q);
    PassedOver([q] + x + [q], rest);
  }

  lemma {:induction false} ToClosingParenthesis(s: string, i: nat, j: nat, d: nat)
    requires i <= j < |s| && s[j] == ')' && BalancedAt(s[i..j], d)
    ensures FirstSep(s, i, AtDepth(d + 1)) == FirstSep(s, j + 1, TOP)
    decreases j - i
  {
    ScanOn(s, i, AtDepth(d + 1));
    if i < j {
      assert s[i..j][1..] == s[i + 1..j] && s[i..j][0] == s[i];
      ToClosingParenthesis(s, i + 1, j, if s[i] == '(' then d + 1 else if s[i] == ')' then d - 1 else d);
    }
  }

  lemma OpeningParenthesis(s: string)
    ensures |s| > 1 && s[0] == '(' ==> FirstSep(s, 0, TOP) == FirstSep(s, 1, AtDepth(1))
    ensures |s| > 2 && Opens(s, 0) ==> FirstSep(s, 0, TOP) == FirstSep(s, 2, AtDepth(1))
  {
    if |s| > 1 && (s[0] == '(' || Opens(s, 0)) {
      ScanOn(s, 0, TOP);
    }
  }

  lemma GroupPasses(open: string, x: string, rest: string)
    requires open in {"(", "$("} && Balanced(x)
    ensures FirstSep(open + x + ")" + rest, 0, TOP) == |open| + |x| + 1 + FirstSep(rest, 0, TOP)
  {
    hide FirstSep;
    var s := open + x + ")" + rest;
    var i, j := |open|, |open| + |x|;
    assert s[i..j] == x && s[j] == ')' && s[0] == open[0] && (|open| == 2 ==> s[1] == open[1]);
    OpeningParenthesis(s);
    ToClosingParenthesis(s, i, j, 0);
    PassedOver(open + x + ")", rest);
  }

  lemma PlainPasses(c: char, rest: string)
    requires IsPlain(c)
    ensures FirstSep([c] + rest, 0, TOP) == 1 + FirstSep(rest, 0, TOP)
  {
    var s := [c] + rest;
    assert s[0] == c;
    assert FirstSep(s, 0, TOP) == FirstSep(s, 1, TOP);
    PassedOver([c], rest);
  }

  lemma LonePasses(mark: char, c: char, rest: string)
    requires mark in "$&|" && IsPlain(c)
    ensures FirstSep([mark, c] + rest, 0, TOP) == 2 + FirstSep(rest, 0, TOP)
  {
    var s := [mark, c] + rest;
    assert s[0] == mark && s[1] == c;
    assert FirstSep(s, 0, TOP) == FirstSep(s, 1, TOP) == FirstSep(s, 2, TOP);
    PassedOver([mark, c], rest);
  }

  lemma WordPasses(w: Word, rest: string)
    requires WellFormed(w)
    ensures FirstSep(WordText(w) + rest, 0, TOP) == |WordText(w)| + FirstSep(rest, 0, TOP)
  {
    hide FirstSep, Balanced, IsPlain, HasSubstitution;
    match w
    case Plain(c) => PlainPasses(c, rest);
    case Lone(mark, c) => LonePasses(mark, c, rest);
    case Quoted(q, body) => QuotedPasses(q, body, rest);
    case Group(body) => GroupPasses("(", body, rest);
    case Substitution(body) => GroupPasses("$(", body, rest);
  }

  lemma {:induction false} WordsPass(ws: seq<Word>, rest: string)
    requires forall w <- ws :: WellFormed(w)
    ensures FirstSep(WordsText(ws) + rest, 0, TOP) == |WordsText(ws)| + FirstSep(rest, 0, TOP)
  {
    hide FirstSep, WellFormed, WordText;
    if |ws| == 0 {
      assert "" + rest == rest;
    } else {
      WordsPass(ws[1..], rest);
      WordPasses(ws[0], WordsText(ws[1..]) + rest);
      Associative(WordText(ws[0]), WordsText(ws[1..]), rest);
    }
  }

  /** Words are never cut, wherever they stand: separators inside quotes, groups and
      substitutions count for nothing, and what follows is cut as it would be alone. */
  lemma WordsAreNotCut(ws: seq<Word>, rest: string)
    requires forall w <- ws :: WellFormed(w)
    ensures Split(WordsText(ws) + rest) == AddHead(WordsText(ws), Split(rest))
  {
    hide WellFormed, Split, FirstSep, AddHead;
    WordsPass(ws, rest);
    SplitAfter(WordsText(ws), rest);
  }

  function Texts(commands: seq<seq<Word>>): seq<string> {
    seq(|commands|, i requires 0 <= i < |commands| => WordsText(commands[i]))
  }

  lemma SeparatorFound(sep: string)
    requires IsSeparator(sep)
    ensures FirstSep(sep, 0, TOP) == 0 && SepLen(sep, 0) == |sep|
  {
  }

  lemma CommandCloses(ws: seq<Word>, sep: string)
    requires (forall w <- ws :: WellFormed(w)) && IsSeparator(sep)
    ensures Closes(WordsText(ws), sep)
  {
    hide WellFormed, FirstSep;
    SeparatorFound(sep);
    WordsPass(ws, sep);
    SepShift(WordsText(ws), sep, 0);
  }

  lemma CommandIsAtomic(ws: seq<Word>)
    requires forall w <- ws :: WellFormed(w)
    ensures Atomic(WordsText(ws))
  {
    hide WellFormed;
    WordsPass(ws, "");
    assert WordsText(ws) + "" == WordsText(ws);
  }

  /** Any list of commands made of words, written with separators between them, is
      split into exactly those commands. */
  lemma SplitOfCommands(commands: seq<seq<Word>>, separators: seq<string>)
    requires |commands| == |separators| + 1 && forall ws <- commands, w <- ws :: WellFormed(w)
    requires forall sep <- separators :: IsSeparator(sep)
    ensures Split(Glue(Texts(commands), separators)) == Splitting(Texts(commands), separators)
  {
    hide WellFormed, Closes, Atomic, Split, Glue;
    forall i | 0 <= i < |separators|
      ensures Closes(Texts(commands)[i], separators[i])
    {
      assert commands[i] in commands && separators[i] in separators;
      CommandCloses(commands[i], separators[i]);
    }
    assert commands[|separators|] in commands;
    CommandIsAtomic(commands[|separators|]);
    SplittingIsUnique(Glue(Texts(commands), separators), Splitting(Texts(commands), separators));
  }

  /** Of several commands the last one that is not blank is the last segment. */
  lemma LastOfCommands(commands: seq<seq<Word>>, separators: seq<string>, i: nat)
    requires |commands| == |separators| + 1 > 1 && forall ws <- commands, w <- ws :: WellFormed(w)
    requires forall sep <- separators :: IsSeparator(sep)
    requires i < |commands| && Trim(WordsText(commands[i])) != ""
    requires forall j :: i < j < |commands| ==> Trim(WordsText(commands[j])) == ""
    ensures LastSegment(Glue(Texts(commands), separators)) == Trim(WordsText(commands[i]))
  {
    hide WellFormed, Split, Glue, LastSegment, Trim, WordsText;
    SplitOfCommands(commands, separators);
    assert IsLastWithText(Texts(commands), i);
    LastSegmentExactly(Glue(Texts(commands), separators), i);
  }

  // ---- substitutions inside double quotes -----------------------------------

  lemma {:induction false} OpenDepthHidesRest(s: string, i: nat, st: Scan)
    requires i <= |s| && st.depth > 0 && forall k :: i <= k < |s| ==> s[k] != ')'
    ensures FirstSep(s, i, st) == |s|
    decreases |s| - i
  {
    hide Width;
    if i < |s| {
      OpenDepthHidesRest(s, i + Width(s, i, st), Next(s, i, st));
    }
  }

  /** A `$(` met inside double quotes leaves the scanner in a group after them. */
  lemma {:induction false} InsideDoubleQuotes(s: string, i: nat, j: nat, st: Scan)
    requires i <= j < |s| && s[j] == '"' && forall k :: i <= k < j ==> s[k] != '"'
    requires st.double && !st.single && !st.backtick
    requires st.depth > 0 || exists k: nat :: i <= k < j && Opens(s, k)
    requires forall k :: j < k < |s| ==> s[k] != ')'
    ensures FirstSep(s, i, st) == |s|
    decreases j - i
  {
    if i < j {
      ScanOn(s, i, st);
      InsideDoubleQuotes(s, i + Width(s, i, st), j, Next(s, i, st));
    } else {
      OpenDepthHidesRest(s, j + 1, Next(s, j, st));
    }
  }

  lemma SubstitutionHidesRest(x: string, rest: string)
    requires '"' !in x && HasSubstitution(x) && ')' !in rest
    ensures var s := "\"" + x + "\"" + rest; FirstSep(s, 0, TOP) == |s|
  {
    hide Opens, FirstSep;
    var s, j := "\"" + x + "\"" + rest, 1 + |x|;
    assert s == ['"'] + x + ['"'] + rest;
    QuotedShape('"', x, rest);
    var k: nat :| k < |x| && Opens(x, k);
    assert Opens(s, k + 1);
    forall k | j < k < |s|
      ensures s[k] != ')'
    {
      assert s[k] == rest[k - j - 1];
    }
    OpeningQuote(s, '"');
    InsideDoubleQuotes(s, 1, j, Within('"'));
  }

  /** The scanner counts a `$(` inside double quotes but not the `)` that ends it
      there. So a command that opens with a quoted substitution is never split
      again unless a `)` comes later: the whole command is returned, whatever
      separators follow. */
  lemma QuotedSubstitutionIsNeverSplit(x: string, rest: string)
    requires '"' !in x && HasSubstitution(x) && ')' !in rest
    ensures var s := "\"" + x + "\"" + rest; LastSegment(s) == s
  {
    hide FirstSep, HasSubstitution;
    SubstitutionHidesRest(x, rest);
    SplitStep("\"" + x + "\"" + rest);
  }

  /** A double-quoted word is transparent to what follows it exactly when no
      substitution opens inside it. */
  lemma DoubleQuotedIsWordExactly(x: string)
    requires '"' !in x
    ensures (forall rest :: Split("\"" + x + "\"" + rest) == AddHead("\"" + x + "\"", Split(rest)))
        <==> !HasSubstitution(x)
  {
    hide FirstSep, HasSubstitution, Split, AddHead;
    var w := "\"" + x + "\"";
    if HasSubstitution(x) {
      SubstitutionHidesRest(x, ";");
      SplitStep(w + ";");
      SemicolonSplits(w);
      assert Split(w + ";") != AddHead(w, Split(";"));
    } else {
      assert w == ['"'] + x + ['"'];
      forall rest
        ensures Split(w + rest) == AddHead(w, Split(rest))
      {
        QuotedPasses('"', x, rest);
        SplitAfter(w, rest);
      }
    }
  }

  lemma SemicolonSplits(w: string)
    ensures |AddHead(w, Split(";")).segments| == 2
  {
    SeparatorFound(";");
    SplitStep(";");
    SplitStep("");
    assert ";"[1..] == "";
  }

  /** How often `$(` occurs. */
  function Openings(x: string): nat {
    if |x| < 2 then 0 else (if x[0] == '$' && x[1] == '(' then 1 else 0) + Openings(x[1..])
  }

  lemma OpeningsStep(s: string, i: nat, j: nat)
    requires i < j < |s| && s[j] == '"'
    ensures Opens(s, i) ==> i + 2 <= j && Openings(s[i..j]) == 1 + Openings(s[i + 2..j])
    ensures !Opens(s, i) ==> Openings(s[i..j]) == Openings(s[i + 1..j])
  {
    assert s[i..j][1..] == s[i + 1..j];
    if Opens(s, i) {
      assert s[i + 1..j][1..] == s[i + 2..j];
    }
  }

  function InDouble(d: nat): Scan {
    Scan(false, true, false, d)
  }

  lemma QuotedStep(s: string, i: nat, d: nat)
    requires i < |s|
    ensures FirstSep(s, i, InDouble(d)) ==
              if Opens(s, i) then FirstSep(s, i + 2, InDouble(d + 1))
              else if s[i] == '"' then FirstSep(s, i + 1, AtDepth(d)) else FirstSep(s, i + 1, InDouble(d))
  {
    ScanOn(s, i, InDouble(d));
    hide FirstSep;
  }

  /** Up to the closing quote, each `$(` adds one open group. */
  lemma {:induction false} QuotedOpens(s: string, i: nat, j: nat, d: nat)
    requires i <= j < |s| && s[j] == '"' && forall k :: i <= k < j ==> s[k] != '"'
    ensures FirstSep(s, i, InDouble(d)) == FirstSep(s, j + 1, AtDepth(d + Openings(s[i..j])))
    decreases j - i
  {
    hide FirstSep, InDouble, AtDepth;
    QuotedStep(s, i, d);
    if i < j {
      OpeningsStep(s, i, j);
      hide Openings, Opens;
      if Opens(s, i) {
        QuotedOpens(s, i + 2, j, d + 1);
      } else {
        QuotedOpens(s, i + 1, j, d);
      }
    }
  }

  /** The quoted text is one word together with what closes, after it, as many groups as
      `$(` occurs in it: only there does the scanner come back to the top level. */
  lemma QuotedSubstitutionsClose(x: string, z: string, rest: string)
    requires '"' !in x && Openings(x) > 0 && BalancedAt(z, Openings(x) - 1)
    ensures var w := "\"" + x + "\"" + z + ")"; Split(w + rest) == AddHead(w, Split(rest))
  {
    hide FirstSep, Split, AddHead, Opens, BalancedAt, Openings;
    var w, j := "\"" + x + "\"" + z + ")", 1 + |x|;
    var s, e := w + rest, 2 + |x| + |z|;
    assert s == ['"'] + x + ['"'] + (z + ")" + rest);
    QuotedShape('"', x, z + ")" + rest);
    OpeningQuote(s, '"');
    assert s[1..j] == x && s[j + 1..e] == z && s[e] == ')';
    QuotedOpens(s, 1, j, 0);
    var d: nat := Openings(x) - 1;
    ToClosingParenthesis(s, j + 1, e, d);
    assert FirstSep(s, 0, TOP) == FirstSep(s, |w|, TOP);
    PassedOver(w, rest);
    SplitAfter(w, rest);
  }

  /** A command with one quoted substitution and then a second command that is lost. */
  lemma SecondCommandIsMissed()
    ensures LastSegment("\"$(x)\"; y") == "\"$(x)\"; y"
  {
    assert Opens("$(x)", 0);
    QuotedSubstitutionIsNeverSplit("$(x)", "; y");
    assert "\"" + "$(x)" + "\"" + "; y" == "\"$(x)\"; y";
  }

  // ---- the loop -------------------------------------------------------------

  /** `segments` are cut off `w` and `x` is what remains. */
  ghost predicate Remains(w: Splitting, segments: seq<string>, x: Splitting) {
    w.segments == segments + x.segments
  }

  lemma RemainsCons(w: Splitting, segments: seq<string>, f: string, d: string, more: Splitting)
    requires Remains(w, segments, Cons(f, d, more))
    ensures Remains(w, segments + [f], more)
  {
    Associative(segments, [f], more.segments);
  }

  lemma RemainsAll(w: Splitting)
    ensures Remains(w, [], w)
  {
    assert [] + w.segments == w.segments;
  }

  /** A separator met at `i`, scanning from `current`. */
  lemma CutAt(s: string, segments: seq<string>, current: nat, i: nat)
    requires current <= i < |s| && FirstSep(s, current, TOP) == i
    requires Remains(Split(s), segments, Split(s[current..]))
    ensures i + SepLen(s, i) <= |s|
    ensures Remains(Split(s), segments + [s[current..i]], Split(s[i + SepLen(s, i)..]))
  {
    hide Remains, FirstSep, Split, Cons;
    SuffixScan(s, current, 0, TOP);
    SplitStep(s[current..]);
    var rest, p, d := s[current..], i - current, SepLen(s, i);
    assert SepLen(rest, p) == d;
    assert rest[..p] == s[current..i] && rest[p + d..] == s[i + d..];
    RemainsCons(Split(s), segments, rest[..p], rest[p..p + d], Split(rest[p + d..]));
  }

  /** No separator up to the end. */
  lemma CutLast(s: string, segments: seq<string>, current: nat)
    requires current <= |s| && FirstSep(s, current, TOP) == |s|
    requires Remains(Split(s), segments, Split(s[current..]))
    ensures Split(s).segments == segments + [s[current..]]
  {
    hide FirstSep, Split;
    SuffixScan(s, current, 0, TOP);
    SplitStep(s[current..]);
  }

  /** One turn of the scanner, away from a separator. */
  lemma ScanOn(s: string, i: nat, st: Scan)
    requires i < |s| && !(st == TOP && SepLen(s, i) > 0)
    ensures FirstSep(s, i, st) == FirstSep(s, i + Width(s, i, st), Next(s, i, st))
  {
  }

  lemma ScanStop(s: string, i: nat)
    requires i <= |s| && (i == |s| || SepLen(s, i) > 0)
    ensures FirstSep(s, i, TOP) == i
  {
  }

  lemma {:induction false} ScanEnd(s: string, st: Scan)
    ensures FirstSep(s, |s|, st) == |s|
  {
  }

  /** The flags and the position after the character at `i`. */
  method Advance(s: string, i: nat, st: Scan) returns (j: nat, after: Scan)
    requires i < |s| && !(st == TOP && SepLen(s, i) > 0)
    ensures j == i + Width(s, i, st) && after == Next(s, i, st)
  {
    var single, double, backtick, depth := st.single, st.double, st.backtick, st.depth;
    var ch := s[i];
    var opens := ch == '$' && i + 1 < |s| && s[i + 1] == '(';
    j := i;
    if single {
      single := ch != '\'';
    } else if backtick {
      backtick := ch != '`';
    } else if double {
      if ch == '"' {
        double := false;
      }
      if opens {
        depth := depth + 1;
        j := j + 1;
      }
    } else if depth > 0 {
      if ch == '(' {
        depth := depth + 1;
      } else if ch == ')' {
        depth := depth - 1;
      }
    } else if ch == '\'' {
      single := true;
    } else if ch == '"' {
      double := true;
    } else if ch == '`' {
      backtick := true;
    } else if opens {
      depth := depth + 1;
      j := j + 1;
    } else if ch == '(' {
      depth := depth + 1;
    }
    j := j + 1;
    after := Scan(single, double, backtick, depth);
  }

  /** The scan: every top-level separator pushes what precedes it. */
  method CutSegments(s: string) returns (segments: seq<string>)
    ensures segments == Split(s).segments
  {
    hide Split, Remains, FirstSep, Width, Next;
    segments := [];
    var current: nat, i: nat, st := 0, 0, TOP;
    RemainsAll(Split(s));
    assert s[0..] == s;
    while i < |s|
      invariant current <= i <= |s|
      invariant FirstSep(s, current, TOP) == FirstSep(s, i, st)
      invariant Remains(Split(s), segments, Split(s[current..]))
      decreases |s| - i
    {
      if st == TOP && SepLen(s, i) > 0 {
        ScanStop(s, i);
        CutAt(s, segments, current, i);
        segments := segments + [s[current..i]];
        i := i + SepLen(s, i);
        current := i;
      } else {
        ScanOn(s, i, st);
        i, st := Advance(s, i, st);
      }
    }
    ScanEnd(s, st);
    CutLast(s, segments, current);
    segments := segments + [s[current..]];
  }

  /** `last_command_segment`: one pass over the characters, then a look back over
      the segments. */
  method LastCommandSegment(command: string) returns (r: string)
    ensures var segments := Split(command).segments;
            && (|segments| == 1 ==> r == command)
            && (|segments| > 1 ==> forall i: nat :: IsLastWithText(segments, i) ==> r == Trim(segments[i]))
            && ((forall j :: 0 <= j < |segments| ==> Trim(segments[j]) == "") ==> r == command)
    ensures r == LastSegment(command)
  {
    hide Split, Trim, IsLastWithText;
    forall i: nat {
      LastSegmentExactly(command, i);
    }
    LastSegmentEmptyExactly(command);
    if command == "" {
      return command;
    }
    var segments := CutSegments(command);
    if |segments| == 1 {
      return command;
    }
    var k := |segments|;
    assert segments[..k] == segments;
    while k > 0
      invariant 0 <= k <= |segments|
      invariant LastNonBlank(segments) == LastNonBlank(segments[..k])
    {
      var trimmed := Trim(segments[k - 1]);
      assert segments[..k][..k - 1] == segments[..k - 1];
      if trimmed != "" {
        return trimmed;
      }
      k := k - 1;
    }
    r := command;
  }
}
