/** Compression of one tool output (rtk/src/engine.rs): detection, one filter,
    deduplication and a final cap. The tables and regexes are parameters. */
module RtkEngine {
  import opened Text
  import opened Lines
  import opened Dedup
  import opened LineFilter
  import C = CommandType
  import D = Detector
  import T = SmartTruncate

  const MAX_LINES_PER_RESULT: nat := 120
  const MAX_CHARS_PER_RESULT: nat := 12000
  const FINAL_HEAD_TAIL: nat := 24

  /** What the program is built with; `headChars` is the 0.55 share of the character
      budget. */
  datatype Config = Config(
    rows: seq<C.Row>,
    filters: seq<Filter>,
    regexes: Regexes,
    prompt: string -> string,
    isCommand: string -> bool,
    errorMarkers: string -> bool,
    defaultPriority: string -> bool,
    headChars: nat)

  datatype Request = Request(text: string, command: Option<string>, skipFilters: bool)

  datatype ProcessResult = ProcessResult(text: string, compressed: bool)

  predicate FitsBudget(k: Config) {
    k.headChars <= T.Budget(MAX_CHARS_PER_RESULT)
  }

  // ---- the filter -----------------------------------------------------------

  /** The first filter with the property. */
  function Find(fs: seq<Filter>, p: Filter -> bool): Option<Filter> {
    if |fs| == 0 then None else if p(fs[0]) then Some(fs[0]) else Find(fs[1..], p)
  }

  function OrElse(a: Option<Filter>, b: Option<Filter>): Option<Filter> {
    if a.Some? then a else b
  }

  predicate HasType(f: Filter, kind: string) {
    kind in f.commandTypes
  }

  predicate HasCommand(f: Filter, command: string) {
    command != "" && Any(f.commandPatterns, command)
  }

  /** `match_filter_for`: by type, by command, by content, and the generic one. */
  function MatchFilter(fs: seq<Filter>, d: C.Detection, text: string): Option<Filter> {
    var command := d.command.GetOr("");
    OrElse(Find(fs, (f: Filter) => HasType(f, d.kind)),
    OrElse(Find(fs, (f: Filter) => HasCommand(f, command)),
    OrElse(Find(fs, (f: Filter) => Any(f.matchPatterns, text)),
           Find(fs, (f: Filter) => HasType(f, "generic-output")))))
  }

  /** `fs[i]` is the first filter with the property. */
  ghost predicate IsFirst(fs: seq<Filter>, p: Filter -> bool, i: nat) {
    i < |fs| && p(fs[i]) && forall j :: 0 <= j < i ==> !p(fs[j])
  }

  lemma {:induction false} FindExactly(fs: seq<Filter>, p: Filter -> bool)
    ensures Find(fs, p) == None <==> forall j :: 0 <= j < |fs| ==> !p(fs[j])
    ensures forall i: nat :: IsFirst(fs, p, i) ==> Find(fs, p) == Some(fs[i])
  {
    if |fs| > 0 {
      var rest := fs[1..];
      assert fs == [fs[0]] + rest;
      FindExactly(rest, p);
      forall i: nat | IsFirst(fs, p, i)
        ensures Find(fs, p) == Some(fs[i])
      {
        if i > 0 {
          assert IsFirst(rest, p, i - 1);
        }
      }
    }
  }

  /** How strong a filter's claim is: by type 4, by command 3, by content 2, as the generic
      one 1, else 0. */
  ghost function Claim(f: Filter, d: C.Detection, text: string): nat {
    if d.kind in f.commandTypes then 4
    else if d.command.Some? && d.command.value != "" && exists k :: 0 <= k < |f.commandPatterns| && f.commandPatterns[k](d.command.value) then 3
    else if exists k :: 0 <= k < |f.matchPatterns| && f.matchPatterns[k](text) then 2
    else if "generic-output" in f.commandTypes then 1
    else 0
  }

  /** Filter `i` has a claim, none has a stronger one, and none before it one as strong. */
  ghost predicate IsChosen(fs: seq<Filter>, d: C.Detection, text: string, i: nat) {
    && i < |fs| && Claim(fs[i], d, text) > 0
    && (forall j :: 0 <= j < |fs| ==> Claim(fs[j], d, text) <= Claim(fs[i], d, text))
    && (forall j :: 0 <= j < i ==> Claim(fs[j], d, text) < Claim(fs[i], d, text))
  }

  lemma ClaimExactly(f: Filter, d: C.Detection, text: string)
    ensures Claim(f, d, text) ==
              if HasType(f, d.kind) then 4 else if HasCommand(f, d.command.GetOr("")) then 3
              else if Any(f.matchPatterns, text) then 2 else if HasType(f, "generic-output") then 1 else 0
  {
  }

  /** The filter chosen is the first with the strongest claim; there is none exactly when
      no filter has a claim. */
  lemma MatchFilterExactly(fs: seq<Filter>, d: C.Detection, text: string)
    ensures MatchFilter(fs, d, text) == None <==> forall j :: 0 <= j < |fs| ==> Claim(fs[j], d, text) == 0
    ensures forall i: nat :: IsChosen(fs, d, text, i) ==> MatchFilter(fs, d, text) == Some(fs[i])
  {
    forall f: Filter {
      ClaimExactly(f, d, text);
    }
    hide HasType, HasCommand, Any, Claim, Find;
    var command := d.command.GetOr("");
    var byType: Filter -> bool := (f: Filter) => HasType(f, d.kind);
    var byCommand: Filter -> bool := (f: Filter) => HasCommand(f, command);
    var byContent: Filter -> bool := (f: Filter) => Any(f.matchPatterns, text);
    var generic: Filter -> bool := (f: Filter) => HasType(f, "generic-output");
    FindExactly(fs, byType);
    FindExactly(fs, byCommand);
    FindExactly(fs, byContent);
    FindExactly(fs, generic);
    forall i: nat | IsChosen(fs, d, text, i)
      ensures MatchFilter(fs, d, text) == Some(fs[i])
    {
      ChosenIsFirst(fs, d, text, i, byType, byCommand, byContent, generic);
    }
  }

  lemma ChosenIsFirst(fs: seq<Filter>, d: C.Detection, text: string, i: nat,
                      a: Filter -> bool, b: Filter -> bool, c: Filter -> bool, e: Filter -> bool)
    requires IsChosen(fs, d, text, i)
    requires forall f: Filter :: Claim(f, d, text) == if a(f) then 4 else if b(f) then 3 else if c(f) then 2 else if e(f) then 1 else 0
    ensures var k := Claim(fs[i], d, text);
            && (k == 4 ==> IsFirst(fs, a, i))
            && (k < 4 ==> forall j :: 0 <= j < |fs| ==> !a(fs[j])) && (k == 3 ==> IsFirst(fs, b, i))
            && (k < 3 ==> forall j :: 0 <= j < |fs| ==> !b(fs[j])) && (k == 2 ==> IsFirst(fs, c, i))
            && (k < 2 ==> forall j :: 0 <= j < |fs| ==> !c(fs[j])) && (k == 1 ==> IsFirst(fs, e, i))
            && 1 <= k <= 4
  {
    hide Claim;
  }

  // ---- the stages -----------------------------------------------------------

  function Detection(k: Config, q: Request): C.Detection {
    C.Detected(k.rows, q.text, D.DetectedCommand(q.command, q.text, k.prompt, k.isCommand))
  }

  predicate DocumentLike(k: Config, q: Request) {
    var d := Detection(k, q);
    q.skipFilters || (d.kind == "unknown" && d.command == None && !k.errorMarkers(q.text))
  }

  function Matched(k: Config, q: Request): Option<Filter> {
    if DocumentLike(k, q) then None else MatchFilter(k.filters, Detection(k, q), q.text)
  }

  function Filtered(k: Config, q: Request): string {
    match Matched(k, q)
    case None => q.text
    case Some(f) =>
      var base := if f.maxLines == 0 then MAX_LINES_PER_RESULT else f.maxLines;
      Applied(f, k.regexes, q.text, Some(base))
  }

  function Deduplicated(text: string): string {
    if Collapsed(SplitLines(text), DEDUP_THRESHOLD) > 0
    then Join(Encode(SplitLines(text), DEDUP_THRESHOLD)) else text
  }

  function LastOptions(k: Config, f: Option<Filter>): T.Options {
    T.Options(MAX_LINES_PER_RESULT, MAX_CHARS_PER_RESULT, FINAL_HEAD_TAIL, FINAL_HEAD_TAIL,
              l => k.defaultPriority(l) || (f.Some? && Any(f.value.priorityPatterns, l)))
  }

  /** The text `process_rtk_text` returns. */
  function Processed(k: Config, q: Request): string
    requires FitsBudget(k)
  {
    var deduped := Deduplicated(Filtered(k, q));
    if DocumentLike(k, q) then deduped else T.Truncated(deduped, LastOptions(k, Matched(k, q)), k.headChars)
  }

  /** Anything that is not a document comes back within 12000 characters. */
  lemma ResultIsCapped(k: Config, q: Request)
    requires FitsBudget(k) && !DocumentLike(k, q)
    ensures |Processed(k, q)| <= 12000
  {
    hide Deduplicated, Filtered, DocumentLike, Matched;
    T.NeverOverCap(Deduplicated(Filtered(k, q)), LastOptions(k, Matched(k, q)), k.headChars);
  }

  /** A document comes back unchanged or with its repeated lines encoded. In the second
      case its lines can be decoded from the result exactly when it holds no forged run,
      and the document itself exactly when, besides, no line of it ends in CR. */
  lemma DocumentsLoseNothing(k: Config, q: Request)
    requires FitsBudget(k) && DocumentLike(k, q)
    ensures Collapsed(SplitLines(q.text), 3) == 0 ==> Processed(k, q) == q.text
    ensures Collapsed(SplitLines(q.text), 3) > 0 ==>
              && (Decode(SplitLf(Processed(k, q)), 3) == SplitLines(q.text) <==> !Forged(SplitLines(q.text), 3))
              && (Rebuilt(Processed(k, q), 3) == q.text <==>
                    !Forged(SplitLines(q.text), 3) && CrFree(SplitLf(q.text)))
  {
    hide Decode, Encode, Forged, SplitLf, SplitLines, Join, CrFree, Rebuilt, DocumentLike, Collapsed;
    TextLosslessExactly(q.text, 3);
    TextRebuiltExactly(q.text, 3);
  }

  /** Two documents that differ in their line ends alone come back as one text. */
  lemma CrlfDocumentIsNotRebuilt(k: Config, a: Request, b: Request)
    requires FitsBudget(k) && DocumentLike(k, a) && DocumentLike(k, b)
    requires a.text == "a\r\na\r\na" && b.text == "a\na\na"
    ensures a.text != b.text && Processed(k, a) == Processed(k, b) && Rebuilt(Processed(k, a), 3) != a.text
  {
    hide Encode, Forged, SplitLf, SplitLines, Join, CrFree, Rebuilt, DocumentLike, Collapsed;
    CarriageReturnsAreLost();
    DocumentsLoseNothing(k, a);
    assert |a.text| == 7 && |b.text| == 5;
  }

  /** What the priority lines of a command's output are for: as long as the character cap
      is not reached, a line that matches a default priority pattern, or one of the
      filter's, and that reached the last stages is a line of the result. */
  lemma PriorityLineReachesResult(k: Config, q: Request, l: string)
    requires FitsBudget(k) && !DocumentLike(k, q)
    requires l in SplitLf(Filtered(k, q)) && Steady(l)
    requires k.defaultPriority(l) || (Matched(k, q).Some? && Any(Matched(k, q).value.priorityPatterns, l))
    requires |UncappedText(k, q)| <= MAX_CHARS_PER_RESULT
    ensures l in SplitLf(Processed(k, q))
  {
    hide Filtered, DocumentLike, Matched, SplitLf, SplitLines, Any, Steady, T.Truncated, Deduplicated;
    var text := Deduplicated(Filtered(k, q));
    var o := LastOptions(k, Matched(k, q));
    DeduplicatedHas(Filtered(k, q), l);
    TruncatedHas(text, o.(maxChars := 0), l);
    CapNotReached(text, o, k.headChars);
  }

  /** The result before the character pass. */
  function UncappedText(k: Config, q: Request): string {
    T.Truncated(Deduplicated(Filtered(k, q)), LastOptions(k, Matched(k, q)).(maxChars := 0), 0)
  }

  lemma DeduplicatedHas(text: string, l: string)
    requires l in SplitLf(text) && Steady(l)
    ensures l in SplitLf(Deduplicated(text))
  {
    hide SplitLf, SplitLines, Encode, Join, Collapsed;
    StrippedHas(text, l);
    EncodeKeeps(SplitLines(text), DEDUP_THRESHOLD, l);
    JoinedHas(Encode(SplitLines(text), DEDUP_THRESHOLD), l);
  }

  lemma CapNotReached(text: string, o: T.Options, headChars: nat)
    requires headChars <= T.Budget(o.maxChars) && 0 < o.maxChars
    requires |T.Truncated(text, o.(maxChars := 0), 0)| <= o.maxChars
    ensures T.Truncated(text, o, headChars) == T.Truncated(text, o.(maxChars := 0), 0)
  {
    hide SplitLines, Join, T.LineMarker, T.AddNew, T.KeepIf;
    var lines := SplitLines(text);
    assert T.Parts(lines, o.(maxChars := 0)) == T.Parts(lines, o);
  }

  /** What the result must be, stage by stage and limit by limit. */
  ghost predicate IsProcessed(k: Config, q: Request, r: string) {
    var d := C.Detected(k.rows, q.text, D.DetectedCommand(q.command, q.text, k.prompt, k.isCommand));
    var isDocument := q.skipFilters || (d.kind == "unknown" && d.command == None && !k.errorMarkers(q.text));
    exists m: Option<Filter>, filtered: string ::
      && m == (if isDocument then None else MatchFilter(k.filters, d, q.text))
      && (m == None ==> filtered == q.text)
      && (m.Some? ==> IsFiltered(m.value, k.regexes, q.text, Some(if m.value.maxLines == 0 then 120 else m.value.maxLines), filtered))
      && var lines := SplitLines(filtered);
         var deduped := if Collapsed(lines, 3) > 0 then Join(Encode(lines, 3)) else filtered;
         if isDocument then r == deduped
         else exists t: T.Truncation :: r == t.text && T.IsTruncation(deduped, LastOptions(k, m), k.headChars, t)
  }

  lemma LastOptionsExactly(k: Config, m: Option<Filter>, l: string)
    ensures var o := LastOptions(k, m);
            && o.maxLines == 120 && o.maxChars == 12000 && o.preserveHead == 24 && o.preserveTail == 24
            && (o.priority(l) <==>
                  k.defaultPriority(l)
                  || (m.Some? && exists i :: 0 <= i < |m.value.priorityPatterns| && m.value.priorityPatterns[i](l)))
  {
  }

  lemma TruncatedIs(text: string, o: T.Options, headChars: nat)
    requires headChars <= T.Budget(o.maxChars)
    ensures exists t: T.Truncation :: T.Truncated(text, o, headChars) == t.text && T.IsTruncation(text, o, headChars, t)
  {
    hide T.Truncated, T.DroppedLines, T.IsTruncation;
    var t := T.Truncation(T.Truncated(text, o, headChars), T.Over(text, o),
                          if T.Over(text, o) then T.DroppedLines(text, o, headChars) else 0);
    T.TruncatedIs(text, o, headChars, t);
  }

  lemma ProcessedIs(k: Config, q: Request)
    requires FitsBudget(k)
    ensures IsProcessed(k, q, Processed(k, q))
  {
    hide MatchFilter, Applied, Encode, Collapsed, SplitLines, Join, T.Truncated, T.IsTruncation, C.Detected, D.DetectedCommand, IsFiltered;
    var m, filtered := Matched(k, q), Filtered(k, q);
    if m.Some? {
      AppliedIsFiltered(m.value, k.regexes, q.text, Some(if m.value.maxLines == 0 then 120 else m.value.maxLines));
    }
    TruncatedIs(Deduplicated(filtered), LastOptions(k, m), k.headChars);
  }

  /** `process_rtk_text`. */
  method ProcessRtkText(k: Config, q: Request) returns (r: ProcessResult)
    requires FitsBudget(k)
    ensures IsProcessed(k, q, r.text)
    ensures r.text == Processed(k, q)
    ensures r.compressed <==> Utf8Len(r.text) < Utf8Len(q.text)
  {
    ProcessedIs(k, q);
    hide MatchFilter, Applied, Encode, Collapsed, SplitLines, Join, Utf8Len, C.Detected, D.DetectedCommand, IsProcessed, IsFiltered;
    hide T.Truncated, T.Over, T.IsTruncation, T.DroppedLines;
    var detection := C.DetectCommandType(k.rows, q.text, q.command, k.prompt, k.isCommand);
    var documentLike := q.skipFilters
      || (detection.kind == "unknown" && detection.command == None && !k.errorMarkers(q.text));
    assert detection == Detection(k, q) && documentLike == DocumentLike(k, q);
    hide Detection, DocumentLike;
    var result := q.text;
    var matched: Option<Filter> := None;
    if !q.skipFilters && !documentLike {
      matched := MatchFilter(k.filters, detection, q.text);
      if matched.Some? {
        var f := matched.value;
        var base := if f.maxLines == 0 then MAX_LINES_PER_RESULT else f.maxLines;
        result := ApplyLineFilter(f, k.regexes, result, Some(base));
      }
    }
    assert matched == Matched(k, q) && result == Filtered(k, q);
    var deduped, collapsed := DeduplicateRepeatedLines(result, DEDUP_THRESHOLD);
    if collapsed > 0 {
      result := deduped;
    }
    assert result == Deduplicated(Filtered(k, q));
    hide Filtered, Matched, Deduplicated;
    if !documentLike {
      var truncated := T.Run(result, LastOptions(k, matched), k.headChars);
      if truncated.truncated {
        result := truncated.text;
      } else {
        NotTruncated(result, LastOptions(k, matched), k.headChars);
      }
    }
    r := ProcessResult(result, Utf8Len(result) < Utf8Len(q.text));
  }

  lemma NotTruncated(text: string, o: T.Options, headChars: nat)
    requires headChars <= T.Budget(o.maxChars) && !T.Over(text, o)
    ensures T.Truncated(text, o, headChars) == text
  {
  }
}
