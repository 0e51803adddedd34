/** Head, tail and priority-line retention with a character cap
    (rtk/src/smart_truncate.rs). */
module SmartTruncate {
  import opened Text
  import opened Lines

  datatype Options = Options(maxLines: nat, maxChars: nat, preserveHead: nat, preserveTail: nat, priority: string -> bool)

  datatype Truncation = Truncation(text: string, truncated: bool, droppedLines: nat)

  const CHAR_MARKER := "\n[rtk:truncated by chars]\n"

  function LineMarker(dropped: nat): string {
    "[rtk:truncated " + Decimal(dropped) + " lines]"
  }

  predicate Over(text: string, o: Options) {
    (o.maxLines > 0 && |SplitLines(text)| > o.maxLines) || (o.maxChars > 0 && |text| > o.maxChars)
  }

  function Min(a: nat, b: nat): nat {
    if a < b then a else b
  }

  // ---- which lines are kept -------------------------------------------------

  function KeepIf(lines: seq<string>, p: string -> bool): seq<string> {
    if |lines| == 0 then []
    else
      var init := KeepIf(lines[..|lines| - 1], p);
      if p(lines[|lines| - 1]) then init + [lines[|lines| - 1]] else init
  }

  /** Append each candidate whose value is not there yet. */
  function AddNew(selected: seq<string>, candidates: seq<string>): seq<string> {
    if |candidates| == 0 then selected
    else
      var init := AddNew(selected, candidates[..|candidates| - 1]);
      var c := candidates[|candidates| - 1];
      if c in init then init else init + [c]
  }

  function Head(lines: seq<string>, o: Options): seq<string> {
    lines[..Min(o.preserveHead, |lines|)]
  }

  /** Where the tail starts. */
  function TailStart(lines: seq<string>, o: Options): (k: nat)
    ensures k <= |lines|
  {
    |lines| - Min(o.preserveTail, |lines|)
  }

  /** The tail lines that are not already head lines. */
  function TailBeyondHead(lines: seq<string>, o: Options): seq<string> {
    var k := TailStart(lines, o);
    lines[if k > o.preserveHead then k else Min(o.preserveHead, |lines|)..]
  }

  function Selected(lines: seq<string>, o: Options): seq<string> {
    AddNew(AddNew(Head(lines, o), KeepIf(lines, o.priority)), TailBeyondHead(lines, o))
  }

  ghost predicate Distinct(s: seq<string>) {
    forall i, j :: 0 <= i < j < |s| ==> s[i] != s[j]
  }

  lemma {:induction false} KeepIfKeeps(lines: seq<string>, p: string -> bool)
    ensures forall l :: l in KeepIf(lines, p) <==> l in lines && p(l)
  {
    if |lines| > 0 {
      KeepIfKeeps(lines[..|lines| - 1], p);
      assert lines == lines[..|lines| - 1] + [lines[|lines| - 1]];
    }
  }

  /** What the appending leaves: the start untouched, and after it the values that
      were new, each once. */
  lemma {:induction false} AddNewFacts(selected: seq<string>, candidates: seq<string>)
    ensures var r := AddNew(selected, candidates);
            && selected <= r
            && (forall l :: l in r <==> l in selected || l in candidates)
            && (forall l <- r[|selected|..] :: l !in selected && l in candidates)
            && Distinct(r[|selected|..])
  {
    if |candidates| > 0 {
      var n := |candidates| - 1;
      AddNewFacts(selected, candidates[..n]);
      assert candidates == candidates[..n] + [candidates[n]];
      AddOne(selected, AddNew(selected, candidates[..n]), candidates[n]);
    }
  }

  lemma AddOne(selected: seq<string>, r: seq<string>, c: string)
    requires selected <= r && Distinct(r[|selected|..])
    ensures c !in r ==> (selected <= r + [c] && (r + [c])[|selected|..] == r[|selected|..] + [c]
                         && Distinct(r[|selected|..] + [c]))
  {
    if c !in r {
      var t := r[|selected|..];
      assert (r + [c])[|selected|..] == t + [c];
      assert forall x <- t :: x in r;
      forall i, j | 0 <= i < j < |t + [c]|
        ensures (t + [c])[i] != (t + [c])[j]
      {
        assert t[i] in t;
      }
    }
  }

  lemma {:induction false} DistinctFits(s: seq<string>, pool: seq<string>)
    requires Distinct(s) && forall l <- s :: l in pool
    ensures |s| <= |pool|
    decreases |pool|
  {
    if |s| > 0 {
      var l := s[|s| - 1];
      assert l in s;
      var k :| 0 <= k < |pool| && pool[k] == l;
      var less := pool[..k] + pool[k + 1..];
      forall x | x in s[..|s| - 1]
        ensures x in less
      {
        var i :| 0 <= i < |s| - 1 && s[..|s| - 1][i] == x;
        assert s[i] == x && x in s && x != l;
        var j :| 0 <= j < |pool| && pool[j] == x;
        assert j < k ==> less[j] == x;
        assert j > k ==> less[j - 1] == x;
      }
      DistinctFits(s[..|s| - 1], less);
    }
  }

  /** The selection, for all lines and options: the head in place; after it, each
      once and none repeating a head line, exactly the values that are priority
      lines or lie in the tail beyond the head; and never more lines than there are,
      so the number in the marker is exact. */
  lemma SelectionIsExact(lines: seq<string>, o: Options)
    ensures var h := Head(lines, o); var s := Selected(lines, o);
            && h <= s && h <= lines
            && Distinct(s[|h|..])
            && (forall l :: l in s[|h|..] <==>
                  l !in h && ((l in lines && o.priority(l)) || l in TailBeyondHead(lines, o)))
            && |s| <= |lines|
  {
    var h, s := Head(lines, o), Selected(lines, o);
    var p := KeepIf(lines, o.priority);
    var tail := TailBeyondHead(lines, o);
    KeepIfKeeps(lines, o.priority);
    AddNewFacts(h, p);
    AddNewFacts(AddNew(h, p), tail);
    TwoStages(h, AddNew(h, p), s);
    hide AddNew, KeepIf;
    var rest := lines[|h|..];
    HeadThenRest(lines, o);
    hide Head;
    assert forall l <- s[|h|..] :: l in s;
    DistinctFits(s[|h|..], rest);
  }

  /** Where `l` first is, or the length. */
  function FirstIndex(lines: seq<string>, l: string): (k: nat)
    ensures k <= |lines| && l !in lines[..k] && (k < |lines| ==> lines[k] == l)
  {
    if |lines| == 0 || lines[0] == l then 0
    else
      var k := 1 + FirstIndex(lines[1..], l);
      assert lines[..k] == [lines[0]] + lines[1..][..k - 1];
      k
  }

  /** The values of `s` come in the order in which `lines` first has them. */
  ghost predicate InOrderOf(s: seq<string>, lines: seq<string>) {
    forall i, j :: 0 <= i < j < |s| ==> FirstIndex(lines, s[i]) < FirstIndex(lines, s[j])
  }

  lemma {:induction false} FirstIndexExtends(lines: seq<string>, x: string, l: string)
    ensures FirstIndex(lines + [x], l) ==
              if l in lines then FirstIndex(lines, l) else if x == l then |lines| else |lines| + 1
  {
    var all := lines + [x];
    if |lines| > 0 {
      assert all[1..] == lines[1..] + [x] && lines == [lines[0]] + lines[1..];
      FirstIndexExtends(lines[1..], x, l);
    }
  }

  /** What the appending adds comes in the order of the candidates. */
  lemma {:induction false} AddNewOrder(selected: seq<string>, candidates: seq<string>)
    ensures selected <= AddNew(selected, candidates)
    ensures InOrderOf(AddNew(selected, candidates)[|selected|..], candidates)
  {
    if |candidates| > 0 {
      var init, c := candidates[..|candidates| - 1], candidates[|candidates| - 1];
      AddNewOrder(selected, init);
      AddNewFacts(selected, init);
      assert init + [c] == candidates;
      OrderExtends(AddNew(selected, init)[|selected|..], init, c);
      var r := AddNew(selected, init);
      assert (r + [c])[|selected|..] == r[|selected|..] + [c];
      assert c !in r ==> c !in r[|selected|..];
      if c !in r {
        NewInOrder(r[|selected|..], init, c);
      }
    }
  }

  lemma OrderExtends(s: seq<string>, lines: seq<string>, x: string)
    requires InOrderOf(s, lines) && forall l <- s :: l in lines
    ensures InOrderOf(s, lines + [x])
  {
    forall i, j | 0 <= i < j < |s|
      ensures FirstIndex(lines + [x], s[i]) < FirstIndex(lines + [x], s[j])
    {
      FirstIndexExtends(lines, x, s[i]);
      FirstIndexExtends(lines, x, s[j]);
    }
  }

  lemma NewInOrder(s: seq<string>, lines: seq<string>, x: string)
    requires InOrderOf(s, lines) && x !in lines && forall l <- s :: l in lines
    ensures InOrderOf(s + [x], lines + [x])
  {
    var t := s + [x];
    forall i, j | 0 <= i < j < |t|
      ensures FirstIndex(lines + [x], t[i]) < FirstIndex(lines + [x], t[j])
    {
      FirstIndexExtends(lines, x, t[i]);
      FirstIndexExtends(lines, x, t[j]);
      assert t[i] in s;
      assert FirstIndex(lines, t[i]) < |lines|;
    }
  }

  lemma {:induction false} KeepIfOrder(lines: seq<string>, p: string -> bool, a: string, b: string)
    requires a in lines && b in lines && p(a) && p(b)
    ensures a in KeepIf(lines, p) && b in KeepIf(lines, p)
    ensures FirstIndex(KeepIf(lines, p), a) < FirstIndex(KeepIf(lines, p), b)
        <==> FirstIndex(lines, a) < FirstIndex(lines, b)
  {
    var init, l := lines[..|lines| - 1], lines[|lines| - 1];
    assert init + [l] == lines;
    var k := KeepIf(init, p);
    KeepIfKeeps(init, p);
    KeepIfKeeps(lines, p);
    FirstIndexExtends(init, l, a);
    FirstIndexExtends(init, l, b);
    FirstIndexExtends(k, l, a);
    FirstIndexExtends(k, l, b);
    if a in init && b in init {
      KeepIfOrder(init, p, a, b);
    }
  }

  lemma KeptInOrder(s: seq<string>, lines: seq<string>, p: string -> bool)
    requires InOrderOf(s, KeepIf(lines, p)) && forall l <- s :: l in KeepIf(lines, p)
    ensures InOrderOf(s, lines)
  {
    KeepIfKeeps(lines, p);
    forall i, j | 0 <= i < j < |s|
      ensures FirstIndex(lines, s[i]) < FirstIndex(lines, s[j])
    {
      KeepIfOrder(lines, p, s[i], s[j]);
    }
  }

  lemma NothingElseIsLost(lines: seq<string>, o: Options)
    ensures forall l <- lines :: o.priority(l) ==> l in Selected(lines, o)
    ensures forall l <- lines[TailStart(lines, o)..] :: l in Selected(lines, o)
  {
    hide Selected;
    forall l | l in lines && (o.priority(l) || l in lines[TailStart(lines, o)..])
      ensures l in Selected(lines, o)
    {
      PriorityAndTailSurvive(lines, o, l);
    }
  }

  lemma PriorityPart(lines: seq<string>, o: Options)
    ensures var h, p := Head(lines, o), KeepIf(lines, o.priority); var m := AddNew(h, p);
            && h <= m && (forall l <- p :: l in m)
            && (forall l <- m[|h|..] :: l in lines && o.priority(l)) && InOrderOf(m[|h|..], lines)
  {
    var h, p := Head(lines, o), KeepIf(lines, o.priority);
    KeepIfKeeps(lines, o.priority);
    AddNewFacts(h, p);
    AddNewOrder(h, p);
    KeptInOrder(AddNew(h, p)[|h|..], lines, o.priority);
  }

  lemma TailPart(lines: seq<string>, o: Options)
    ensures var m := AddNew(Head(lines, o), KeepIf(lines, o.priority)); var s := Selected(lines, o);
            && m <= s && InOrderOf(s[|m|..], TailBeyondHead(lines, o))
            && forall l <- s[|m|..] :: l in TailBeyondHead(lines, o) && !o.priority(l)
  {
    var h, p, tail := Head(lines, o), KeepIf(lines, o.priority), TailBeyondHead(lines, o);
    var m := AddNew(h, p);
    PriorityPart(lines, o);
    KeepIfKeeps(lines, o.priority);
    AddNewFacts(m, tail);
    AddNewOrder(m, tail);
    hide AddNew, KeepIf, InOrderOf;
    forall l | l in tail && o.priority(l)
      ensures l in m
    {
      assert l in lines;
    }
  }

  /** The selection in order, for all lines and options: the first `preserveHead` lines;
      then the priority lines in the order of the text, then other lines of the last
      `preserveTail` that are not head lines, in theirs. */
  lemma SelectionInOrder(lines: seq<string>, o: Options) returns (k: nat)
    ensures var s := Selected(lines, o);
            var h := if o.preserveHead < |lines| then o.preserveHead else |lines|;
            var t := if o.preserveTail < |lines| then |lines| - o.preserveTail else 0;
            && h <= k <= |s| && s[..h] == lines[..h]
            && (forall l <- s[h..k] :: l in lines && o.priority(l)) && InOrderOf(s[h..k], lines)
            && (forall l <- s[k..] :: !o.priority(l) && l in lines[if t > h then t else h..])
            && InOrderOf(s[k..], lines[if t > h then t else h..])
            && (forall l <- lines :: o.priority(l) ==> l in s) && (forall l <- lines[t..] :: l in s)
  {
    PriorityPart(lines, o);
    TailPart(lines, o);
    NothingElseIsLost(lines, o);
    hide AddNew, KeepIf, InOrderOf, Selected;
    var s := Selected(lines, o);
    var h, m := Head(lines, o), AddNew(Head(lines, o), KeepIf(lines, o.priority));
    k := |m|;
    assert m == s[..k];
    assert s[|h|..k] == m[|h|..];
  }

  lemma HeadThenRest(lines: seq<string>, o: Options)
    ensures var h := Head(lines, o); lines == h + lines[|h|..]
                                     && forall l <- TailBeyondHead(lines, o) :: l in lines[|h|..]
  {
    var h := Head(lines, o);
    var from := |lines| - |TailBeyondHead(lines, o)|;
    assert lines[|h|..][from - |h|..] == TailBeyondHead(lines, o);
  }

  lemma TwoStages(h: seq<string>, m: seq<string>, s: seq<string>)
    requires h <= m <= s && Distinct(m[|h|..]) && Distinct(s[|m|..])
    requires forall l <- m[|h|..] :: l !in h
    requires forall l <- s[|m|..] :: l !in m
    ensures Distinct(s[|h|..]) && forall l :: l in s[|h|..] <==> l in s && l !in h
  {
    var a, b := m[|h|..], s[|m|..];
    assert s[|h|..] == a + b && s == h + (a + b) && m == h + a;
    forall i, j | 0 <= i < j < |a + b|
      ensures (a + b)[i] != (a + b)[j]
    {
      if i < |a| <= j {
        assert a[i] in m && b[j - |a|] in b;
      }
    }
    forall l | l in a + b
      ensures l !in h
    {
      assert l in a || l in b;
      assert forall x <- h :: x in m;
    }
  }

  lemma TailLineCovered(lines: seq<string>, o: Options, i: nat)
    requires TailStart(lines, o) <= i < |lines|
    ensures lines[i] in Head(lines, o) || lines[i] in TailBeyondHead(lines, o)
  {
    var k, h := TailStart(lines, o), Min(o.preserveHead, |lines|);
    if i < h {
      assert Head(lines, o)[i] == lines[i];
    } else {
      var from := if k > o.preserveHead then k else h;
      assert lines[from..][i - from] == lines[i];
    }
  }

  /** No priority line and no tail line is lost, by value. */
  lemma PriorityAndTailSurvive(lines: seq<string>, o: Options, l: string)
    requires (l in lines && o.priority(l)) || l in lines[TailStart(lines, o)..]
    ensures l in Selected(lines, o)
  {
    var h := Head(lines, o);
    SelectionIsExact(lines, o);
    hide Selected, Head, TailBeyondHead;
    var s := Selected(lines, o);
    assert s == h + s[|h|..];
    if l in lines[TailStart(lines, o)..] {
      var k := TailStart(lines, o);
      var j :| 0 <= j < |lines[k..]| && lines[k..][j] == l;
      TailLineCovered(lines, o, k + j);
    }
  }

  // ---- the result -----------------------------------------------------------

  function Parts(lines: seq<string>, o: Options): seq<string> {
    SelectionIsExact(lines, o);
    var h, s := Head(lines, o), Selected(lines, o);
    s[..|h|] + [LineMarker(|lines| - |s|)] + s[|h|..]
  }

  /** Characters left for text beside the marker. */
  function Budget(maxChars: nat): nat {
    if maxChars > |CHAR_MARKER| then maxChars - |CHAR_MARKER| else 0
  }

  /** The character pass; `headChars` is the source's 0.55 share of the budget. */
  function Clip(text: string, maxChars: nat, headChars: nat): string
    requires headChars <= Budget(maxChars)
  {
    if maxChars == 0 || |text| <= maxChars then text
    else if Budget(maxChars) == 0 then CHAR_MARKER[..maxChars]
    else text[..headChars] + CHAR_MARKER + text[|text| - (Budget(maxChars) - headChars)..]
  }

  /** With a character limit the result never exceeds it, and a clipped result
      fills it exactly. */
  lemma ClipCaps(text: string, maxChars: nat, headChars: nat)
    requires headChars <= Budget(maxChars) && 0 < maxChars
    ensures |Clip(text, maxChars, headChars)| == Min(|text|, maxChars)
  {
    assert |CHAR_MARKER| == 26;
  }

  /** The text of `smart_truncate`. */
  function Truncated(text: string, o: Options, headChars: nat): string
    requires headChars <= Budget(o.maxChars)
  {
    if !Over(text, o) then text else Clip(Join(Parts(SplitLines(text), o)), o.maxChars, headChars)
  }

  /** With a character limit no output exceeds it, whichever pass ran. */
  lemma NeverOverCap(text: string, o: Options, headChars: nat)
    requires headChars <= Budget(o.maxChars) && 0 < o.maxChars
    ensures |Truncated(text, o, headChars)| <= o.maxChars
  {
    if Over(text, o) {
      ClipCaps(Join(Parts(SplitLines(text), o)), o.maxChars, headChars);
    }
  }

  /** When only lines are cut, the output's lines are the head, the marker with the
      exact number of lines missing, and the rest of the selection. */
  lemma LinesOfOutput(text: string, o: Options, headChars: nat)
    requires headChars <= Budget(o.maxChars) && Over(text, o)
    requires o.maxChars == 0 || |Join(Parts(SplitLines(text), o))| <= o.maxChars
    ensures var lines := SplitLines(text); var out := SplitLf(Truncated(text, o, headChars));
            var h, s := Head(lines, o), Selected(lines, o);
            && h <= s && |out| == |s| + 1 && |s| <= |lines|
            && out[..|h|] == h <= lines
            && out[|h|] == LineMarker(|lines| - |s|)
            && out[|h| + 1..] == s[|h|..]
  {
    var lines := SplitLines(text);
    SplitLinesHasNoLf(text);
    PartsHaveNoLf(lines, o);
    SplitOfJoin(Parts(lines, o));
    hide Selected, LineMarker, SplitLines, Over, SplitLf, Join, Head, NoLf, Parts;
    PartsShape(lines, o);
  }

  lemma PartsShape(lines: seq<string>, o: Options)
    ensures var out := Parts(lines, o); var h, s := Head(lines, o), Selected(lines, o);
            && h <= s && |out| == |s| + 1 && |s| <= |lines|
            && out[..|h|] == h <= lines
            && out[|h|] == LineMarker(|lines| - |s|)
            && out[|h| + 1..] == s[|h|..]
  {
    SelectionIsExact(lines, o);
    hide Selected, LineMarker, Head, Distinct;
    var h, s := Head(lines, o), Selected(lines, o);
    MarkerInMiddle(h, s, LineMarker(|lines| - |s|));
  }

  lemma MarkerInMiddle(h: seq<string>, s: seq<string>, m: string)
    requires h <= s
    ensures var out := s[..|h|] + [m] + s[|h|..];
            |out| == |s| + 1 && out[..|h|] == h && out[|h|] == m && out[|h| + 1..] == s[|h|..]
  {
  }

  lemma PartsHaveNoLf(lines: seq<string>, o: Options)
    requires NoLf(lines)
    ensures NoLf(Parts(lines, o)) && |Parts(lines, o)| > 0
  {
    SelectionIsExact(lines, o);
    var h, s := Head(lines, o), Selected(lines, o);
    hide Selected;
    forall l | l in s
      ensures '\n' !in l
    {
      assert s == h + s[|h|..];
      assert l in h ==> l in lines;
      assert l in TailBeyondHead(lines, o) ==> l in lines;
    }
    MarkerHasNoLf(|lines| - |s|);
    assert forall l <- s[..|h|] :: l in s;
    assert forall l <- s[|h|..] :: l in s;
  }

  lemma MarkerHasNoLf(dropped: nat)
    ensures '\n' !in LineMarker(dropped)
  {
    var d := Decimal(dropped);
    assert '\n' !in d;
  }

  lemma AddNewStep(selected: seq<string>, candidates: seq<string>, k: nat)
    requires k < |candidates|
    ensures var r := AddNew(selected, candidates[..k]);
            AddNew(selected, candidates[..k + 1]) == if candidates[k] in r then r else r + [candidates[k]]
  {
    assert candidates[..k + 1][..k] == candidates[..k];
  }

  lemma TailIndex(lines: seq<string>, o: Options, offset: nat)
    requires TailStart(lines, o) + offset < |lines|
    ensures var i := TailStart(lines, o) + offset;
            var from := |lines| - |TailBeyondHead(lines, o)|;
            && lines[TailStart(lines, o)..][offset] == lines[i]
            && (i >= o.preserveHead ==> i >= from && TailBeyondHead(lines, o)[i - from] == lines[i])
            && (i < o.preserveHead ==> i < from)
  {
  }

  /** The two selection loops. */
  method SelectLines(lines: seq<string>, o: Options) returns (selected: seq<string>)
    ensures selected == Selected(lines, o)
  {
    hide AddNew, KeepIf;
    var priorityLines := KeepIf(lines, o.priority);
    var head := lines[..Min(o.preserveHead, |lines|)];
    selected := head;
    AddNewNone(head, priorityLines);
    var k := 0;
    while k < |priorityLines|
      invariant 0 <= k <= |priorityLines| && selected == AddNew(head, priorityLines[..k])
    {
      AddNewStep(head, priorityLines, k);
      if priorityLines[k] !in selected {
        selected := selected + [priorityLines[k]];
      }
      k := k + 1;
    }
    assert priorityLines[..k] == priorityLines;
    hide Head;
    ghost var staged := selected;
    ghost var beyond := TailBeyondHead(lines, o);
    ghost var from := |lines| - |beyond|;
    var tail := lines[TailStart(lines, o)..];
    var tailStart := |lines| - |tail|;
    AddNewNone(staged, beyond);
    var offset := 0;
    while offset < |tail|
      invariant 0 <= offset <= |tail|
      invariant selected == AddNew(staged, beyond[..if tailStart + offset > from then tailStart + offset - from else 0])
    {
      var originalIndex := tailStart + offset;
      TailIndex(lines, o, offset);
      if originalIndex >= o.preserveHead {
        AddNewStep(staged, beyond, originalIndex - from);
        if tail[offset] !in selected {
          selected := selected + [tail[offset]];
        }
      }
      offset := offset + 1;
    }
    assert beyond[..|beyond|] == beyond;
  }

  lemma AddNewNone(selected: seq<string>, candidates: seq<string>)
    ensures AddNew(selected, candidates[..0]) == selected
  {
  }

  /** What the result reports as dropped: the lines not selected and, when the
      character pass cuts between a head and a tail, the lines that lost. */
  function DroppedLines(text: string, o: Options, headChars: nat): nat
    requires headChars <= Budget(o.maxChars)
  {
    var lines := SplitLines(text);
    SelectionIsExact(lines, o);
    var joined := Join(Parts(lines, o));
    var before, after := |SplitLf(joined)|, |SplitLf(Clip(joined, o.maxChars, headChars))|;
    |lines| - |Selected(lines, o)| + if Budget(o.maxChars) > 0 && before > after then before - after else 0
  }

  /** What a result must be, limit by limit. `j` is the selection with the number of
      missing lines written after the head; past the character limit its first
      `headChars` characters and its last ones stand on either side of the marker. */
  ghost predicate IsTruncation(text: string, o: Options, headChars: nat, r: Truncation) {
    var lines := SplitLines(text);
    var tooMany := 0 < o.maxLines < |lines|;
    var tooLong := 0 < o.maxChars < |text|;
    SelectionIsExact(lines, o);
    var s := Selected(lines, o);
    var h := if o.preserveHead < |lines| then o.preserveHead else |lines|;
    var missing: nat := |lines| - |s|;
    && h <= |s|
    && r.truncated == (tooMany || tooLong)
    && (!r.truncated ==> r.text == text && r.droppedLines == 0)
    && (r.truncated ==>
          var j := Join(s[..h] + ["[rtk:truncated " + Decimal(missing) + " lines]"] + s[h..]);
          && (o.maxChars == 0 || |j| <= o.maxChars ==> r.text == j && r.droppedLines == missing)
          && (0 < o.maxChars < |j| && o.maxChars <= 26 ==>
                r.text == "\n[rtk:truncated by chars]\n"[..o.maxChars] && r.droppedLines == missing)
          && (26 < o.maxChars < |j| ==>
                && headChars + 26 <= |r.text| == o.maxChars
                && r.text[..headChars] == j[..headChars]
                && r.text[headChars..headChars + 26] == "\n[rtk:truncated by chars]\n"
                && r.text[headChars + 26..] == j[|j| - (o.maxChars - 26 - headChars)..]
                && r.droppedLines == missing + (if |SplitLf(j)| > |SplitLf(r.text)| then |SplitLf(j)| - |SplitLf(r.text)| else 0)))
  }

  lemma TruncatedIs(text: string, o: Options, headChars: nat, r: Truncation)
    requires headChars <= Budget(o.maxChars)
    requires r.text == Truncated(text, o, headChars) && r.truncated == Over(text, o)
    requires r.droppedLines == if Over(text, o) then DroppedLines(text, o, headChars) else 0
    ensures IsTruncation(text, o, headChars, r)
  {
    hide SplitLines, SplitLf, Join, Selected;
    var lines := SplitLines(text);
    SelectionIsExact(lines, o);
    if Over(text, o) {
      var h, s := |Head(lines, o)|, Selected(lines, o);
      assert Parts(lines, o) == s[..h] + ["[rtk:truncated " + Decimal(|lines| - |s|) + " lines]"] + s[h..];
      ClippedIs(Join(Parts(lines, o)), o.maxChars, headChars);
    }
  }

  lemma ClippedIs(j: string, maxChars: nat, headChars: nat)
    requires headChars <= Budget(maxChars)
    ensures var c := Clip(j, maxChars, headChars);
            && (maxChars == 0 || |j| <= maxChars ==> c == j)
            && (0 < maxChars < |j| && maxChars <= 26 ==> c == "\n[rtk:truncated by chars]\n"[..maxChars])
            && (26 < maxChars < |j| ==>
                  && headChars + 26 <= |c| == maxChars && c[..headChars] == j[..headChars]
                  && c[headChars..headChars + 26] == "\n[rtk:truncated by chars]\n"
                  && c[headChars + 26..] == j[|j| - (maxChars - 26 - headChars)..])
            && Budget(maxChars) == if maxChars > 26 then maxChars - 26 else 0
  {
    assert |CHAR_MARKER| == 26;
  }

  /** `smart_truncate`. */
  method Run(text: string, o: Options, headChars: nat) returns (r: Truncation)
    requires headChars <= Budget(o.maxChars)
    ensures IsTruncation(text, o, headChars, r)
    ensures r.text == Truncated(text, o, headChars)
    ensures r.truncated <==> Over(text, o)
  {
    r := Truncate(text, o, headChars);
    TruncatedIs(text, o, headChars, r);
  }

  method Truncate(text: string, o: Options, headChars: nat) returns (r: Truncation)
    requires headChars <= Budget(o.maxChars)
    ensures r.text == Truncated(text, o, headChars)
    ensures r.truncated <==> Over(text, o)
    ensures r.droppedLines == if Over(text, o) then DroppedLines(text, o, headChars) else 0
  {
    hide Over, SplitLines, LineMarker, SplitLf, Selected, Join;
    var lines := SplitLines(text);
    if !Over(text, o) {
      return Truncation(text, false, 0);
    }
    SelectionIsExact(lines, o);
    var selected := SelectLines(lines, o);
    var headLen := Min(o.preserveHead, |lines|);
    var dropped := |lines| - |selected|;
    var result := Join(selected[..headLen] + [LineMarker(dropped)] + selected[headLen..]);
    if o.maxChars > 0 && |result| > o.maxChars {
      var linesBefore := |SplitLf(result)|;
      var budget := Budget(o.maxChars);
      if budget == 0 {
        return Truncation(CHAR_MARKER[..Min(o.maxChars, |CHAR_MARKER|)], true, dropped);
      }
      var tailChars := budget - headChars;
      result := result[..headChars] + CHAR_MARKER + result[|result| - tailChars..];
      if |result| > o.maxChars {
        assert false;  // the pieces fill the limit exactly, so the final cut never runs
      }
      var linesAfter := |SplitLf(result)|;
      dropped := dropped + if linesBefore > linesAfter then linesBefore - linesAfter else 0;
    }
    r := Truncation(result, true, dropped);
  }
}
