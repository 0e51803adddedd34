/** Run-length encoding of repeated lines (rtk/src/dedup.rs). */
module Dedup {
  import opened Text
  import opened Lines

  function Repeated(k: nat): string {
    "[line repeated " + Decimal(k) + "x]"
  }

  function Dropped(k: nat): string {
    "[rtk:dropped " + Decimal(k) + " repeated lines]"
  }

  /** Length of the run of equal lines at the front. */
  function RunLength(lines: seq<string>): (n: nat)
    requires |lines| > 0
    ensures 1 <= n <= |lines|
    ensures forall i :: 0 <= i < n ==> lines[i] == lines[0]
    ensures n < |lines| ==> lines[n] != lines[0]
  {
    if |lines| == 1 || lines[1] != lines[0] then 1 else 1 + RunLength(lines[1..])
  }

  predicate Collapses(lines: seq<string>, t: nat)
    requires |lines| > 0
  {
    !Blank(lines[0]) && RunLength(lines) >= t
  }

  /** How many lines the encoder takes at once, and what it writes for them. */
  function Taken(lines: seq<string>, t: nat): (n: nat)
    requires |lines| > 0
    ensures 1 <= n <= |lines|
  {
    if Collapses(lines, t) then RunLength(lines) else 1
  }

  function Written(lines: seq<string>, t: nat): seq<string>
    requires |lines| > 0
  {
    if Collapses(lines, t) then [lines[0], Repeated(RunLength(lines) - 1), Dropped(RunLength(lines) - 1)]
    else [lines[0]]
  }

  /** The encoded lines; `t` is the threshold, at least 2. */
  function Encode(lines: seq<string>, t: nat): seq<string> {
    if |lines| == 0 then [] else Written(lines, t) + Encode(lines[Taken(lines, t)..], t)
  }

  /** How many lines are collapsed away. */
  function Collapsed(lines: seq<string>, t: nat): nat {
    if |lines| == 0 then 0 else Taken(lines, t) - 1 + Collapsed(lines[Taken(lines, t)..], t)
  }

  function CollapsedRuns(lines: seq<string>, t: nat): nat {
    if |lines| == 0 then 0
    else (if Collapses(lines, t) then 1 else 0) + CollapsedRuns(lines[Taken(lines, t)..], t)
  }

  /** Every line is accounted for. */
  lemma {:induction false} EncodeLength(lines: seq<string>, t: nat)
    requires t >= 2
    ensures |Encode(lines, t)| + Collapsed(lines, t) == |lines| + 2 * CollapsedRuns(lines, t)
    ensures Collapsed(lines, t) >= CollapsedRuns(lines, t)
    ensures CollapsedRuns(lines, t) == 0 ==> Encode(lines, t) == lines
    decreases |lines|
  {
    if |lines| > 0 {
      if Collapses(lines, t) {
        EncodeLength(lines[RunLength(lines)..], t);
      } else {
        EncodeLength(lines[1..], t);
        assert [lines[0]] + lines[1..] == lines;
      }
    }
  }

  // ---- decoding -------------------------------------------------------------

  const LEFT := "[line repeated "

  /** The count both marker lines carry, if they are a pair of markers. */
  function MarkerCount(a: string, b: string): Option<nat> {
    if |a| < |LEFT| + 2 then None
    else match ParseDecimal(a[|LEFT|..|a| - 2])
      case None => None
      case Some(k) => if a == Repeated(k) && b == Dropped(k) then Some(k) else None
  }

  lemma MarkersDecode(k: nat)
    ensures MarkerCount(Repeated(k), Dropped(k)) == Some(k)
  {
    var a := Repeated(k);
    assert a[|LEFT|..|a| - 2] == Decimal(k);
    ParseOfDecimal(k);
  }

  lemma MarkersDiffer(j: nat, k: nat)
    ensures Repeated(j) != Dropped(k)
  {
    assert Repeated(j)[1] == 'l' && Dropped(k)[1] == 'r';
  }

  function Copies(l: string, n: nat): (r: seq<string>)
    ensures |r| == n && forall i :: 0 <= i < n ==> r[i] == l
  {
    seq(n, _ => l)
  }

  /** A line and a pair of markers that the encoder could have written for it. */
  predicate IsEncodedRun(out: seq<string>, t: nat) {
    && |out| >= 3 && !Blank(out[0])
    && MarkerCount(out[1], out[2]).Some? && MarkerCount(out[1], out[2]).value + 1 >= t
  }

  function Decode(out: seq<string>, t: nat): seq<string> {
    if |out| == 0 then []
    else if IsEncodedRun(out, t) then
      Copies(out[0], MarkerCount(out[1], out[2]).value + 1) + Decode(out[3..], t)
    else [out[0]] + Decode(out[1..], t)
  }

  /** The input already holds, after a line that is not collapsed, a pair of markers
      that reads as if the encoder had written it for that line. */
  predicate Forged(lines: seq<string>, t: nat) {
    |lines| > 0 &&
    if Collapses(lines, t) then Forged(lines[RunLength(lines)..], t)
    else IsEncodedRun(lines, t) || Forged(lines[1..], t)
  }

  lemma EncodeHead(m: seq<string>, t: nat)
    requires t >= 2 && |m| > 0
    ensures |Encode(m, t)| > 0 && Encode(m, t)[0] == m[0]
  {
  }

  /** Encoding neither makes nor hides a marker pair at the front. */
  lemma EncodeKeepsFrontMarkers(m: seq<string>, t: nat)
    requires t >= 2
    ensures |Encode(m, t)| >= 2 && MarkerCount(Encode(m, t)[0], Encode(m, t)[1]).Some?
        <==> |m| >= 2 && MarkerCount(m[0], m[1]).Some?
    ensures |m| >= 2 && MarkerCount(m[0], m[1]).Some? ==>
              !Collapses(m, t) && Encode(m, t)[0] == m[0] && Encode(m, t)[1] == m[1]
  {
    if |m| > 0 {
      var e := Encode(m, t);
      if Collapses(m, t) {
        var n := RunLength(m);
        NotAPair(e[0], n - 1);
        NotTwins(m[0]);
        assert m[1] == m[0];
      } else if |m| >= 2 {
        EncodeHead(m[1..], t);
      }
    }
  }

  lemma NotAPair(a: string, n: nat)
    ensures MarkerCount(a, Repeated(n)) == None
  {
    if MarkerCount(a, Repeated(n)).Some? {
      MarkersDiffer(n, MarkerCount(a, Repeated(n)).value);
    }
  }

  lemma NotTwins(a: string)
    ensures MarkerCount(a, a) == None
  {
    if MarkerCount(a, a).Some? {
      MarkersDiffer(MarkerCount(a, a).value, MarkerCount(a, a).value);
    }
  }

  lemma CopiesInFront(lines: seq<string>, n: nat)
    requires 0 < n <= |lines| && forall i :: 0 <= i < n ==> lines[i] == lines[0]
    ensures lines == Copies(lines[0], n) + lines[n..]
  {
    hide Copies;
    var front := lines[..n];
    assert front == Copies(lines[0], n);
    assert lines == front + lines[n..];
  }

  lemma RunIsCopies(lines: seq<string>)
    requires |lines| > 0
    ensures lines == Copies(lines[0], RunLength(lines)) + lines[RunLength(lines)..]
  {
    hide RunLength, Copies;
    CopiesInFront(lines, RunLength(lines));
  }

  lemma ForgedRunBreaksDecoding(lines: seq<string>, k: nat, rest: seq<string>, t: nat)
    requires t >= 2 && |lines| >= 3 && !Collapses(lines, t) && IsEncodedRun(lines, t)
    requires MarkerCount(lines[1], lines[2]) == Some(k)
    ensures Copies(lines[0], k + 1) + rest != lines
  {
    var d := Copies(lines[0], k + 1) + rest;
    MarkersDiffer(k, k);
    assert d[1] == lines[0];
    assert k >= 2 ==> d[2] == lines[0];
    assert lines[1] == lines[0] ==> RunLength(lines) >= 2;
  }

  /** Dedup is lossless exactly when the input holds no forged run: decoding the
      two marker lines then gives back every line. */
  lemma {:induction false} LosslessExactly(lines: seq<string>, t: nat)
    requires t >= 2
    ensures Decode(Encode(lines, t), t) == lines <==> !Forged(lines, t)
    decreases |lines|
  {
    if |lines| > 0 {
      var out := Encode(lines, t);
      if Collapses(lines, t) {
        var n := RunLength(lines);
        var tail := lines[n..];
        LosslessExactly(tail, t);
        MarkersDecode(n - 1);
        assert out[3..] == Encode(tail, t);
        RunIsCopies(lines);
        assert Decode(out, t) == Copies(lines[0], n) + Decode(Encode(tail, t), t);
        SameFront(Copies(lines[0], n), Decode(Encode(tail, t), t), tail);
      } else {
        var tail := lines[1..];
        var e := Encode(tail, t);
        LosslessExactly(tail, t);
        EncodeKeepsFrontMarkers(tail, t);
        assert out[1..] == e;
        if IsEncodedRun(lines, t) {
          var k := MarkerCount(lines[1], lines[2]).value;
          assert out[1] == e[0] == lines[1] && out[2] == e[1] == lines[2];
          ForgedRunBreaksDecoding(lines, k, Decode(out[3..], t), t);
        } else {
          assert !IsEncodedRun(out, t);
          SameFront([lines[0]], Decode(e, t), tail);
          assert lines == [lines[0]] + tail;
        }
      }
    }
  }

  lemma SameFront(a: seq<string>, b: seq<string>, c: seq<string>)
    ensures a + b == a + c <==> b == c
  {
    assert (a + b)[|a|..] == b && (a + c)[|a|..] == c;
  }

  ghost predicate MarkerShaped(l: string) {
    (exists k: nat :: l == Repeated(k)) || (exists k: nat :: l == Dropped(k))
  }

  ghost predicate MarkerFree(lines: seq<string>) {
    forall l <- lines :: !MarkerShaped(l)
  }

  lemma NotEncodedRun(lines: seq<string>, t: nat)
    requires MarkerFree(lines)
    ensures !IsEncodedRun(lines, t)
  {
    if |lines| >= 3 {
      assert lines[1] in lines;
    }
  }

  /** In particular nothing is lost from text with no marker-shaped line. */
  lemma {:induction false} MarkerFreeIsNotForged(lines: seq<string>, t: nat)
    requires t >= 2 && MarkerFree(lines)
    ensures !Forged(lines, t)
    decreases |lines|
  {
    if |lines| > 0 {
      if Collapses(lines, t) {
        MarkerFreeIsNotForged(lines[RunLength(lines)..], t);
      } else {
        MarkerFreeIsNotForged(lines[1..], t);
        NotEncodedRun(lines, t);
      }
    }
  }

  // ---- a second pass --------------------------------------------------------

  lemma {:induction false} ShortRunKept(lines: seq<string>, t: nat)
    requires t >= 2 && |lines| > 0 && RunLength(lines) < t
    ensures |Encode(lines, t)| > 0 && RunLength(Encode(lines, t)) == RunLength(lines)
    decreases |lines|
  {
    var e := Encode(lines, t);
    assert e[1..] == Encode(lines[1..], t);
    if |lines| > 1 {
      EncodeHead(lines[1..], t);
      if lines[1] == lines[0] {
        ShortRunKept(lines[1..], t);
      }
    }
  }

  lemma SingleLineFirst(l: string, rest: seq<string>, t: nat)
    requires t >= 2 && (|rest| > 0 ==> rest[0] != l)
    ensures Encode([l] + rest, t) == [l] + Encode(rest, t)
  {
    assert ([l] + rest)[1..] == rest;
  }

  lemma PieceKept(l: string, r: string, d: string, e: seq<string>, t: nat)
    requires t >= 2 && l != r && r != d && (|e| > 0 ==> e[0] != d)
    ensures Encode([l, r, d] + e, t) == [l, r, d] + Encode(e, t)
  {
    hide Encode;
    SingleLineFirst(d, e, t);
    SingleLineFirst(r, [d] + e, t);
    SingleLineFirst(l, [r] + ([d] + e), t);
    assert [l, r, d] + e == [l] + ([r] + ([d] + e));
    var f := Encode(e, t);
    assert [l, r, d] + f == [l] + ([r] + ([d] + f));
  }

  lemma UncollapsedKept(lines: seq<string>, t: nat)
    requires t >= 2 && |lines| > 0 && !Collapses(lines, t)
    ensures var e := Encode(lines[1..], t);
            Encode(lines, t) == [lines[0]] + e && Encode([lines[0]] + e, t) == [lines[0]] + Encode(e, t)
  {
    var e := Encode(lines[1..], t);
    var out := [lines[0]] + e;
    assert out[1..] == e;
    if !Blank(lines[0]) {
      ShortRunKept(lines, t);
    }
  }

  /** A second pass changes nothing on marker-free input. */
  lemma {:induction false} SecondPassIsIdentity(lines: seq<string>, t: nat)
    requires t >= 2 && MarkerFree(lines)
    ensures Encode(Encode(lines, t), t) == Encode(lines, t)
    decreases |lines|
  {
    if |lines| > 0 {
      if Collapses(lines, t) {
        var n := RunLength(lines);
        SecondPassIsIdentity(lines[n..], t);
        MarkersDiffer(n - 1, n - 1);
        assert lines[0] in lines && MarkerShaped(Repeated(n - 1)) && MarkerShaped(Dropped(n - 1));
        if n < |lines| {
          EncodeHead(lines[n..], t);
          assert lines[n] in lines;
        }
        PieceKept(lines[0], Repeated(n - 1), Dropped(n - 1), Encode(lines[n..], t), t);
      } else {
        SecondPassIsIdentity(lines[1..], t);
        UncollapsedKept(lines, t);
      }
    }
  }

  lemma {:induction false} RunOf(l: string, n: nat, rest: seq<string>)
    requires n >= 1 && (|rest| > 0 ==> rest[0] != l)
    ensures RunLength(Copies(l, n) + rest) == n
  {
    var s := Copies(l, n) + rest;
    assert forall i :: 0 <= i < n ==> s[i] == l;
    assert |rest| > 0 ==> s[n] == rest[0];
  }

  lemma SingleStep(s: seq<string>, t: nat)
    requires |s| > 0 && !Collapses(s, t)
    ensures Encode(s, t) == [s[0]] + Encode(s[1..], t) && Collapsed(s, t) == Collapsed(s[1..], t)
  {
  }

  lemma CopiesStep(l: string, n: nat, rest: seq<string>)
    requires n > 0
    ensures var s := Copies(l, n) + rest; s[0] == l && s[1..] == Copies(l, n - 1) + rest
    ensures [l] + (Copies(l, n - 1) + rest) == Copies(l, n) + rest
  {
  }

  lemma {:induction false} SingleLinesFirst(l: string, n: nat, rest: seq<string>, t: nat)
    requires t >= 2 && (|rest| > 0 ==> rest[0] != l) && (Blank(l) || n < t)
    ensures Encode(Copies(l, n) + rest, t) == Copies(l, n) + Encode(rest, t)
    ensures Collapsed(Copies(l, n) + rest, t) == Collapsed(rest, t)
    decreases n
  {
    hide Encode, Collapsed, Copies, RunLength, Blank;
    if n == 0 {
      NoCopies(l, rest);
      NoCopies(l, Encode(rest, t));
    } else {
      RunOf(l, n, rest);
      CopiesStep(l, n, rest);
      CopiesStep(l, n, Encode(rest, t));
      SingleStep(Copies(l, n) + rest, t);
      SingleLinesFirst(l, n - 1, rest, t);
    }
  }

  lemma NoCopies(l: string, rest: seq<string>)
    ensures Copies(l, 0) + rest == rest
  {
  }

  lemma BlankExactly(l: string)
    ensures !Blank(l) <==> exists c :: c in l && !IsWhitespace(c)
  {
  }

  /** What becomes of each maximal run of equal lines: one line and two literal markers
      if it is not blank and at least `t` long, else the run itself. */
  lemma RunEncodedExactly(l: string, n: nat, rest: seq<string>, t: nat)
    requires t >= 2 && n >= 1 && (|rest| > 0 ==> rest[0] != l)
    ensures Encode([], t) == [] && Collapsed([], t) == 0
    ensures var long := (exists c :: c in l && !IsWhitespace(c)) && n >= t;
            && Encode(Copies(l, n) + rest, t) ==
                 (if long
                  then [l, "[line repeated " + Decimal(n - 1) + "x]", "[rtk:dropped " + Decimal(n - 1) + " repeated lines]"]
                  else Copies(l, n)) + Encode(rest, t)
            && Collapsed(Copies(l, n) + rest, t) == (if long then n - 1 else 0) + Collapsed(rest, t)
  {
    BlankExactly(l);
    hide Blank;
    var s := Copies(l, n) + rest;
    if !Blank(l) && n >= t {
      RunOf(l, n, rest);
      assert s[0] == l && s[n..] == rest;
    } else {
      SingleLinesFirst(l, n, rest, t);
    }
  }

  // ---- the loop -------------------------------------------------------------

  function Threshold(threshold: nat): nat {
    if threshold > 2 then threshold else 2
  }

  /** Progress of the loop: `output` and `collapsed` are done, `rest` is to come. */
  ghost predicate Sofar(lines: seq<string>, t: nat, output: seq<string>, collapsed: nat, rest: seq<string>) {
    Encode(lines, t) == output + Encode(rest, t) && Collapsed(lines, t) == collapsed + Collapsed(rest, t)
  }

  lemma SofarStep(lines: seq<string>, t: nat, output: seq<string>, collapsed: nat, rest: seq<string>)
    requires |rest| > 0 && Sofar(lines, t, output, collapsed, rest)
    ensures Sofar(lines, t, output + Written(rest, t), collapsed + Taken(rest, t) - 1, rest[Taken(rest, t)..])
  {
    hide Written, Taken;
    Associative(output, Written(rest, t), Encode(rest[Taken(rest, t)..], t));
  }

  lemma SofarEnds(lines: seq<string>, t: nat, output: seq<string>, collapsed: nat)
    ensures Sofar(lines, t, [], 0, lines)
    ensures Sofar(lines, t, output, collapsed, []) ==> Encode(lines, t) == output && Collapsed(lines, t) == collapsed
  {
    assert [] + Encode(lines, t) == Encode(lines, t) && output + [] == output;
  }

  /** `deduplicate_repeated_lines`. */
  method DeduplicateRepeatedLines(text: string, threshold: nat) returns (result: string, collapsed: nat)
    ensures var t := if threshold <= 2 then 2 else threshold;
            result == Join(Encode(SplitLines(text), t)) && collapsed == Collapsed(SplitLines(text), t)
  {
    hide Sofar, Repeated, Dropped, Blank, Encode, Collapsed, SplitLines, RunLength;
    var t := Threshold(threshold);
    var lines := SplitLines(text);
    var output: seq<string> := [];
    collapsed := 0;
    var index := 0;
    SofarEnds(lines, t, [], 0);
    assert lines[0..] == lines;
    while index < |lines|
      invariant 0 <= index <= |lines|
      invariant Sofar(lines, t, output, collapsed, lines[index..])
    {
      var line := lines[index];
      var runLength := 1;
      while index + runLength < |lines| && lines[index + runLength] == line
        invariant 1 <= runLength <= |lines| - index
        invariant forall k :: index <= k < index + runLength ==> lines[k] == line
      {
        runLength := runLength + 1;
      }
      ghost var rest := lines[index..];
      RunAt(lines, index, runLength);
      SofarStep(lines, t, output, collapsed, rest);
      assert rest[Taken(rest, t)..] == lines[index + Taken(rest, t)..];
      if !Blank(line) && runLength >= t {
        output := output + [line, Repeated(runLength - 1), Dropped(runLength - 1)];
        collapsed := collapsed + runLength - 1;
        index := index + runLength;
      } else {
        output := output + [line];
        index := index + 1;
      }
    }
    assert lines[index..] == [];
    SofarEnds(lines, t, output, collapsed);
    result := Join(output);
  }

  lemma RunAt(lines: seq<string>, index: nat, n: nat)
    requires 1 <= n && index + n <= |lines|
    requires forall k :: index <= k < index + n ==> lines[k] == lines[index]
    requires index + n < |lines| ==> lines[index + n] != lines[index]
    ensures RunLength(lines[index..]) == n
  {
    assert lines[index..] == Copies(lines[index], n) + lines[index + n..];
    RunOf(lines[index], n, lines[index + n..]);
  }

  lemma MarkersHaveNoLf(k: nat)
    ensures '\n' !in Repeated(k) && '\n' !in Dropped(k)
  {
    var d := Decimal(k);
    assert '\n' !in d;
  }

  lemma WrittenHasNoLf(lines: seq<string>, t: nat)
    requires |lines| > 0 && NoLf(lines)
    ensures NoLf(Written(lines, t))
  {
    hide Repeated, Dropped;
    assert lines[0] in lines;
    MarkersHaveNoLf(RunLength(lines) - 1);
  }

  lemma {:induction false} EncodeHasNoLf(lines: seq<string>, t: nat)
    requires NoLf(lines)
    ensures NoLf(Encode(lines, t))
    ensures |lines| > 0 ==> |Encode(lines, t)| > 0
    decreases |lines|
  {
    hide Taken;
    if |lines| > 0 {
      WrittenHasNoLf(lines, t);
      EncodeHasNoLf(lines[Taken(lines, t)..], t);
    }
  }

  /** The same on text: cutting the encoded text at line feeds and decoding gives
      the lines of the input, exactly when there is no forged run. */
  lemma TextLosslessExactly(text: string, t: nat)
    requires t >= 2
    ensures Decode(SplitLf(Join(Encode(SplitLines(text), t))), t) == SplitLines(text)
        <==> !Forged(SplitLines(text), t)
  {
    hide Encode, Decode, Forged, SplitLines, SplitLf, Join;
    EncodedIsSplitBack(text, t);
    LosslessExactly(SplitLines(text), t);
  }

  lemma EncodedIsSplitBack(text: string, t: nat)
    requires t >= 2
    ensures SplitLf(Join(Encode(SplitLines(text), t))) == Encode(SplitLines(text), t)
  {
    hide SplitLines, Encode;
    SplitLinesHasNoLf(text);
    EncodeHasNoLf(SplitLines(text), t);
    SplitOfJoin(Encode(SplitLines(text), t));
  }

  // ---- carriage returns -----------------------------------------------------

  lemma {:induction false} EncodeLines(lines: seq<string>, t: nat)
    ensures forall l <- Encode(lines, t) :: l in lines || MarkerShaped(l)
    decreases |lines|
  {
    hide MarkerShaped, Repeated, Dropped, Taken;
    if |lines| > 0 {
      EncodeLines(lines[Taken(lines, t)..], t);
      var k := RunLength(lines) - 1;
      MarkersAreShaped(k);
      assert lines[0] in lines;
      assert forall l <- lines[Taken(lines, t)..] :: l in lines;
    }
  }

  lemma MarkersAreShaped(k: nat)
    ensures MarkerShaped(Repeated(k)) && MarkerShaped(Dropped(k))
  {
  }

  lemma {:induction false} DecodeLines(out: seq<string>, t: nat)
    ensures forall l <- Decode(out, t) :: l in out
    ensures |out| > 0 ==> |Decode(out, t)| > 0
    decreases |out|
  {
    if |out| > 0 {
      assert out[0] in out;
      if IsEncodedRun(out, t) {
        DecodeLines(out[3..], t);
        var c := Copies(out[0], MarkerCount(out[1], out[2]).value + 1);
        assert forall l <- c :: l == out[0];
        assert forall l <- out[3..] :: l in out;
      } else {
        DecodeLines(out[1..], t);
        assert forall l <- out[1..] :: l in out;
      }
    }
  }

  lemma MarkersHaveNoCr(l: string)
    requires MarkerShaped(l)
    ensures !EndsInCr(l)
  {
  }

  function MaxLen(lines: seq<string>): (m: nat)
    ensures forall l <- lines :: |l| <= m
  {
    if |lines| == 0 then 0
    else
      var m := MaxLen(lines[1..]);
      assert forall l <- lines :: l == lines[0] || l in lines[1..];
      if |lines[0]| > m then |lines[0]| else m
  }

  /** A piece that ends in CR and is some piece without its CR: there would be a longer
      such piece, and so on for ever. */
  lemma {:induction false} CrPiecesNeverEnd(pieces: seq<string>, p: string)
    requires p in pieces && EndsInCr(p)
    requires forall l <- pieces :: EndsInCr(l) ==> exists q :: q in pieces && StripCr(q) == l
    ensures false
    decreases MaxLen(pieces) - |p|
  {
    var q :| q in pieces && StripCr(q) == p;
    CrPiecesNeverEnd(pieces, q);
  }

  /** What is decoded never has more carriage returns than the pieces had: it is the
      pieces themselves only if none of them ends in one. */
  lemma DecodedHasNoCr(text: string, t: nat)
    requires t >= 2 && Decode(Encode(SplitLines(text), t), t) == SplitLf(text)
    ensures CrFree(SplitLf(text))
  {
    hide SplitLf, Encode, Decode, MarkerShaped;
    var pieces, lines := SplitLf(text), SplitLines(text);
    EncodeLines(lines, t);
    DecodeLines(Encode(lines, t), t);
    forall l | l in pieces && EndsInCr(l)
      ensures exists q :: q in pieces && StripCr(q) == l
    {
      if MarkerShaped(l) {
        MarkersHaveNoCr(l);
      }
      assert l in lines;
      var i :| 0 <= i < |lines| && lines[i] == l;
      assert pieces[i] in pieces;
    }
    forall l | l in pieces
      ensures !EndsInCr(l)
    {
      if EndsInCr(l) {
        CrPiecesNeverEnd(pieces, l);
      }
    }
  }

  /** The text a reader can rebuild from an encoded text: cut it into lines, expand the
      markers, join. */
  function Rebuilt(encoded: string, t: nat): string {
    Join(Decode(SplitLf(encoded), t))
  }

  lemma RebuiltIsTextExactly(text: string, t: nat)
    requires t >= 2
    ensures Rebuilt(Join(Encode(SplitLines(text), t)), t) == text
        <==> Decode(Encode(SplitLines(text), t), t) == SplitLf(text)
  {
    hide SplitLf, Encode, Decode, SplitLines, Join;
    EncodedIsSplitBack(text, t);
    JoinOfSplit(text);
    var d := Decode(Encode(SplitLines(text), t), t);
    SplitLinesHasNoLf(text);
    EncodeHasNoLf(SplitLines(text), t);
    DecodeLines(Encode(SplitLines(text), t), t);
    if Join(d) == text {
      SplitOfJoin(d);
    }
  }

  /** Dedup is lossless on text exactly when the input holds no forged run and no line
      of it ends in CR LF or, at the end of the text, in CR. */
  lemma TextRebuiltExactly(text: string, t: nat)
    requires t >= 2
    ensures Rebuilt(Join(Encode(SplitLines(text), t)), t) == text
        <==> !Forged(SplitLines(text), t) && CrFree(SplitLf(text))
  {
    hide SplitLf, Encode, Decode, Forged, SplitLines, Join, CrFree;
    RebuiltIsTextExactly(text, t);
    LosslessExactly(SplitLines(text), t);
    if CrFree(SplitLf(text)) {
      StripNothing(text);
    } else if Decode(Encode(SplitLines(text), t), t) == SplitLf(text) {
      DecodedHasNoCr(text, t);
    }
  }

  // ---- texts that are not rebuilt -------------------------------------------

  /** Three lines that read as if they had been written for three equal ones. */
  lemma ForgedInput()
    ensures var lines := ["a", Repeated(2), Dropped(2)];
            Forged(lines, 3) && Encode(lines, 3) == lines && Decode(lines, 3) == ["a", "a", "a"]
  {
    var lines := ["a", Repeated(2), Dropped(2)];
    MarkersDecode(2);
    MarkersDiffer(2, 2);
    assert lines[1..] == [Repeated(2), Dropped(2)] && lines[3..] == [];
    assert "a" != Repeated(2);
    assert "a"[0] in "a" && !IsWhitespace('a');
    assert IsEncodedRun(lines, 3);
    ThreeDistinct("a", Repeated(2), Dropped(2));
    assert Decode(lines, 3) == Copies("a", 3) + Decode([], 3);
  }

  lemma ThreeDistinct(a: string, b: string, c: string)
    requires a != b && b != c
    ensures Encode([a, b, c], 3) == [a, b, c]
  {
    assert Encode([], 3) == [];
    SingleLineFirst(c, [], 3);
    SingleLineFirst(b, [c], 3);
    SingleLineFirst(a, [b, c], 3);
    assert [c] + [] == [c] && [b] + [c] == [b, c] && [a] + [b, c] == [a, b, c];
  }

  lemma PiecesOfThree(a: string, b: string, c: string)
    requires '\n' !in a && '\n' !in b && '\n' !in c
    ensures SplitLines(a + "\n" + (b + "\n" + c)) == [StripCr(a), StripCr(b), StripCr(c)]
    ensures a in SplitLf(a + "\n" + (b + "\n" + c))
  {
    hide StripCr;
    SplitFirst(a, b + "\n" + c);
    SplitFirst(b, c);
    SplitOne(c);
    assert SplitLf(a + "\n" + (b + "\n" + c)) == [a, b, c];
  }

  lemma ThreeCopies()
    ensures !Forged(["a", "a", "a"], 3) && Collapsed(["a", "a", "a"], 3) == 2
  {
    var lines := ["a", "a", "a"];
    assert Copies("a", 3) + [] == lines;
    RunOf("a", 3, []);
    assert "a"[0] in "a" && !IsWhitespace('a');
    assert lines[3..] == [];
  }

  /** Three equal lines encode to one text whether CR LF or LF ends them: the first
      text is not rebuilt. */
  lemma CarriageReturnsAreLost()
    ensures SplitLines("a\r\na\r\na") == SplitLines("a\na\na") == ["a", "a", "a"]
    ensures !Forged(["a", "a", "a"], 3) && Collapsed(["a", "a", "a"], 3) == 2
    ensures !CrFree(SplitLf("a\r\na\r\na"))
  {
    hide SplitLines, SplitLf, Forged, Collapsed;
    PiecesOfThree("a\r", "a\r", "a");
    PiecesOfThree("a", "a", "a");
    ThreeCopies();
    assert "a\r" + "\n" + ("a\r" + "\n" + "a") == "a\r\na\r\na";
    assert "a" + "\n" + ("a" + "\n" + "a") == "a\na\na";
    assert EndsInCr("a\r") && StripCr("a\r") == "a" == StripCr("a");
  }
}
