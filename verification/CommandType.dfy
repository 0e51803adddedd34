/** Which command a text is the output of (rtk/src/detector.rs, `detect_command_type`).
    The detector table and its regexes are parameters. */
module CommandType {
  import opened Text
  import opened Lines
  import opened Detector

  type Pattern = string -> bool

  datatype Row = Row(kind: string, commandPatterns: seq<Pattern>, contentPatterns: seq<Pattern>)

  datatype Detection = Detection(kind: string, command: Option<string>)

  /** How many patterns match. */
  function Hits(ps: seq<Pattern>, text: string): (n: nat)
    ensures n <= |ps|
  {
    if |ps| == 0 then 0
    else Hits(ps[..|ps| - 1], text) + if ps[|ps| - 1](text) then 1 else 0
  }

  predicate CommandMatches(r: Row, command: Option<string>) {
    command.Some? && Hits(r.commandPatterns, command.value) > 0
  }

  predicate Matches(r: Row, text: string, command: Option<string>) {
    CommandMatches(r, command) || Hits(r.contentPatterns, text) > 0
  }

  /** The confidence in hundredths: 55 for the command and 25 for each matching content
      pattern, at most 100. */
  function Confidence(r: Row, text: string, command: Option<string>): nat {
    var c := (if CommandMatches(r, command) then 55 else 0) + 25 * Hits(r.contentPatterns, text);
    if c > 100 then 100 else c
  }

  /** Row `i` is the one to report: it matches, no row is more confident, and none
      before it is as confident. */
  ghost predicate IsBest(rows: seq<Row>, text: string, command: Option<string>, i: nat) {
    && i < |rows| && Matches(rows[i], text, command)
    && (forall j :: 0 <= j < |rows| && Matches(rows[j], text, command) ==>
          Confidence(rows[j], text, command) <= Confidence(rows[i], text, command))
    && (forall j :: 0 <= j < i && Matches(rows[j], text, command) ==>
          Confidence(rows[j], text, command) < Confidence(rows[i], text, command))
  }

  lemma {:induction false} HitsCount(ps: seq<Pattern>, text: string)
    ensures Hits(ps, text) == |set i | 0 <= i < |ps| && ps[i](text)|
  {
    if |ps| > 0 {
      var n := |ps| - 1;
      HitsCount(ps[..n], text);
      var few, all := set i | 0 <= i < n && ps[..n][i](text), set i | 0 <= i < |ps| && ps[i](text);
      assert n !in few;
      if ps[n](text) {
        assert all == few + {n};
      } else {
        assert all == few;
      }
    }
  }

  /** A row matches if a pattern of it does; its confidence is 0.55 for the command and
      0.25 for each content pattern that matches, at most 1. */
  lemma ConfidenceExactly(r: Row, text: string, command: Option<string>)
    ensures var byCommand := command.Some? && exists i :: 0 <= i < |r.commandPatterns| && r.commandPatterns[i](command.value);
            var hits := |set i | 0 <= i < |r.contentPatterns| && r.contentPatterns[i](text)|;
            && (Matches(r, text, command) <==> byCommand || hits > 0)
            && Confidence(r, text, command) ==
                 if byCommand then (if hits == 0 then 55 else if hits == 1 then 80 else 100)
                 else if hits >= 4 then 100 else 25 * hits
  {
    HitsCount(r.contentPatterns, text);
    if command.Some? {
      HitsCount(r.commandPatterns, command.value);
      var hits := set i | 0 <= i < |r.commandPatterns| && r.commandPatterns[i](command.value);
      if i :| 0 <= i < |r.commandPatterns| && r.commandPatterns[i](command.value) {
        assert i in hits;
      } else {
        assert hits == {};
      }
    }
  }

  /** Which row the table settles on, if any. */
  function BestRow(rows: seq<Row>, text: string, command: Option<string>): (best: Option<nat>)
    ensures best.Some? ==> best.value < |rows|
  {
    if |rows| == 0 then None
    else
      var n := |rows| - 1;
      var best := BestRow(rows[..n], text, command);
      if !Matches(rows[n], text, command) then best
      else if best.Some? && Confidence(rows[n], text, command) <= Confidence(rows[best.value], text, command)
      then best
      else Some(n)
  }

  lemma {:induction false} BestRowIs(rows: seq<Row>, text: string, command: Option<string>)
    ensures BestRow(rows, text, command) == None <==> forall j :: 0 <= j < |rows| ==> !Matches(rows[j], text, command)
    ensures BestRow(rows, text, command).Some? ==> IsBest(rows, text, command, BestRow(rows, text, command).value)
  {
    hide Matches, Confidence;
    if |rows| > 0 {
      var n := |rows| - 1;
      BestRowIs(rows[..n], text, command);
      assert forall j :: 0 <= j < n ==> rows[..n][j] == rows[j];
    }
  }

  /** The detection for a command and a text. */
  function Detected(rows: seq<Row>, text: string, command: Option<string>): Detection {
    match BestRow(rows, text, command)
    case Some(i) => Detection(rows[i].kind, command)
    case None => Detection("unknown", command)
  }

  /** The first row of highest confidence decides; the type is unknown for want of a row
      exactly when no row matches the command or the text. */
  lemma DetectedExactly(rows: seq<Row>, text: string, command: Option<string>)
    ensures var d := Detected(rows, text, command);
            && d.command == command
            && (forall i: nat :: IsBest(rows, text, command, i) ==> d.kind == rows[i].kind)
            && ((exists i: nat :: IsBest(rows, text, command, i)) <==>
                  exists j :: 0 <= j < |rows| && Matches(rows[j], text, command))
            && ((forall j :: 0 <= j < |rows| ==> !Matches(rows[j], text, command)) ==> d.kind == "unknown")
  {
    hide Matches, IsBest;
    BestRowIs(rows, text, command);
    forall i: nat | IsBest(rows, text, command, i)
      ensures BestRow(rows, text, command) == Some(i)
    {
      BestIsUnique(rows, text, command, i);
    }
  }

  lemma BestIsUnique(rows: seq<Row>, text: string, command: Option<string>, i: nat)
    requires IsBest(rows, text, command, i)
    ensures BestRow(rows, text, command) == Some(i)
    ensures i < |rows| && Matches(rows[i], text, command)
  {
    hide Matches, Confidence, BestRow;
    BestRowIs(rows, text, command);
    var k := BestRow(rows, text, command).value;
    assert k < |rows| && Matches(rows[k], text, command);
  }

  /** The loop over the table. */
  method DetectCommandType(
    rows: seq<Row>, text: string, command: Option<string>, prompt: string -> string, isCommand: string -> bool)
    returns (d: Detection)
    ensures d == Detected(rows, text, DetectedCommand(command, text, prompt, isCommand))
  {
    hide CommandFromText, LastSegment, Trim, Matches, Hits, Confidence;
    var base := "";
    if command.Some? && Trim(command.value) != "" {
      base := Trim(command.value);
    } else {
      base := CommandFromText(SplitLf(text), 20, prompt, isCommand).GetOr("");
    }
    var segment := LastCommandSegment(base);
    var detected := if segment == "" then None else Some(segment);
    var best: Option<nat> := None;
    for n := 0 to |rows|
      invariant best == BestRow(rows[..n], text, detected)
    {
      assert rows[..n + 1][..n] == rows[..n];
      if Matches(rows[n], text, detected) {
        if best == None || Confidence(rows[n], text, detected) > Confidence(rows[best.value], text, detected) {
          best := Some(n);
        }
      }
    }
    assert rows[..|rows|] == rows;
    d := if best.Some? then Detection(rows[best.value].kind, detected) else Detection("unknown", detected);
  }
}
