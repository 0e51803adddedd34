/** Splitting text into lines and joining it again (rtk/src/line_filter.rs), and
    Rust's notion of white space. */
module Lines {

  /** `char::is_whitespace`. */
  predicate IsWhitespace(c: char) {
    var n := c as int;
    (9 <= n <= 13) || n == 0x20 || n == 0x85 || n == 0xA0 || n == 0x1680 || (0x2000 <= n <= 0x200A)
    || n == 0x2028 || n == 0x2029 || n == 0x202F || n == 0x205F || n == 0x3000
  }

  predicate Blank(s: string) {
    forall c <- s :: IsWhitespace(c)
  }

  function TrimStart(s: string): string {
    if |s| > 0 && IsWhitespace(s[0]) then TrimStart(s[1..]) else s
  }

  function TrimEnd(s: string): string {
    if |s| > 0 && IsWhitespace(s[|s| - 1]) then TrimEnd(s[..|s| - 1]) else s
  }

  function Trim(s: string): string {
    TrimEnd(TrimStart(s))
  }

  /** `text.split('\n')`: always at least one piece. */
  function SplitLf(s: string): (r: seq<string>)
    ensures |r| >= 1
  {
    if |s| == 0 then [""]
    else
      var r := SplitLf(s[1..]);
      if s[0] == '\n' then [""] + r else [[s[0]] + r[0]] + r[1..]
  }

  predicate EndsInCr(l: string) {
    |l| > 0 && l[|l| - 1] == '\r'
  }

  function StripCr(l: string): string {
    if EndsInCr(l) then l[..|l| - 1] else l
  }

  /** `split_lines`: pieces without one trailing carriage return. */
  function SplitLines(text: string): (r: seq<string>)
    ensures |r| >= 1
  {
    var p := SplitLf(text);
    seq(|p|, i requires 0 <= i < |p| => StripCr(p[i]))
  }

  /** `str::lines`: a last piece without a newline counts unless it is empty, and
      keeps its carriage return. */
  function ContentLines(content: string): seq<string> {
    EndedLines(SplitLf(content))
  }

  function EndedLines(p: seq<string>): seq<string>
    requires |p| > 0
  {
    var m := |p| - 1;
    seq(m, i requires 0 <= i < m => StripCr(p[i])) + (if p[m] == "" then [] else [p[m]])
  }

  /** `lines.join("\n")`. */
  function Join(lines: seq<string>): string {
    if |lines| == 0 then ""
    else if |lines| == 1 then lines[0]
    else lines[0] + "\n" + Join(lines[1..])
  }

  ghost predicate NoLf(lines: seq<string>) {
    forall l <- lines :: '\n' !in l
  }

  lemma {:induction false} SplitHasNoLf(s: string)
    ensures NoLf(SplitLf(s))
  {
    if |s| > 0 {
      SplitHasNoLf(s[1..]);
    }
  }

  lemma SplitLinesHasNoLf(s: string)
    ensures NoLf(SplitLines(s))
  {
    SplitHasNoLf(s);
    var p := SplitLf(s);
    forall l | l in SplitLines(s)
      ensures '\n' !in l
    {
      var i :| 0 <= i < |p| && l == StripCr(p[i]);
      assert p[i] in p;
    }
  }

  lemma {:induction false} SplitOne(l: string)
    requires '\n' !in l
    ensures SplitLf(l) == [l]
  {
    if |l| > 0 {
      SplitOne(l[1..]);
      assert [l[0]] + l[1..] == l;
    }
  }

  lemma {:induction false} SplitFirst(l: string, rest: string)
    requires '\n' !in l
    ensures SplitLf(l + "\n" + rest) == [l] + SplitLf(rest)
  {
    if |l| == 0 {
      assert ("" + "\n" + rest)[1..] == rest;
    } else {
      SplitFirst(l[1..], rest);
      assert (l + "\n" + rest)[1..] == l[1..] + "\n" + rest;
      var r := SplitLf(l[1..] + "\n" + rest);
      assert [l[0]] + l[1..] == l && r[1..] == SplitLf(rest);
    }
  }

  /** Joining lines and splitting again gives the lines back. */
  lemma {:induction false} SplitOfJoin(lines: seq<string>)
    requires |lines| > 0 && NoLf(lines)
    ensures SplitLf(Join(lines)) == lines
  {
    assert lines[0] in lines;
    if |lines| == 1 {
      SplitOne(lines[0]);
    } else {
      SplitOfJoin(lines[1..]);
      SplitFirst(lines[0], Join(lines[1..]));
      assert [lines[0]] + lines[1..] == lines;
    }
  }

  function PutFirst(c: char, pieces: seq<string>): seq<string>
    requires |pieces| > 0
  {
    [[c] + pieces[0]] + pieces[1..]
  }

  lemma PutFirstAppend(c: char, a: seq<string>, b: seq<string>)
    requires |a| > 0
    ensures PutFirst(c, a + b) == PutFirst(c, a) + b
  {
    assert (a + b)[1..] == a[1..] + b;
  }

  lemma SplitHead(c: char, s: string)
    ensures SplitLf([c] + s) == if c == '\n' then [""] + SplitLf(s) else PutFirst(c, SplitLf(s))
  {
    assert ([c] + s)[1..] == s;
  }

  lemma Regroup(a: string, b: string, c: string, d: string)
    ensures a + b + c + d == a + (b + c + d)
  {
  }

  lemma JoinPutFirst(c: char, pieces: seq<string>)
    requires |pieces| > 0
    ensures Join(PutFirst(c, pieces)) == [c] + Join(pieces)
  {
    assert PutFirst(c, pieces)[1..] == pieces[1..];
    if |pieces| > 1 {
      Regroup([c], pieces[0], "\n", Join(pieces[1..]));
    }
  }

  lemma JoinBlank(pieces: seq<string>)
    requires |pieces| > 0
    ensures Join([""] + pieces) == "\n" + Join(pieces)
  {
    assert ([""] + pieces)[1..] == pieces && "" + "\n" == "\n";
  }

  /** Splitting text and joining it again gives the text back. */
  lemma {:induction false} JoinOfSplit(s: string)
    ensures Join(SplitLf(s)) == s
  {
    hide Join, PutFirst, SplitLf;
    if |s| > 0 {
      JoinOfSplit(s[1..]);
      SplitHead(s[0], s[1..]);
      JoinPutFirst(s[0], SplitLf(s[1..]));
      JoinBlank(SplitLf(s[1..]));
      assert s == [s[0]] + s[1..];
    } else {
      SplitOne("");
      JoinOne("");
    }
  }

  lemma JoinOne(l: string)
    ensures Join([l]) == l
  {
  }

  ghost predicate CrFree(pieces: seq<string>) {
    forall l <- pieces :: !EndsInCr(l)
  }

  lemma StripNothing(text: string)
    requires CrFree(SplitLf(text))
    ensures SplitLines(text) == SplitLf(text)
  {
    var p := SplitLf(text);
    forall i | 0 <= i < |p|
      ensures StripCr(p[i]) == p[i]
    {
      assert p[i] in p;
    }
  }

  // ---- what these mean ------------------------------------------------------

  /** The 25 code points with the White_Space property. */
  lemma WhitespaceExactly(c: char)
    ensures IsWhitespace(c) <==>
              c as int in {0x9, 0xA, 0xB, 0xC, 0xD, 0x20, 0x85, 0xA0, 0x1680, 0x2000, 0x2001, 0x2002, 0x2003, 0x2004,
                           0x2005, 0x2006, 0x2007, 0x2008, 0x2009, 0x200A, 0x2028, 0x2029, 0x202F, 0x205F, 0x3000}
  {
  }

  lemma {:induction false} TrimStartExactly(s: string) returns (a: string)
    ensures s == a + TrimStart(s) && Blank(a)
    ensures TrimStart(s) != "" ==> !IsWhitespace(TrimStart(s)[0])
  {
    if |s| > 0 && IsWhitespace(s[0]) {
      var b := TrimStartExactly(s[1..]);
      a := [s[0]] + b;
      assert s == [s[0]] + s[1..];
    } else {
      a := "";
    }
  }

  lemma {:induction false} TrimEndExactly(s: string) returns (b: string)
    ensures s == TrimEnd(s) + b && Blank(b)
    ensures TrimEnd(s) != "" ==> !IsWhitespace(TrimEnd(s)[|TrimEnd(s)| - 1])
  {
    if |s| > 0 && IsWhitespace(s[|s| - 1]) {
      var a := TrimEndExactly(s[..|s| - 1]);
      b := a + [s[|s| - 1]];
      assert s == s[..|s| - 1] + [s[|s| - 1]];
    } else {
      b := "";
    }
  }

  /** Trimming takes white space off both ends, all of it and nothing else. */
  lemma TrimExactly(s: string) returns (a: string, b: string)
    ensures s == a + Trim(s) + b && Blank(a) && Blank(b)
    ensures var t := Trim(s); t != "" ==> !IsWhitespace(t[0]) && !IsWhitespace(t[|t| - 1])
  {
    a := TrimStartExactly(s);
    b := TrimEndExactly(TrimStart(s));
    assert a + (Trim(s) + b) == a + Trim(s) + b;
  }

  lemma {:induction false} TrimStartOf(a: string, t: string)
    requires Blank(a) && (t != "" ==> !IsWhitespace(t[0]))
    ensures TrimStart(a + t) == t
  {
    if |a| > 0 {
      assert a[0] in a && (a + t)[1..] == a[1..] + t;
      TrimStartOf(a[1..], t);
    } else {
      assert "" + t == t;
    }
  }

  lemma {:induction false} TrimEndOf(t: string, b: string)
    requires Blank(b) && (t != "" ==> !IsWhitespace(t[|t| - 1]))
    ensures TrimEnd(t + b) == t
  {
    if |b| > 0 {
      assert b[|b| - 1] in b && (t + b)[..|t + b| - 1] == t + b[..|b| - 1];
      TrimEndOf(t, b[..|b| - 1]);
    } else {
      assert t + "" == t;
    }
  }

  /** And whatever has no white space at its ends is what is left when white space around
      it is trimmed. */
  lemma TrimOf(a: string, t: string, b: string)
    requires Blank(a) && Blank(b) && (t == "" || (!IsWhitespace(t[0]) && !IsWhitespace(t[|t| - 1])))
    ensures Trim(a + t + b) == t
  {
    if t == "" {
      assert a + t + b == (a + b) + "";
      TrimStartOf(a + b, "");
    } else {
      assert a + t + b == a + (t + b);
      TrimStartOf(a, t + b);
      TrimEndOf(t, b);
    }
  }

  lemma StripCrExactly(l: string)
    ensures StripCr(l + "\r") == l
    ensures (forall k :: StripCr(l) != k || l == k || l == k + "\r")
    ensures StripCr(l) == l <==> l == "" || l[|l| - 1] != '\r'
  {
    assert EndsInCr(l) ==> l == l[..|l| - 1] + "\r";
  }

  lemma ContentLinesWhole(l: string)
    requires '\n' !in l
    ensures ContentLines(l) == if l == "" then [] else [l]
  {
    SplitOne(l);
  }

  /** Lines end in LF or CR LF; what follows the last is a line of its own unless it is
      empty, as it stands. */
  lemma ContentLinesExactly(l: string, rest: string)
    requires '\n' !in l
    ensures ContentLines(l) == if l == "" then [] else [l]
    ensures ContentLines(l + "\n" + rest) == [if l != "" && l[|l| - 1] == '\r' then l[..|l| - 1] else l] + ContentLines(rest)
  {
    ContentLinesWhole(l);
    SplitFirst(l, rest);
    EndedCons(l, SplitLf(rest));
  }

  lemma EndedCons(l: string, q: seq<string>)
    requires |q| > 0
    ensures EndedLines([l] + q) == [StripCr(l)] + EndedLines(q)
  {
    hide StripCr;
    var p := [l] + q;
    assert p[|p| - 1] == q[|q| - 1];
    assert forall i :: 0 < i < |p| ==> p[i] == q[i - 1];
  }

  /** The pieces between line feeds, each without one carriage return at its end. */
  lemma SplitLinesExactly(text: string, i: nat)
    requires i < |SplitLf(text)|
    ensures Join(SplitLf(text)) == text && '\n' !in SplitLf(text)[i] && |SplitLines(text)| == |SplitLf(text)|
    ensures var p := SplitLf(text)[i];
            SplitLines(text)[i] == if p != "" && p[|p| - 1] == '\r' then p[..|p| - 1] else p
  {
    JoinOfSplit(text);
    SplitHasNoLf(text);
    assert SplitLf(text)[i] in SplitLf(text);
  }
}
