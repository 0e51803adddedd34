/** The environment file: escaping, rendering and parsing (proxy/src/env_parser.rs). */
module EnvFile {
  import opened Text
  import opened Lines

  // ---- escapes --------------------------------------------------------------

  function EscapeChar(c: char): string {
    if c == '"' then "\\\""
    else if c == '\\' then "\\\\"
    else if c == '\n' then "\\n"
    else if c == '\t' then "\\t"
    else if c == '\r' then "\\r"
    else [c]
  }

  function Escape(s: string): string {
    if |s| == 0 then "" else EscapeChar(s[0]) + Escape(s[1..])
  }

  /** What a backslash followed by `c` stands for. */
  function Decoded(c: char): string {
    if c == 'n' then "\n"
    else if c == 't' then "\t"
    else if c == 'r' then "\r"
    else if c == '\\' || c == '"' then [c]
    else ['\\', c]
  }

  function Unescape(s: string): string {
    if |s| == 0 then ""
    else if s[0] != '\\' then [s[0]] + Unescape(s[1..])
    else if |s| == 1 then "\\"
    else Decoded(s[1]) + Unescape(s[2..])
  }

  lemma UnescapeFirst(c: char, rest: string)
    ensures Unescape(EscapeChar(c) + rest) == [c] + Unescape(rest)
  {
    var e := EscapeChar(c);
    if |e| == 1 {
      assert (e + rest)[1..] == rest;
    } else {
      assert (e + rest)[2..] == rest;
    }
  }

  /** Unescaping undoes escaping, for every string. */
  lemma {:induction false} UnescapeOfEscape(s: string)
    ensures Unescape(Escape(s)) == s
  {
    if |s| > 0 {
      UnescapeOfEscape(s[1..]);
      UnescapeFirst(s[0], Escape(s[1..]));
      assert [s[0]] + s[1..] == s;
    }
  }

  lemma {:induction false} EscapeAppend(s: string, c: char)
    ensures Escape(s + [c]) == Escape(s) + EscapeChar(c)
  {
    if |s| == 0 {
      assert "" + [c] == [c] && Escape([c]) == EscapeChar(c) + Escape("");
    } else {
      EscapeAppend(s[1..], c);
      assert (s + [c])[1..] == s[1..] + [c];
      Associative(EscapeChar(s[0]), Escape(s[1..]), EscapeChar(c));
    }
  }

  /** `escape_for_env_file`. */
  method EscapeForEnvFile(s: string) returns (out: string)
    ensures out == Escape(s)
  {
    out := "";
    for i := 0 to |s|
      invariant out == Escape(s[..i])
    {
      var c := s[i];
      EscapeAppend(s[..i], c);
      assert s[..i + 1] == s[..i] + [c];
      match c {
        case '"' => out := out + "\\\"";
        case '\\' => out := out + "\\\\";
        case '\n' => out := out + "\\n";
        case '\t' => out := out + "\\t";
        case '\r' => out := out + "\\r";
        case other => out := out + [other];
      }
    }
    assert s[..|s|] == s;
  }

  /** `unescape_double_quoted`. */
  method UnescapeDoubleQuoted(s: string) returns (out: string)
    ensures out == Unescape(s)
  {
    out := "";
    var i := 0;
    while i < |s|
      invariant 0 <= i <= |s|
      invariant Unescape(s) == out + Unescape(s[i..])
    {
      var c := s[i];
      ghost var before := out;
      if c == '\\' {
        if i + 1 < |s| {
          var d := s[i + 1];
          match d {
            case 'n' => out := out + "\n";
            case 't' => out := out + "\t";
            case 'r' => out := out + "\r";
            case '\\' => out := out + "\\";
            case '"' => out := out + "\"";
            case other => out := out + "\\" + [other];
          }
          assert s[i..][2..] == s[i + 2..];
          assert out == before + Decoded(d);
          Associative(before, Decoded(d), Unescape(s[i + 2..]));
          i := i + 2;
        } else {
          out := out + "\\";
          i := i + 1;
        }
      } else {
        out := out + [c];
        assert s[i..][1..] == s[i + 1..];
        Associative(before, [c], Unescape(s[i + 1..]));
        i := i + 1;
      }
    }
  }

  /** Character by character: the five that are escaped, and how. */
  lemma EscapeExactly(s: string, c: char)
    ensures Escape("") == ""
    ensures Escape(s + [c]) == Escape(s) + if c == '\n' then "\\n" else if c == '\t' then "\\t"
                                            else if c == '\r' then "\\r" else if c == '\\' then "\\\\"
                                            else if c == '"' then "\\\"" else [c]
  {
    EscapeAppend(s, c);
  }

  /** A backslash and the character after it are one character if they are one of the five
      escapes, and stay as they are if not; so does a backslash at the end. */
  lemma UnescapeExactly(c: char, rest: string)
    ensures Unescape("") == "" && Unescape("\\") == "\\"
    ensures Unescape("\\" + [c] + rest)
            == (if c == 'n' then "\n" else if c == 't' then "\t" else if c == 'r' then "\r"
                else if c == '\\' then "\\" else if c == '"' then "\"" else "\\" + [c]) + Unescape(rest)
    ensures c != '\\' ==> Unescape([c] + rest) == [c] + Unescape(rest)
  {
    assert ("\\" + [c] + rest)[2..] == rest && ([c] + rest)[1..] == rest;
  }

  // ---- one line -------------------------------------------------------------

  predicate IsUpper(c: char) {
    'A' <= c <= 'Z'
  }

  /** `is_valid_key`. */
  predicate IsValidKey(key: string) {
    && |key| > 0
    && (IsUpper(key[0]) || key[0] == '_')
    && forall c <- key :: IsUpper(c) || '0' <= c <= '9' || c == '_'
  }

  /** Where `c` first occurs, or the length. */
  function IndexOf(s: string, c: char): (r: nat)
    ensures r <= |s| && c !in s[..r] && (r < |s| ==> s[r] == c)
  {
    if |s| == 0 || s[0] == c then 0
    else
      var r := 1 + IndexOf(s[1..], c);
      assert s[..r] == [s[0]] + s[1..][..r - 1];
      r
  }

  lemma {:induction false} IndexOfUnique(s: string, c: char, r: nat)
    requires r < |s| && c !in s[..r] && s[r] == c
    ensures IndexOf(s, c) == r
  {
    if r > 0 {
      assert s[..r] == [s[0]] + s[1..][..r - 1];
      IndexOfUnique(s[1..], c, r - 1);
    }
  }

  function StripExport(line: string): string {
    if "export " <= line then Trim(line[7..]) else line
  }

  predicate Quoted(val: string, q: char) {
    |val| >= 2 && val[0] == q && val[|val| - 1] == q
  }

  function ValueOf(val: string): string {
    if Quoted(val, '"') then Unescape(val[1..|val| - 1])
    else if Quoted(val, '\'') then val[1..|val| - 1]
    else val
  }

  datatype Kind = Ignored | Overlong | WithoutEquals | WithoutKey | BadKey(key: string) | Entry(key: string, value: string)

  function Classify(raw: string): Kind {
    var line := Trim(raw);
    if line == "" || line[0] == '#' then Ignored
    else if Utf8Len(line) > 4096 then Overlong
    else
      var body := StripExport(line);
      var e := IndexOf(body, '=');
      if e == |body| then WithoutEquals
      else
        var key := Trim(body[..e]);
        if key == "" then WithoutKey
        else if !IsValidKey(key) then BadKey(key)
        else Entry(key, ValueOf(Trim(body[e + 1..])))
  }

  /** `[A-Z_][A-Z0-9_]*`, by code point. */
  lemma ValidKeyExactly(key: string)
    ensures IsValidKey(key) <==>
              && key != "" && !(48 <= key[0] as int <= 57)
              && forall c <- key :: 65 <= c as int <= 90 || 48 <= c as int <= 57 || c as int == 95
  {
    assert key != "" ==> key[0] in key;
  }

  /** A value as written: in double quotes with escapes, in single quotes as it stands, or
      bare. */
  predicate Written(v: string, value: string) {
    (v == "\"" + (if |v| >= 2 then v[1..|v| - 1] else "") + "\"" && value == Unescape(v[1..|v| - 1]))
    || (v == "'" + (if |v| >= 2 then v[1..|v| - 1] else "") + "'" && value == v[1..|v| - 1])
    || (!(|v| >= 2 && v[0] == v[|v| - 1] && v[0] in "'\"") && value == v)
  }

  lemma TrimmedEnds(v: string)
    requires Trim(v) == v && v != ""
    ensures !IsWhitespace(v[0]) && !IsWhitespace(v[|v| - 1])
  {
    var a, b := TrimExactly(v);
  }

  lemma KeyStarts(key: string)
    requires IsValidKey(key)
    ensures |key| > 0 && key[0] != '#' && key[0] != 'e' && '=' !in key
    ensures !IsWhitespace(key[0]) && !IsWhitespace(key[|key| - 1])
  {
    assert key[0] in key && key[|key| - 1] in key;
  }

  lemma ValueWritten(v: string, value: string)
    requires Written(v, value)
    ensures ValueOf(v) == value
  {
    if Quoted(v, '"') {
      assert v == "\"" + v[1..|v| - 1] + "\"";
    } else if Quoted(v, '\'') {
      assert v == "'" + v[1..|v| - 1] + "'";
    }
  }

  /** What is left of an assignment when the white space around it is gone. */
  function Core(key: string, c: string, d: string, v: string): string {
    key + c + "=" + if v == "" then "" else d + v
  }

  lemma CoreEnds(key: string, c: string, d: string, v: string)
    requires IsValidKey(key) && Trim(v) == v
    ensures var x := Core(key, c, d, v);
            |x| > 0 && x[0] == key[0] && !IsWhitespace(x[0]) && !IsWhitespace(x[|x| - 1])
  {
    KeyStarts(key);
    if v != "" {
      TrimmedEnds(v);
    }
  }

  lemma CoreSplits(key: string, c: string, d: string, v: string)
    requires Blank(c) && IsValidKey(key)
    ensures var x := Core(key, c, d, v); var e := IndexOf(x, '=');
            e < |x| && x[..e] == key + c && x[e + 1..] == if v == "" then "" else d + v
  {
    var x, e := Core(key, c, d, v), |key + c|;
    KeyStarts(key);
    assert '=' !in c;
    hide IndexOf, IsValidKey, IsWhitespace;
    assert x[..e] == key + c && x[e] == '=';
    IndexOfUnique(x, '=', e);
  }

  lemma KeyTrims(key: string, c: string)
    requires Blank(c) && IsValidKey(key)
    ensures Trim(key + c) == key
  {
    KeyStarts(key);
    hide *;
    TrimOf("", key, c);
    assert "" + key + c == key + c;
  }

  lemma ValueTrims(d: string, v: string)
    requires Blank(d) && Trim(v) == v
    ensures Trim(if v == "" then "" else d + v) == v
  {
    if v != "" {
      TrimmedEnds(v);
      hide IsWhitespace;
      TrimOf(d, v, "");
      assert d + v + "" == d + v;
    }
  }

  lemma CoreRead(key: string, c: string, d: string, v: string, value: string)
    requires Blank(c) && Blank(d) && IsValidKey(key) && Trim(v) == v && Written(v, value)
    ensures var x := Core(key, c, d, v); var e := IndexOf(x, '=');
            e < |x| && Trim(x[..e]) == key && ValueOf(Trim(x[e + 1..])) == value
  {
    hide *;
    CoreSplits(key, c, d, v);
    KeyTrims(key, c);
    ValueTrims(d, v);
    ValueWritten(v, value);
  }

  lemma AssignmentTrimmed(front: string, core: string, back: string)
    requires Blank(back) && |core| > 0 && !IsWhitespace(core[|core| - 1])
    requires front == "" || front[0] == 'e'
    requires front == "" ==> !IsWhitespace(core[0])
    ensures forall a :: Blank(a) ==> Trim(a + (front + core) + back) == front + core
  {
    forall a | Blank(a)
      ensures Trim(a + (front + core) + back) == front + core
    {
      TrimOf(a, front + core, back);
    }
  }

  lemma AssignmentTrims(
    a: string, front: string, key: string, c: string, d: string, v: string, e: string)
    requires Blank(a) && Blank(c) && Blank(d) && Blank(e) && IsValidKey(key) && Trim(v) == v
    requires front == "" || front[0] == 'e'
    ensures Trim(a + front + key + c + "=" + d + v + e) == front + Core(key, c, d, v)
  {
    hide IsValidKey, Trim, Core, Blank;
    AssignmentParts(a, front, key, c, d, v, e);
    CoreEnds(key, c, d, v);
    BlankAppend(d, e);
    AssignmentTrimmed(front, Core(key, c, d, v), if v == "" then d + e else e);
  }

  lemma CoreClassified(raw: string, exported: bool, b: string, key: string, c: string, d: string, v: string, value: string)
    requires Blank(b) && Blank(c) && Blank(d) && IsValidKey(key) && Trim(v) == v && Written(v, value)
    requires Trim(raw) == if exported then "export " + b + Core(key, c, d, v) else Core(key, c, d, v)
    ensures Utf8Len(Trim(raw)) <= 4096 ==> Classify(raw) == Entry(key, value)
  {
    hide Utf8Len, IndexOf, IsWhitespace, Written, ValueOf, Trim, Core, Blank, StripExport;
    var core := Core(key, c, d, v);
    CoreEnds(key, c, d, v);
    KeyStarts(key);
    KeyIsNotEmpty(key);
    hide IsValidKey;
    CoreRead(key, c, d, v, value);
    BodyOf(exported, b, core);
    assert exported ==> ("export " + b + core)[0] == 'e';
  }

  lemma KeyIsNotEmpty(key: string)
    requires IsValidKey(key)
    ensures key != ""
  {
  }

  /** An assignment, with white space around its parts and an optional `export `, is an
      entry for exactly the key and the value that are written. */
  lemma AssignmentRead(
    a: string, exported: bool, b: string, key: string, c: string, d: string, v: string, e: string, value: string)
    requires Blank(a) && Blank(b) && Blank(c) && Blank(d) && Blank(e)
    requires IsValidKey(key) && Trim(v) == v && Written(v, value)
    ensures var raw := a + (if exported then "export " + b else "") + key + c + "=" + d + v + e;
            Utf8Len(Trim(raw)) <= 4096 ==> Classify(raw) == Entry(key, value)
  {
    hide *;
    var front := if exported then "export " + b else "";
    FrontStarts(b);
    AssignmentTrims(a, front, key, c, d, v, e);
    assert !exported ==> front + Core(key, c, d, v) == Core(key, c, d, v);
    CoreClassified(a + front + key + c + "=" + d + v + e, exported, b, key, c, d, v, value);
  }

  /** The lines that are not assignments: `t` is the trimmed line, `body` what follows an
      `export `, `a` and `b` the parts around its first `=`. */
  lemma OtherLines(raw: string, t: string, body: string, a: string, b: string)
    requires t == Trim(raw) && body == if "export " <= t then Trim(t[7..]) else t
    ensures Classify(raw) == Ignored <==> t == "" || t[0] == '#'
    ensures Classify(raw) == Overlong <==> t != "" && t[0] != '#' && Utf8Len(t) > 4096
    ensures t != "" && t[0] != '#' && Utf8Len(t) <= 4096 && '=' !in body ==> Classify(raw) == WithoutEquals
    ensures t != "" && t[0] != '#' && Utf8Len(t) <= 4096 && body == a + "=" + b && '=' !in a ==>
              && (Trim(a) == "" <==> Classify(raw) == WithoutKey)
              && (Trim(a) != "" && !IsValidKey(Trim(a)) <==> Classify(raw) == BadKey(Trim(a)))
  {
    hide Utf8Len, Trim, IsValidKey, ValueOf;
    var e := IndexOf(body, '=');
    assert e < |body| ==> body[e] in body;
    if body == a + "=" + b && '=' !in a {
      assert body[..|a|] == a && body[|a|] == '=';
      IndexOfUnique(body, '=', |a|);
    }
  }

  lemma BlankAppend(d: string, e: string)
    requires Blank(d) && Blank(e)
    ensures Blank(d + e)
  {
  }

  lemma FrontStarts(b: string)
    ensures ("export " + b)[0] == 'e'
  {
  }

  lemma AssignmentParts(a: string, front: string, key: string, c: string, d: string, v: string, e: string)
    ensures a + front + key + c + "=" + d + v + e
            == a + (front + Core(key, c, d, v)) + if v == "" then d + e else e
  {
    var k := key + c + "=";
    if v == "" {
      assert a + front + key + c + "=" + d + v + e == a + (front + k) + (d + e);
      assert k + "" == k;
    } else {
      assert a + front + key + c + "=" + d + v + e == a + (front + (k + (d + v))) + e;
    }
  }

  lemma BodyOf(exported: bool, b: string, core: string)
    requires Blank(b) && |core| > 0 && !IsWhitespace(core[0]) && !IsWhitespace(core[|core| - 1]) && core[0] != 'e'
    ensures StripExport(if exported then "export " + b + core else core) == core
  {
    if exported {
      assert ("export " + b + core)[7..] == b + core;
      TrimOf(b, core, "");
      assert b + core + "" == b + core;
    } else {
      assert "export "[0] == 'e';
    }
  }

  // ---- the whole content ----------------------------------------------------

  datatype Pair = Pair(key: string, value: string, line: nat)

  datatype Warning =
    | LineTooLong(line: nat)
    | NoEquals(line: nat)
    | EmptyValue(line: nat, key: string)
    | LongValue(line: nat, key: string)
    | UnknownKey(line: nat, key: string)
    | SensitiveKey(line: nat, key: string)
    | DuplicateKey(line: nat, key: string)

  datatype HardError = BinaryContent | InvalidKey(line: nat, key: string) | NoEntries

  datatype ParseResult = ParseResult(pairs: seq<Pair>, warnings: seq<Warning>, hardErrors: seq<HardError>)

  /** Keys the program knows and keys it wants confirmed. */
  datatype Keys = Keys(known: set<string>, sensitive: set<string>)

  datatype State = State(
    pairs: seq<Pair>, warnings: seq<Warning>, hardErrors: seq<HardError>, seen: set<string>, hadContent: bool)

  const START := State([], [], [], {}, false)

  function EntryWarnings(n: nat, key: string, value: string, seen: set<string>, keys: Keys): seq<Warning> {
    (if value == "" then [EmptyValue(n, key)] else [])
    + (if Utf8Len(value) > 2048 then [LongValue(n, key)] else [])
    + (if key !in keys.known then [UnknownKey(n, key)] else [])
    + (if key in keys.sensitive then [SensitiveKey(n, key)] else [])
    + (if key in seen then [DuplicateKey(n, key)] else [])
  }

  function Step(st: State, n: nat, kind: Kind, keys: Keys): State {
    match kind
    case Ignored => st
    case Overlong => st.(warnings := st.warnings + [LineTooLong(n)], hadContent := true)
    case WithoutEquals => st.(warnings := st.warnings + [NoEquals(n)], hadContent := true)
    case WithoutKey => st.(hadContent := true)
    case BadKey(key) => st.(hardErrors := st.hardErrors + [InvalidKey(n, key)], hadContent := true)
    case Entry(key, value) =>
      State(st.pairs + [Pair(key, value, n)], st.warnings + EntryWarnings(n, key, value, st.seen, keys),
            st.hardErrors, st.seen + {key}, true)
  }

  /** After the first `n` lines. */
  function Run(lines: seq<string>, n: nat, keys: Keys): State
    requires n <= |lines|
  {
    if n == 0 then START else Step(Run(lines, n - 1, keys), n, Classify(lines[n - 1]), keys)
  }

  function Conclude(st: State): ParseResult {
    ParseResult(st.pairs, st.warnings,
                if st.hadContent && st.pairs == [] && st.hardErrors == [] then [NoEntries] else st.hardErrors)
  }

  function Parse(content: string, keys: Keys): ParseResult {
    if '\0' in content then ParseResult([], [], [BinaryContent])
    else var lines := ContentLines(content); Conclude(Run(lines, |lines|, keys))
  }

  /** One line of `parse_env_content`, with its early exits. */
  method ParseLine(st: State, n: nat, raw: string, keys: Keys) returns (after: State)
    ensures after == Step(st, n, Classify(raw), keys)
  {
    hide Trim, Utf8Len, IsValidKey, Unescape, IndexOf;
    after := st;
    var line := Trim(raw);
    if line == "" || line[0] == '#' {
      return;
    }
    after := after.(hadContent := true);
    if Utf8Len(line) > 4096 {
      after := after.(warnings := after.warnings + [LineTooLong(n)]);
      return;
    }
    if "export " <= line {
      line := Trim(line[7..]);
    }
    var e := IndexOf(line, '=');
    if e == |line| {
      after := after.(warnings := after.warnings + [NoEquals(n)]);
      return;
    }
    var key := Trim(line[..e]);
    if key == "" {
      return;
    }
    if !IsValidKey(key) {
      after := after.(hardErrors := after.hardErrors + [InvalidKey(n, key)]);
      return;
    }
    var value := ParseValue(Trim(line[e + 1..]));
    var warnings := Warn(n, key, value, after.seen, keys);
    after := after.(warnings := after.warnings + warnings, seen := after.seen + {key},
                    pairs := after.pairs + [Pair(key, value, n)]);
  }

  method ParseValue(val: string) returns (value: string)
    ensures value == ValueOf(val)
  {
    hide Unescape;
    if |val| >= 2 && val[0] == '"' && val[|val| - 1] == '"' {
      value := UnescapeDoubleQuoted(val[1..|val| - 1]);
    } else if |val| >= 2 && val[0] == '\'' && val[|val| - 1] == '\'' {
      value := val[1..|val| - 1];
    } else {
      value := val;
    }
  }

  method Warn(n: nat, key: string, value: string, seen: set<string>, keys: Keys) returns (w: seq<Warning>)
    ensures w == EntryWarnings(n, key, value, seen, keys)
  {
    hide Utf8Len;
    w := [];
    if value == "" {
      w := w + [EmptyValue(n, key)];
    }
    if Utf8Len(value) > 2048 {
      w := w + [LongValue(n, key)];
    }
    if key !in keys.known {
      w := w + [UnknownKey(n, key)];
    }
    if key in keys.sensitive {
      w := w + [SensitiveKey(n, key)];
    }
    if key in seen {
      w := w + [DuplicateKey(n, key)];
    }
  }

  /** `parse_env_content`. */
  method ParseEnvContent(content: string, keys: Keys) returns (r: ParseResult)
    ensures r == Parse(content, keys)
  {
    hide Step, Classify, ContentLines;
    if '\0' in content {
      return ParseResult([], [], [BinaryContent]);
    }
    var lines := ContentLines(content);
    var st := START;
    for i := 0 to |lines|
      invariant st == Run(lines, i, keys)
    {
      st := ParseLine(st, i + 1, lines[i], keys);
    }
    if st.hadContent && st.pairs == [] && st.hardErrors == [] {
      st := st.(hardErrors := [NoEntries]);
    }
    r := ParseResult(st.pairs, st.warnings, st.hardErrors);
  }

  // ---- what the parser reports ----------------------------------------------

  ghost predicate Increasing(pairs: seq<Pair>) {
    forall i, j :: 0 <= i < j < |pairs| ==> pairs[i].line < pairs[j].line
  }

  ghost predicate OnlyEntries(pairs: seq<Pair>, lines: seq<string>, n: nat)
    requires n <= |lines|
  {
    forall p <- pairs :: 1 <= p.line <= n && Classify(lines[p.line - 1]) == Entry(p.key, p.value)
  }

  ghost predicate AllEntries(pairs: seq<Pair>, lines: seq<string>, n: nat)
    requires n <= |lines|
  {
    forall i: nat :: i < n && Classify(lines[i]).Entry? ==> exists p :: p in pairs && p.line == i + 1
  }

  /** The pairs are the entry lines among the first `n`, in order, and nothing else. */
  ghost predicate AreEntries(pairs: seq<Pair>, lines: seq<string>, n: nat)
    requires n <= |lines|
  {
    Increasing(pairs) && OnlyEntries(pairs, lines, n) && AllEntries(pairs, lines, n)
  }

  lemma IncreasingAdded(pairs: seq<Pair>, p: Pair)
    requires Increasing(pairs) && forall q <- pairs :: q.line < p.line
    ensures Increasing(pairs + [p])
  {
    var now := pairs + [p];
    forall i, j | 0 <= i < j < |now|
      ensures now[i].line < now[j].line
    {
      assert i < |pairs| && now[i] == pairs[i] && pairs[i] in pairs;
      assert j < |pairs| ==> now[j] == pairs[j];
    }
  }

  lemma OnlyEntriesAdded(pairs: seq<Pair>, lines: seq<string>, n: nat, p: Pair)
    requires n < |lines| && OnlyEntries(pairs, lines, n)
    requires p.line == n + 1 && Classify(lines[n]) == Entry(p.key, p.value)
    ensures OnlyEntries(pairs + [p], lines, n + 1)
  {
    hide Classify;
    forall q | q in pairs + [p]
      ensures 1 <= q.line <= n + 1 && Classify(lines[q.line - 1]) == Entry(q.key, q.value)
    {
      assert q in pairs || q == p;
    }
  }

  lemma AllEntriesAdded(pairs: seq<Pair>, lines: seq<string>, n: nat, p: Pair)
    requires n < |lines| && AllEntries(pairs, lines, n) && p.line == n + 1
    ensures AllEntries(pairs + [p], lines, n + 1)
  {
    hide Classify;
    var now := pairs + [p];
    assert now[|pairs|] == p && p in now;
    forall i: nat | i < n + 1 && Classify(lines[i]).Entry?
      ensures exists q :: q in now && q.line == i + 1
    {
      if i < n {
        var q :| q in pairs && q.line == i + 1;
        assert q in now;
      }
    }
  }

  lemma EntryAdded(pairs: seq<Pair>, lines: seq<string>, n: nat)
    requires n < |lines| && AreEntries(pairs, lines, n) && Classify(lines[n]).Entry?
    ensures var k := Classify(lines[n]); AreEntries(pairs + [Pair(k.key, k.value, n + 1)], lines, n + 1)
  {
    hide Classify, AllEntries, Increasing;
    var k := Classify(lines[n]);
    var p := Pair(k.key, k.value, n + 1);
    IncreasingAdded(pairs, p);
    OnlyEntriesAdded(pairs, lines, n, p);
    AllEntriesAdded(pairs, lines, n, p);
  }

  lemma NoEntryAdded(pairs: seq<Pair>, lines: seq<string>, n: nat)
    requires n < |lines| && AreEntries(pairs, lines, n) && !Classify(lines[n]).Entry?
    ensures AreEntries(pairs, lines, n + 1)
  {
    hide Classify, Increasing;
  }

  lemma PairsStep(lines: seq<string>, n: nat, keys: Keys)
    requires 0 < n <= |lines|
    ensures var was, k := Run(lines, n - 1, keys).pairs, Classify(lines[n - 1]);
            Run(lines, n, keys).pairs == if k.Entry? then was + [Pair(k.key, k.value, n)] else was
  {
    hide Classify, EntryWarnings;
  }

  lemma NoLinesNoPairs(lines: seq<string>, keys: Keys)
    ensures AreEntries(Run(lines, 0, keys).pairs, lines, 0)
  {
  }

  lemma {:induction false} RunPairs(lines: seq<string>, n: nat, keys: Keys)
    requires n <= |lines|
    ensures AreEntries(Run(lines, n, keys).pairs, lines, n)
  {
    hide AreEntries, Run, Classify;
    if n > 0 {
      RunPairs(lines, n - 1, keys);
      PairsStep(lines, n, keys);
      if Classify(lines[n - 1]).Entry? {
        EntryAdded(Run(lines, n - 1, keys).pairs, lines, n - 1);
      } else {
        NoEntryAdded(Run(lines, n - 1, keys).pairs, lines, n - 1);
      }
    } else {
      NoLinesNoPairs(lines, keys);
    }
  }

  /** For every content without a NUL: the pairs are its entry lines, each with its
      own number, in order. */
  lemma PairsAreEntries(content: string, keys: Keys)
    requires '\0' !in content
    ensures var lines := ContentLines(content); AreEntries(Parse(content, keys).pairs, lines, |lines|)
  {
    hide AreEntries, ContentLines, Run;
    var lines := ContentLines(content);
    RunPairs(lines, |lines|, keys);
  }

  lemma {:induction false} RunErrors(lines: seq<string>, n: nat, keys: Keys)
    requires n <= |lines|
    ensures Run(lines, n, keys).hardErrors == [] <==> forall i: nat :: i < n ==> !Classify(lines[i]).BadKey?
    ensures Run(lines, n, keys).pairs == [] <==> forall i: nat :: i < n ==> !Classify(lines[i]).Entry?
    ensures !Run(lines, n, keys).hadContent <==> forall i: nat :: i < n ==> Classify(lines[i]).Ignored?
  {
    hide Classify, EntryWarnings;
    if n > 0 {
      RunErrors(lines, n - 1, keys);
    }
  }

  /** Content is accepted exactly when it holds no NUL, no line has an invalid key, and
      it has an entry or nothing but blank and comment lines. */
  lemma AcceptedExactly(content: string, keys: Keys)
    ensures var lines := ContentLines(content);
            Parse(content, keys).hardErrors == [] <==>
              && '\0' !in content
              && (forall i :: 0 <= i < |lines| ==> !Classify(lines[i]).BadKey?)
              && ((exists i :: 0 <= i < |lines| && Classify(lines[i]).Entry?)
                  || forall i :: 0 <= i < |lines| ==> Classify(lines[i]).Ignored?)
  {
    hide Classify, ContentLines, Run;
    var lines := ContentLines(content);
    RunErrors(lines, |lines|, keys);
  }

  /** The warnings a list of pairs deserves for keys seen before. */
  ghost predicate Repeated(pairs: seq<Pair>, w: Warning) {
    w.DuplicateKey? &&
    exists i, j :: 0 <= i < j < |pairs| && pairs[i].key == pairs[j].key == w.key && pairs[j].line == w.line
  }

  ghost predicate SeenIn(pairs: seq<Pair>, key: string) {
    exists i :: 0 <= i < |pairs| && pairs[i].key == key
  }

  lemma RepeatedStep(pairs: seq<Pair>, p: Pair, w: Warning)
    ensures Repeated(pairs + [p], w) <==> Repeated(pairs, w) || (w == DuplicateKey(p.line, p.key) && SeenIn(pairs, p.key))
  {
    var now := pairs + [p];
    assert now[|pairs|] == p;
    if Repeated(pairs, w) {
      var i, j :| 0 <= i < j < |pairs| && pairs[i].key == pairs[j].key == w.key && pairs[j].line == w.line;
      assert now[i] == pairs[i] && now[j] == pairs[j];
    }
    if w == DuplicateKey(p.line, p.key) && SeenIn(pairs, p.key) {
      var i :| 0 <= i < |pairs| && pairs[i].key == p.key;
      assert now[i] == pairs[i];
    }
  }

  lemma SeenStep(pairs: seq<Pair>, p: Pair, key: string)
    ensures SeenIn(pairs + [p], key) <==> SeenIn(pairs, key) || key == p.key
  {
    var now := pairs + [p];
    assert now[|pairs|] == p;
    if i :| 0 <= i < |pairs| && pairs[i].key == key {
      assert now[i] == pairs[i];
    }
  }

  lemma EntryWarns(n: nat, key: string, value: string, seen: set<string>, keys: Keys, w: Warning)
    ensures w in EntryWarnings(n, key, value, seen, keys) && w.DuplicateKey? <==> w == DuplicateKey(n, key) && key in seen
  {
    hide Utf8Len;
  }

  lemma {:induction false} RunDuplicates(lines: seq<string>, n: nat, keys: Keys, key: string, w: Warning)
    requires n <= |lines|
    ensures var st := Run(lines, n, keys);
            && (key in st.seen <==> SeenIn(st.pairs, key))
            && (w in st.warnings && w.DuplicateKey? <==> Repeated(st.pairs, w))
  {
    hide Classify, EntryWarnings, Repeated, SeenIn;
    if n > 0 {
      RunDuplicates(lines, n - 1, keys, key, w);
      var st, kind := Run(lines, n - 1, keys), Classify(lines[n - 1]);
      if kind.Entry? {
        var p := Pair(kind.key, kind.value, n);
        RunDuplicates(lines, n - 1, keys, kind.key, w);
        EntryWarns(n, kind.key, kind.value, st.seen, keys, w);
        RepeatedStep(st.pairs, p, w);
        SeenStep(st.pairs, p, key);
      }
    } else {
      NothingSeen(key, w);
    }
  }

  lemma NothingSeen(key: string, w: Warning)
    ensures !SeenIn([], key) && !Repeated([], w)
  {
  }

  /** A duplicate is reported for exactly the pairs whose key an earlier pair has. */
  lemma DuplicatesExactly(content: string, keys: Keys, w: Warning)
    ensures var r := Parse(content, keys); w in r.warnings && w.DuplicateKey? <==> Repeated(r.pairs, w)
  {
    hide ContentLines, Run, Repeated;
    NothingSeen("", w);
    var lines := ContentLines(content);
    RunDuplicates(lines, |lines|, keys, "", w);
  }

  /** What a line deserves to be warned of, given the keys seen before it. */
  predicate Deserved(w: Warning, n: nat, kind: Kind, seen: set<string>, keys: Keys) {
    match w
    case LineTooLong(m) => m == n && kind.Overlong?
    case NoEquals(m) => m == n && kind.WithoutEquals?
    case EmptyValue(m, k) => m == n && kind.Entry? && k == kind.key && |kind.value| == 0
    case LongValue(m, k) => m == n && kind.Entry? && k == kind.key && Utf8Len(kind.value) >= 2049
    case UnknownKey(m, k) => m == n && kind.Entry? && k == kind.key && k !in keys.known
    case SensitiveKey(m, k) => m == n && kind.Entry? && k == kind.key && k in keys.sensitive
    case DuplicateKey(m, k) => m == n && kind.Entry? && k == kind.key && k in seen
  }

  lemma EntryWarningsExactly(n: nat, key: string, value: string, seen: set<string>, keys: Keys, w: Warning)
    ensures w in EntryWarnings(n, key, value, seen, keys) <==> Deserved(w, n, Entry(key, value), seen, keys)
  {
    hide Utf8Len;
  }

  lemma StepWarnings(st: State, n: nat, kind: Kind, keys: Keys, w: Warning)
    ensures w in Step(st, n, kind, keys).warnings <==> w in st.warnings || Deserved(w, n, kind, st.seen, keys)
  {
    hide EntryWarnings, Utf8Len;
    if kind.Entry? {
      EntryWarningsExactly(n, kind.key, kind.value, st.seen, keys, w);
    }
  }

  lemma {:induction false} RunWarnings(lines: seq<string>, n: nat, keys: Keys, w: Warning)
    requires n <= |lines|
    ensures w in Run(lines, n, keys).warnings <==>
              exists i: nat :: i < n && Deserved(w, i + 1, Classify(lines[i]), Run(lines, i, keys).seen, keys)
  {
    hide Classify, Step, Deserved;
    if n > 0 {
      RunWarnings(lines, n - 1, keys, w);
      StepWarnings(Run(lines, n - 1, keys), n, Classify(lines[n - 1]), keys, w);
    }
  }

  /** Every warning but those for duplicates is given for exactly the lines that deserve
      it. */
  lemma WarningsExactly(content: string, keys: Keys, w: Warning)
    requires '\0' !in content && !w.DuplicateKey?
    ensures var lines := ContentLines(content);
            w in Parse(content, keys).warnings <==>
              exists i: nat :: i < |lines| && Deserved(w, i + 1, Classify(lines[i]), {}, keys)
  {
    hide Classify, ContentLines, Run;
    var lines := ContentLines(content);
    RunWarnings(lines, |lines|, keys, w);
    assert forall i: nat :: i < |lines| ==>
        Deserved(w, i + 1, Classify(lines[i]), Run(lines, i, keys).seen, keys)
        == Deserved(w, i + 1, Classify(lines[i]), {}, keys);
  }

  lemma {:induction false} RunBadKeys(lines: seq<string>, n: nat, keys: Keys, e: HardError)
    requires n <= |lines|
    ensures e in Run(lines, n, keys).hardErrors <==>
              exists i: nat :: i < n && Classify(lines[i]).BadKey? && e == InvalidKey(i + 1, Classify(lines[i]).key)
  {
    hide Classify, EntryWarnings;
    if n > 0 {
      RunBadKeys(lines, n - 1, keys, e);
    }
  }

  /** The hard errors: binary content alone, or an invalid key for each line that has one,
      or that nothing was found. */
  lemma HardErrorsExactly(content: string, keys: Keys, e: HardError)
    ensures '\0' in content ==> Parse(content, keys) == ParseResult([], [], [BinaryContent])
    ensures var lines := ContentLines(content);
            '\0' !in content ==>
              (e in Parse(content, keys).hardErrors <==>
                match e
                case BinaryContent => false
                case InvalidKey(m, k) => 1 <= m <= |lines| && Classify(lines[m - 1]) == BadKey(k)
                case NoEntries =>
                  && (exists i :: 0 <= i < |lines| && !Classify(lines[i]).Ignored?)
                  && forall i :: 0 <= i < |lines| ==> !Classify(lines[i]).Entry? && !Classify(lines[i]).BadKey?)
  {
    hide Classify, ContentLines, Run;
    var lines := ContentLines(content);
    RunErrors(lines, |lines|, keys);
    RunBadKeys(lines, |lines|, keys, e);
  }

  /** The order in which one line is checked. */
  function Rank(w: Warning): nat {
    match w
    case LineTooLong(_) => 0
    case NoEquals(_) => 1
    case EmptyValue(_, _) => 2
    case LongValue(_, _) => 3
    case UnknownKey(_, _) => 4
    case SensitiveKey(_, _) => 5
    case DuplicateKey(_, _) => 6
  }

  predicate Earlier(a: Warning, b: Warning) {
    a.line < b.line || (a.line == b.line && Rank(a) < Rank(b))
  }

  /** The warnings up to line `n`, from one line to the next and on a line by rank. */
  ghost predicate InOrder(ws: seq<Warning>, n: nat) {
    (forall w <- ws :: w.line <= n) && forall i, j :: 0 <= i < j < |ws| ==> Earlier(ws[i], ws[j])
  }

  lemma OneMoreInOrder(ws: seq<Warning>, w: Warning, n: nat)
    requires InOrder(ws, n) && w.line == n && forall v <- ws :: Earlier(v, w)
    ensures InOrder(ws + [w], n)
  {
    hide Earlier;
  }

  lemma WarningsAppend(ws: seq<Warning>, more: seq<Warning>, n: nat)
    requires InOrder(ws, n) && InOrder(more, n + 1) && forall w <- more :: w.line == n + 1
    ensures InOrder(ws + more, n + 1)
  {
    hide Rank;
    var all := ws + more;
    forall i, j | 0 <= i < j < |all|
      ensures Earlier(all[i], all[j])
    {
      assert i < |ws| ==> all[i] in ws;
      assert j >= |ws| ==> all[j] in more;
    }
  }

  lemma EntryWarningsInOrder(n: nat, key: string, value: string, seen: set<string>, keys: Keys)
    ensures InOrder(EntryWarnings(n, key, value, seen, keys), n)
    ensures forall w <- EntryWarnings(n, key, value, seen, keys) :: w.line == n
  {
    hide Utf8Len, InOrder;
    var a: seq<Warning> := if value == "" then [EmptyValue(n, key)] else [];
    var b := a + if Utf8Len(value) > 2048 then [LongValue(n, key)] else [];
    var c := b + if key !in keys.known then [UnknownKey(n, key)] else [];
    var d := c + if key in keys.sensitive then [SensitiveKey(n, key)] else [];
    AtMostOneInOrder(a, n);
    OptionalInOrder(a, LongValue(n, key), Utf8Len(value) > 2048, n);
    OptionalInOrder(b, UnknownKey(n, key), key !in keys.known, n);
    OptionalInOrder(c, SensitiveKey(n, key), key in keys.sensitive, n);
    OptionalInOrder(d, DuplicateKey(n, key), key in seen, n);
  }

  lemma AtMostOneInOrder(ws: seq<Warning>, n: nat)
    requires |ws| <= 1 && forall w <- ws :: w.line == n
    ensures InOrder(ws, n)
  {
  }

  lemma OptionalInOrder(ws: seq<Warning>, w: Warning, given: bool, n: nat)
    requires InOrder(ws, n) && w.line == n && forall v <- ws :: Earlier(v, w)
    ensures InOrder(ws + if given then [w] else [], n)
  {
    hide InOrder;
    if given {
      OneMoreInOrder(ws, w, n);
    } else {
      assert ws + [] == ws;
    }
  }

  lemma {:induction false} RunInOrder(lines: seq<string>, n: nat, keys: Keys)
    requires n <= |lines|
    ensures InOrder(Run(lines, n, keys).warnings, n)
  {
    hide Classify, Step, InOrder;
    if n > 0 {
      var was := Run(lines, n - 1, keys);
      RunInOrder(lines, n - 1, keys);
      StepInOrder(was, n - 1, Classify(lines[n - 1]), keys);
    } else {
      AtMostOneInOrder([], 0);
    }
  }

  /** Invalid keys up to line `n`, from one line to the next. */
  ghost predicate KeysInOrder(es: seq<HardError>, n: nat) {
    (forall e <- es :: e.InvalidKey? && e.line <= n) && forall i, j :: 0 <= i < j < |es| ==> es[i].line < es[j].line
  }

  lemma {:induction false} RunErrorsInOrder(lines: seq<string>, n: nat, keys: Keys)
    requires n <= |lines|
    ensures KeysInOrder(Run(lines, n, keys).hardErrors, n)
  {
    hide Classify, EntryWarnings;
    if n > 0 {
      RunErrorsInOrder(lines, n - 1, keys);
    }
  }

  lemma StepInOrder(st: State, n: nat, kind: Kind, keys: Keys)
    requires InOrder(st.warnings, n)
    ensures InOrder(Step(st, n + 1, kind, keys).warnings, n + 1)
  {
    var more := match kind
      case Overlong => [LineTooLong(n + 1)]
      case WithoutEquals => [NoEquals(n + 1)]
      case Entry(key, value) => EntryWarnings(n + 1, key, value, st.seen, keys)
      case _ => [];
    if kind.Entry? {
      EntryWarningsInOrder(n + 1, kind.key, kind.value, st.seen, keys);
    } else {
      AtMostOneInOrder(more, n + 1);
    }
    hide InOrder, EntryWarnings;
    WarningsAppend(st.warnings, more, n + 1 - 1);
    assert st.warnings + [] == st.warnings;
  }

  /** The warnings come line by line, and on one line in the order of the checks; so do
      the invalid keys. */
  lemma ReportsInOrder(content: string, keys: Keys)
    ensures var ws := Parse(content, keys).warnings;
            forall i, j :: 0 <= i < j < |ws| ==> Earlier(ws[i], ws[j])
    ensures var es := Parse(content, keys).hardErrors;
            |es| > 1 ==> KeysInOrder(es, |ContentLines(content)|)
  {
    hide ContentLines, Run;
    var lines := ContentLines(content);
    RunInOrder(lines, |lines|, keys);
    RunErrorsInOrder(lines, |lines|, keys);
  }

  /** A file of one assignment gives exactly the pair that is written: a bare value as it
      stands, a single-quoted one literally, a double-quoted one unescaped, with or
      without `export`, whatever the white space. */
  lemma OneAssignmentParsed(
    a: string, exported: bool, b: string, key: string, c: string, d: string, v: string, e: string, value: string,
    keys: Keys)
    requires Blank(a) && Blank(b) && Blank(c) && Blank(d) && Blank(e)
    requires IsValidKey(key) && Trim(v) == v && Written(v, value)
    requires var raw := a + (if exported then "export " + b else "") + key + c + "=" + d + v + e;
             '\n' !in raw && '\0' !in raw && Utf8Len(Trim(raw)) <= 4096
    ensures var r := Parse(a + (if exported then "export " + b else "") + key + c + "=" + d + v + e, keys);
            r.pairs == [Pair(key, value, 1)] && r.hardErrors == []
  {
    hide *;
    var raw := a + (if exported then "export " + b else "") + key + c + "=" + d + v + e;
    AssignmentRead(a, exported, b, key, c, d, v, e, value);
    OneLineParsed(raw, key, value, keys);
  }

  lemma OneLineParsed(raw: string, key: string, value: string, keys: Keys)
    requires raw != "" && '\n' !in raw && '\0' !in raw && Classify(raw) == Entry(key, value)
    ensures var r := Parse(raw, keys); r.pairs == [Pair(key, value, 1)] && r.hardErrors == []
  {
    hide Classify, EntryWarnings;
    SplitOne(raw);
    assert ContentLines(raw) == [raw];
    assert Run([raw], 1, keys) == Step(Run([raw], 0, keys), 1, Classify(raw), keys);
    assert [] + [Pair(key, value, 1)] == [Pair(key, value, 1)];
  }

  /** The plain, the single-quoted and the double-quoted form of an assignment. */
  lemma PlainFormsParsed(key: string, v: string, keys: Keys)
    requires IsValidKey(key) && Trim(v) == v && '\n' !in v && '\0' !in v && '\n' !in key && '\0' !in key
    requires Utf8Len(Trim(key + "=" + v)) <= 4096
    ensures !(|v| >= 2 && v[0] == v[|v| - 1] && v[0] in "'\"") ==> Parse(key + "=" + v, keys).pairs == [Pair(key, v, 1)]
    ensures |v| >= 2 && v[0] == v[|v| - 1] == '\'' ==> Parse(key + "=" + v, keys).pairs == [Pair(key, v[1..|v| - 1], 1)]
    ensures |v| >= 2 && v[0] == v[|v| - 1] == '"' ==>
              Parse(key + "=" + v, keys).pairs == [Pair(key, Unescape(v[1..|v| - 1]), 1)]
  {
    hide IsValidKey, Utf8Len, Trim, Parse, Unescape;
    var value := if |v| >= 2 && v[0] == v[|v| - 1] == '"' then Unescape(v[1..|v| - 1])
                 else if |v| >= 2 && v[0] == v[|v| - 1] == '\'' then v[1..|v| - 1] else v;
    assert |v| >= 2 && v[0] == v[|v| - 1] == '"' ==> v == "\"" + v[1..|v| - 1] + "\"";
    assert |v| >= 2 && v[0] == v[|v| - 1] == '\'' ==> v == "'" + v[1..|v| - 1] + "'";
    assert "" + "" + key + "" + "=" + "" + v + "" == key + "=" + v;
    OneAssignmentParsed("", false, "", key, "", "", v, "", value, keys);
  }
}
