/** The exported environment file (proxy/src/admin/routes/env.rs) and what importing it
    again gives (proxy/src/env_parser.rs). */
module EnvExport {
  import opened Text
  import opened Lines
  import opened EnvFile

  // ---- lines ----------------------------------------------------------------

  datatype Var = Var(key: string, value: string)

  /** What the export writes: blank and comment lines, and settings. */
  datatype Piece = Note(text: string) | Setting(v: Var)

  function RenderLine(v: Var): string {
    v.key + "=\"" + Escape(v.value) + "\""
  }

  function PieceLine(p: Piece): string {
    match p
    case Note(text) => text
    case Setting(v) => RenderLine(v)
  }

  function Render(pieces: seq<Piece>): string {
    if |pieces| == 0 then "" else PieceLine(pieces[0]) + "\n" + Render(pieces[1..])
  }

  predicate IsNote(text: string) {
    '\n' !in text && '\r' !in text && '\0' !in text && (text == "" || text[0] == '#')
  }

  predicate Writable(p: Piece) {
    match p
    case Note(text) => IsNote(text)
    case Setting(v) => IsValidKey(v.key)
  }

  function Rendered(pieces: seq<Piece>): seq<string> {
    seq(|pieces|, i requires 0 <= i < |pieces| => PieceLine(pieces[i]))
  }

  /** The settings among the first `n` lines, with their line numbers. */
  function Settings(pieces: seq<Piece>, n: nat): seq<Pair>
    requires n <= |pieces|
  {
    if n == 0 then []
    else
      var p := pieces[n - 1];
      Settings(pieces, n - 1) + if p.Setting? then [Pair(p.v.key, p.v.value, n)] else []
  }

  /** The value is read back from a line that the parser does not skip. */
  predicate Survives(v: Var) {
    '\0' !in v.value && Utf8Len(RenderLine(v)) <= 4096
  }

  lemma {:induction false} EscapeChars(s: string)
    ensures '\n' !in Escape(s)
    ensures '\0' in Escape(s) <==> '\0' in s
  {
    if |s| > 0 {
      EscapeChars(s[1..]);
    }
  }

  lemma LineChars(p: Piece)
    requires Writable(p)
    ensures '\n' !in PieceLine(p) && StripCr(PieceLine(p)) == PieceLine(p)
    ensures '\0' in PieceLine(p) <==> p.Setting? && '\0' in p.v.value
  {
    if p.Setting? {
      EscapeChars(p.v.value);
    } else if p.text != "" {
      assert p.text[|p.text| - 1] in p.text;
    }
  }

  lemma {:induction false} SplitRendered(pieces: seq<Piece>)
    requires forall p <- pieces :: Writable(p)
    ensures SplitLf(Render(pieces)) == Rendered(pieces) + [""]
  {
    hide PieceLine, Writable;
    if |pieces| > 0 {
      SplitRendered(pieces[1..]);
      LineChars(pieces[0]);
      SplitFirst(PieceLine(pieces[0]), Render(pieces[1..]));
      assert Rendered(pieces) == [PieceLine(pieces[0])] + Rendered(pieces[1..]);
      Associative([PieceLine(pieces[0])], Rendered(pieces[1..]), [""]);
    } else {
      assert Rendered(pieces) == [];
    }
  }

  lemma RenderedLines(pieces: seq<Piece>)
    requires forall p <- pieces :: Writable(p)
    ensures ContentLines(Render(pieces)) == Rendered(pieces) && |Rendered(pieces)| == |pieces|
  {
    hide PieceLine, Writable, Render, StripCr;
    SplitRendered(pieces);
    forall i | 0 <= i < |pieces|
      ensures StripCr(PieceLine(pieces[i])) == PieceLine(pieces[i])
    {
      LineChars(pieces[i]);
    }
  }

  lemma {:induction false} NulRendered(pieces: seq<Piece>)
    requires forall p <- pieces :: Writable(p)
    ensures '\0' in Render(pieces) <==> exists p :: p in pieces && p.Setting? && '\0' in p.v.value
  {
    hide PieceLine, Writable;
    if |pieces| > 0 {
      NulRendered(pieces[1..]);
      LineChars(pieces[0]);
      assert pieces == [pieces[0]] + pieces[1..];
    }
  }

  // ---- reading a line back --------------------------------------------------

  lemma TrimNothing(s: string)
    requires |s| > 0 && !IsWhitespace(s[0]) && !IsWhitespace(s[|s| - 1])
    ensures Trim(s) == s
  {
  }

  lemma KeyChars(key: string)
    requires IsValidKey(key)
    ensures |key| > 0 && Trim(key) == key && '=' !in key && key[0] != '#' && key[0] != 'e' && !IsWhitespace(key[0])
  {
    assert key[0] in key && key[|key| - 1] in key;
    TrimNothing(key);
  }

  lemma ValueRead(value: string)
    ensures var q := "\"" + Escape(value) + "\""; Trim(q) == q && ValueOf(q) == value
  {
    var q := "\"" + Escape(value) + "\"";
    TrimNothing(q);
    assert q[1..|q| - 1] == Escape(value);
    UnescapeOfEscape(value);
  }

  lemma {:induction false} TrimEndKeepsFirst(s: string)
    requires |s| > 0 && !IsWhitespace(s[0])
    ensures |TrimEnd(s)| > 0 && TrimEnd(s)[0] == s[0]
  {
    if IsWhitespace(s[|s| - 1]) {
      TrimEndKeepsFirst(s[..|s| - 1]);
    }
  }

  lemma NoteRead(text: string)
    requires IsNote(text)
    ensures Classify(text) == Ignored
  {
    if text != "" {
      TrimEndKeepsFirst(text);
    }
  }

  /** A rendered line is read back as it was, unless it is too long. */
  lemma LineRead(v: Var)
    requires IsValidKey(v.key)
    ensures Classify(RenderLine(v)) == if Utf8Len(RenderLine(v)) > 4096 then Overlong else Entry(v.key, v.value)
  {
    hide Utf8Len, Escape, Unescape, IsValidKey, Trim, IndexOf, IsWhitespace, ValueOf;
    var line := RenderLine(v);
    var q := "\"" + Escape(v.value) + "\"";
    var e := |v.key|;
    KeyChars(v.key);
    LineTrimmed(v);
    assert line[0] == v.key[0];
    assert line[..e] == v.key && line[e] == '=' && line[e + 1..] == q;
    IndexOfUnique(line, '=', e);
    ValueRead(v.value);
    assert !("export " <= line);
  }

  lemma LineTrimmed(v: Var)
    requires IsValidKey(v.key)
    ensures Trim(RenderLine(v)) == RenderLine(v)
  {
    KeyChars(v.key);
    TrimNothing(RenderLine(v));
  }

  lemma SameFront<T>(a: seq<T>, b: seq<T>, x: T)
    ensures a + [x] == b + [x] <==> a == b
  {
    if a + [x] == b + [x] {
      assert a == (a + [x])[..|a|] == (b + [x])[..|b|] == b;
    }
  }

  lemma PieceRead(p: Piece)
    requires Writable(p)
    ensures Classify(PieceLine(p)) ==
              if p.Note? then Ignored
              else if Utf8Len(RenderLine(p.v)) > 4096 then Overlong else Entry(p.v.key, p.v.value)
  {
    hide Classify, RenderLine, Utf8Len;
    match p
    case Note(text) => NoteRead(text);
    case Setting(v) => LineRead(v);
  }

  predicate Fits(p: Piece) {
    p.Setting? ==> Utf8Len(RenderLine(p.v)) <= 4096
  }

  /** What one line does to the parser. */
  lemma StepPiece(was: State, n: nat, p: Piece, keys: Keys)
    requires Writable(p)
    ensures var now := Step(was, n, Classify(PieceLine(p)), keys);
            && now.hardErrors == was.hardErrors
            && now.hadContent == (was.hadContent || p.Setting?)
            && now.pairs == was.pairs + if p.Setting? && Fits(p) then [Pair(p.v.key, p.v.value, n)] else []
  {
    PieceRead(p);
    hide Classify, RenderLine, Utf8Len, Writable, PieceLine, EntryWarnings;
    assert was.pairs + [] == was.pairs;
  }

  lemma RunPiece(pieces: seq<Piece>, n: nat, keys: Keys)
    requires 0 < n <= |pieces| && Writable(pieces[n - 1])
    ensures |Rendered(pieces)| == |pieces|
    ensures var was, now, p := Run(Rendered(pieces), n - 1, keys), Run(Rendered(pieces), n, keys), pieces[n - 1];
            && now.hardErrors == was.hardErrors
            && now.hadContent == (was.hadContent || p.Setting?)
            && now.pairs == was.pairs + if p.Setting? && Fits(p) then [Pair(p.v.key, p.v.value, n)] else []
  {
    hide Classify, Writable, PieceLine, Step, Fits;
    StepPiece(Run(Rendered(pieces), n - 1, keys), n, pieces[n - 1], keys);
  }

  lemma {:induction false} RunRendered(pieces: seq<Piece>, n: nat, keys: Keys)
    requires n <= |pieces| && forall p <- pieces :: Writable(p)
    ensures |Rendered(pieces)| == |pieces|
    ensures var st := Run(Rendered(pieces), n, keys);
            && st.hardErrors == [] && |st.pairs| <= |Settings(pieces, n)|
            && (st.hadContent ==> |Settings(pieces, n)| > 0)
            && (st.pairs == Settings(pieces, n) <==> forall i :: 0 <= i < n ==> Fits(pieces[i]))
  {
    hide Writable, Fits, Rendered, Run;
    if n > 0 {
      RunRendered(pieces, n - 1, keys);
      RunPiece(pieces, n, keys);
      var was, p := Run(Rendered(pieces), n - 1, keys).pairs, pieces[n - 1];
      assert was + [] == was && Settings(pieces, n - 1) + [] == Settings(pieces, n - 1);
      if p.Setting? {
        SameFront(was, Settings(pieces, n - 1), Pair(p.v.key, p.v.value, n));
      } else {
        NotesFit(p);
      }
    } else {
      RenderedLength(pieces);
      NothingRead(Rendered(pieces), keys);
    }
  }

  lemma NothingRead(lines: seq<string>, keys: Keys)
    ensures Run(lines, 0, keys) == START
  {
  }

  lemma NotesFit(p: Piece)
    requires p.Note?
    ensures Fits(p)
  {
  }

  lemma RenderedLength(pieces: seq<Piece>)
    ensures |Rendered(pieces)| == |pieces|
  {
  }

  /** Writing any list of notes and of settings with valid keys and parsing the result
      gives the same settings in order, each with its line number, and no hard error,
      exactly when no value holds a NUL and no setting's line exceeds 4096 bytes. */
  lemma RoundTripExactly(pieces: seq<Piece>, keys: Keys)
    requires forall p <- pieces :: Writable(p)
    ensures var r := Parse(Render(pieces), keys);
            r.hardErrors == [] && r.pairs == Settings(pieces, |pieces|) <==>
            forall p <- pieces :: p.Setting? ==> Survives(p.v)
  {
    hide Writable, RenderLine, Utf8Len, Render, Run, Rendered, ContentLines, Settings;
    NulRendered(pieces);
    RenderedLines(pieces);
    RunRendered(pieces, |pieces|, keys);
  }

  // ---- the exported file ----------------------------------------------------

  datatype Section = Section(comment: string, keys: seq<string>)

  type Env = map<string, string>

  /** The lines for those of `keys` that are set. */
  function KeyPieces(keys: seq<string>, env: Env): seq<Piece> {
    if |keys| == 0 then []
    else
      var init := KeyPieces(keys[..|keys| - 1], env);
      var k := keys[|keys| - 1];
      if k in env then init + [Setting(Var(k, env[k]))] else init
  }

  function SectionPieces(s: Section, env: Env): seq<Piece> {
    if KeyPieces(s.keys, env) == [] then [] else [Note(""), Note(s.comment)] + KeyPieces(s.keys, env)
  }

  function SectionsPieces(sections: seq<Section>, env: Env): seq<Piece> {
    if |sections| == 0 then []
    else SectionsPieces(sections[..|sections| - 1], env) + SectionPieces(sections[|sections| - 1], env)
  }

  predicate InSections(sections: seq<Section>, k: string) {
    exists s <- sections :: k in s.keys
  }

  /** The keys of `order` that no section names. */
  function Extras(sections: seq<Section>, order: seq<string>): seq<string> {
    if |order| == 0 then []
    else
      var init := Extras(sections, order[..|order| - 1]);
      var k := order[|order| - 1];
      if InSections(sections, k) then init else init + [k]
  }

  const OTHER := "# Other"

  /** The whole file: a header, the sections that hold a set key, and the keys that are
      in no section. `order` lists the set keys in ascending order. */
  function ExportPieces(header: string, sections: seq<Section>, order: seq<string>, env: Env): seq<Piece> {
    var extras := Extras(sections, order);
    [Note(header)] + SectionsPieces(sections, env)
    + if extras == [] then [] else [Note(""), Note(OTHER)] + KeyPieces(extras, env)
  }

  /** The settings of `pieces` are settings of `env` for exactly the keys `ks`. */
  ghost predicate Sets(pieces: seq<Piece>, env: Env, ks: set<string>) {
    && (forall p <- pieces :: p.Setting? ==> p.v.key in env && p.v.value == env[p.v.key])
    && (forall k :: k in ks <==> exists p :: p in pieces && p.Setting? && p.v.key == k)
  }

  lemma SetsAppend(a: seq<Piece>, b: seq<Piece>, env: Env, ks: set<string>, js: set<string>)
    requires Sets(a, env, ks) && Sets(b, env, js)
    ensures Sets(a + b, env, ks + js)
  {
    forall k
      ensures k in ks + js <==> exists p :: p in a + b && p.Setting? && p.v.key == k
    {
      if k in ks {
        var p :| p in a && p.Setting? && p.v.key == k;
        assert p in a + b;
      } else if k in js {
        var p :| p in b && p.Setting? && p.v.key == k;
        assert p in a + b;
      }
    }
  }

  lemma NotesSet(notes: seq<Piece>, env: Env)
    requires forall p <- notes :: p.Note?
    ensures Sets(notes, env, {})
  {
  }

  function KeysSet(keys: seq<string>, env: Env): set<string> {
    set k <- keys | k in env
  }

  lemma {:induction false} KeyPiecesSet(keys: seq<string>, env: Env)
    ensures Sets(KeyPieces(keys, env), env, KeysSet(keys, env))
    ensures KeyPieces(keys, env) == [] <==> KeysSet(keys, env) == {}
    ensures forall p <- KeyPieces(keys, env) :: p.Setting?
  {
    hide Sets;
    if |keys| > 0 {
      var init, k := keys[..|keys| - 1], keys[|keys| - 1];
      KeyPiecesSet(init, env);
      assert keys == init + [k];
      if k !in env {
        assert KeysSet(keys, env) == KeysSet(init, env);
      } else {
        assert KeysSet(keys, env) == KeysSet(init, env) + {k};
        OneSet(k, env);
        SetsAppend(KeyPieces(init, env), [Setting(Var(k, env[k]))], env, KeysSet(init, env), {k});
      }
    } else {
      NotesSet([], env);
      assert KeysSet(keys, env) == {};
    }
  }

  lemma OneSet(k: string, env: Env)
    requires k in env
    ensures Sets([Setting(Var(k, env[k]))], env, {k})
  {
    assert Setting(Var(k, env[k])) in [Setting(Var(k, env[k]))];
  }

  lemma SectionSets(s: Section, env: Env)
    ensures Sets(SectionPieces(s, env), env, KeysSet(s.keys, env))
  {
    hide Sets, KeyPieces, KeysSet;
    KeyPiecesSet(s.keys, env);
    var notes := [Note(""), Note(s.comment)];
    NotesSet(notes, env);
    NotesSet([], env);
    SetsAppend(notes, KeyPieces(s.keys, env), env, {}, KeysSet(s.keys, env));
    assert {} + KeysSet(s.keys, env) == KeysSet(s.keys, env);
  }

  function SectionKeysSet(sections: seq<Section>, env: Env): set<string> {
    set k <- env.Keys | InSections(sections, k)
  }

  lemma {:induction false} SectionsSet(sections: seq<Section>, env: Env)
    ensures Sets(SectionsPieces(sections, env), env, SectionKeysSet(sections, env))
  {
    hide Sets, SectionPieces;
    if |sections| > 0 {
      var init, s := sections[..|sections| - 1], sections[|sections| - 1];
      SectionsSet(init, env);
      SectionSets(s, env);
      SetsAppend(SectionsPieces(init, env), SectionPieces(s, env), env, SectionKeysSet(init, env), KeysSet(s.keys, env));
      forall k
        ensures InSections(sections, k) <==> InSections(init, k) || k in s.keys
      {
        assert s in sections;
        assert sections == init + [s];
      }
      assert SectionKeysSet(sections, env) == SectionKeysSet(init, env) + KeysSet(s.keys, env);
    } else {
      NotesSet([], env);
      assert SectionKeysSet(sections, env) == {};
    }
  }

  lemma {:induction false} ExtrasAre(sections: seq<Section>, order: seq<string>)
    ensures forall k :: k in Extras(sections, order) <==> k in order && !InSections(sections, k)
  {
    hide InSections;
    if |order| > 0 {
      ExtrasAre(sections, order[..|order| - 1]);
      assert order == order[..|order| - 1] + [order[|order| - 1]];
    }
  }

  /** The file sets exactly the variables that are set, to their values. */
  lemma ExportSetsEnv(header: string, sections: seq<Section>, order: seq<string>, env: Env)
    requires forall k :: k in order <==> k in env
    ensures Sets(ExportPieces(header, sections, order, env), env, env.Keys)
  {
    hide Sets, SectionsPieces, KeyPieces, InSections, Extras;
    var extras := Extras(sections, order);
    ExtrasAre(sections, order);
    SectionsSet(sections, env);
    KeyPiecesSet(extras, env);
    NotesSet([Note(header)], env);
    NotesSet([Note(""), Note(OTHER)], env);
    NotesSet([], env);
    var body := [Note(header)] + SectionsPieces(sections, env);
    SetsAppend([Note(header)], SectionsPieces(sections, env), env, {}, SectionKeysSet(sections, env));
    SetsAppend([Note(""), Note(OTHER)], KeyPieces(extras, env), env, {}, KeysSet(extras, env));
    var rest := if extras == [] then [] else [Note(""), Note(OTHER)] + KeyPieces(extras, env);
    assert extras == [] ==> KeysSet(extras, env) == {};
    assert {} + KeysSet(extras, env) == KeysSet(extras, env);
    SetsAppend(body, rest, env, {} + SectionKeysSet(sections, env), KeysSet(extras, env));
    assert {} + SectionKeysSet(sections, env) + KeysSet(extras, env) == env.Keys;
  }

  lemma {:induction false} RenderAppend(a: seq<Piece>, b: seq<Piece>)
    ensures Render(a + b) == Render(a) + Render(b)
  {
    hide PieceLine;
    if |a| == 0 {
      assert a + b == b && "" + Render(b) == Render(b);
    } else {
      RenderAppend(a[1..], b);
      assert (a + b)[1..] == a[1..] + b;
      Associative(PieceLine(a[0]) + "\n", Render(a[1..]), Render(b));
    }
  }

  lemma RenderOne(p: Piece)
    ensures Render([p]) == PieceLine(p) + "\n"
  {
    assert Render([]) == "" && PieceLine(p) + "\n" + "" == PieceLine(p) + "\n";
  }

  /** The lines of one section, for the keys that are set. */
  method ExportKeys(keys: seq<string>, env: Env) returns (out: string)
    ensures out == Render(KeyPieces(keys, env))
  {
    hide Render, RenderLine;
    out := "";
    RenderNone();
    for i := 0 to |keys|
      invariant out == Render(KeyPieces(keys[..i], env))
    {
      var k := keys[i];
      assert keys[..i + 1][..i] == keys[..i];
      if k in env {
        var p := Setting(Var(k, env[k]));
        RenderAppend(KeyPieces(keys[..i], env), [p]);
        RenderOne(p);
        out := out + (RenderLine(Var(k, env[k])) + "\n");
      }
    }
    assert keys[..|keys|] == keys;
  }

  method ExportSections(header: string, sections: seq<Section>, env: Env) returns (out: string, emitted: set<string>)
    ensures out == Render([Note(header)] + SectionsPieces(sections, env))
    ensures forall k <- env :: k in emitted <==> InSections(sections, k)
  {
    hide Render, KeyPieces, InSections, SectionPieces;
    emitted := {};
    out := header + "\n";
    RenderOne(Note(header));
    assert [Note(header)] + SectionsPieces(sections[..0], env) == [Note(header)];
    NoSections();
    for i := 0 to |sections|
      invariant out == Render([Note(header)] + SectionsPieces(sections[..i], env))
      invariant forall k <- env :: k in emitted <==> InSections(sections[..i], k)
    {
      var s := sections[i];
      OneMoreSection(sections, i);
      SectionText(s, env);
      SectionAdded(header, sections, i, env);
      if exists k <- s.keys :: k in env {
        var lines := ExportKeys(s.keys, env);
        out := out + ("\n" + s.comment + "\n" + lines);
        emitted := emitted + (set k | k in s.keys);
      } else {
        assert out + "" == out;
      }
    }
    assert sections[..|sections|] == sections;
  }

  lemma SectionAdded(header: string, sections: seq<Section>, i: nat, env: Env)
    requires i < |sections|
    ensures Render([Note(header)] + SectionsPieces(sections[..i + 1], env))
            == Render([Note(header)] + SectionsPieces(sections[..i], env)) + Render(SectionPieces(sections[i], env))
  {
    hide Render, SectionPieces;
    assert sections[..i + 1][..i] == sections[..i];
    RenderAppend([Note(header)] + SectionsPieces(sections[..i], env), SectionPieces(sections[i], env));
    Associative([Note(header)], SectionsPieces(sections[..i], env), SectionPieces(sections[i], env));
  }

  /** The set keys that no section emitted, in order. */
  method RemainingKeys(sections: seq<Section>, order: seq<string>, env: Env, emitted: set<string>)
    returns (extras: seq<string>)
    requires forall k <- order :: k in env
    requires forall k <- env :: k in emitted <==> InSections(sections, k)
    ensures extras == Extras(sections, order)
  {
    hide InSections, Extras;
    extras := [];
    NoExtras(sections, order);
    for i := 0 to |order|
      invariant extras == Extras(sections, order[..i])
    {
      ExtrasStep(sections, order, i);
      assert order[i] in order;
      if order[i] !in emitted {
        extras := extras + [order[i]];
      }
    }
    assert order[..|order|] == order;
  }

  /** `export_env`: the sections with a set key, then the set keys not yet emitted. */
  method ExportEnv(header: string, sections: seq<Section>, order: seq<string>, env: Env) returns (out: string)
    requires forall k :: k in order <==> k in env
    ensures out == Render(ExportPieces(header, sections, order, env))
  {
    hide Render, KeyPieces, InSections, Extras, SectionsPieces;
    var emitted;
    out, emitted := ExportSections(header, sections, env);
    var extras := RemainingKeys(sections, order, env, emitted);
    ghost var body := [Note(header)] + SectionsPieces(sections, env);
    if extras != [] {
      var lines := ExportKeys(extras, env);
      OtherText(extras, env);
      RenderAppend(body, [Note(""), Note(OTHER)] + KeyPieces(extras, env));
      out := out + ("\n" + OTHER + "\n" + lines);
    } else {
      assert body + [] == body;
    }
  }

  lemma RenderNone()
    ensures Render([]) == ""
  {
  }

  lemma NoExtras(sections: seq<Section>, order: seq<string>)
    ensures Extras(sections, order[..0]) == []
  {
  }

  lemma NoSections()
    ensures forall k :: !InSections([], k)
  {
  }

  lemma NotesText(comment: string, more: seq<Piece>)
    ensures Render([Note(""), Note(comment)] + more) == "\n" + comment + "\n" + Render(more)
  {
    RenderAppend([Note(""), Note(comment)], more);
    RenderAppend([Note("")], [Note(comment)]);
    hide Render;
    RenderOne(Note(""));
    RenderOne(Note(comment));
    assert [Note("")] + [Note(comment)] == [Note(""), Note(comment)];
    assert "" + "\n" == "\n" && "\n" + (comment + "\n") == "\n" + comment + "\n";
  }

  lemma SectionText(s: Section, env: Env)
    ensures Render(SectionPieces(s, env)) ==
              if exists k <- s.keys :: k in env then "\n" + s.comment + "\n" + Render(KeyPieces(s.keys, env)) else ""
  {
    hide Render, KeyPieces;
    RenderNone();
    KeyPiecesSet(s.keys, env);
    NotesText(s.comment, KeyPieces(s.keys, env));
    if k :| k in s.keys && k in env {
      assert k in KeysSet(s.keys, env);
    }
  }

  lemma OtherText(extras: seq<string>, env: Env)
    ensures Render([Note(""), Note(OTHER)] + KeyPieces(extras, env)) == "\n" + OTHER + "\n" + Render(KeyPieces(extras, env))
  {
    hide Render, KeyPieces;
    NotesText(OTHER, KeyPieces(extras, env));
  }

  lemma OneMoreSection(sections: seq<Section>, i: nat)
    requires i < |sections|
    ensures forall k :: InSections(sections[..i + 1], k) <==> InSections(sections[..i], k) || k in sections[i].keys
  {
    assert sections[..i + 1] == sections[..i] + [sections[i]];
  }

  lemma ExtrasStep(sections: seq<Section>, order: seq<string>, i: nat)
    requires i < |order|
    ensures Extras(sections, order[..i + 1]) ==
              if InSections(sections, order[i]) then Extras(sections, order[..i])
              else Extras(sections, order[..i]) + [order[i]]
  {
    assert order[..i + 1][..i] == order[..i];
  }

  /** The text of the file, piece by piece: `KEY="escaped value"` for each set key in the
      order given; a blank line and the comment before the keys of a section that has one
      set; and last, under `# Other`, the set keys of no section. */
  lemma ExportTextExactly(header: string, ss: seq<Section>, x: Section, ks: seq<string>, k: string, order: seq<string>, env: Env)
    ensures Render(KeyPieces([], env)) == "" && Render(SectionsPieces([], env)) == ""
    ensures Render(KeyPieces(ks + [k], env)) ==
              Render(KeyPieces(ks, env)) + if k in env then k + "=\"" + Escape(env[k]) + "\"\n" else ""
    ensures Render(SectionsPieces(ss + [x], env)) ==
              Render(SectionsPieces(ss, env))
              + if exists j <- x.keys :: j in env then "\n" + x.comment + "\n" + Render(KeyPieces(x.keys, env)) else ""
    ensures Render(ExportPieces(header, ss, order, env)) ==
              header + "\n" + Render(SectionsPieces(ss, env))
              + if exists j <- order :: !InSections(ss, j)
                then "\n# Other\n" + Render(KeyPieces(Extras(ss, order), env)) else ""
  {
    hide Render, KeyPieces, SectionsPieces, Extras, InSections, SectionPieces;
    EmptyExports(env);
    KeyText(ks, k, env);
    SectionsText(ss, x, env);
    WholeText(header, ss, order, env);
  }

  lemma EmptyExports(env: Env)
    ensures Render(KeyPieces([], env)) == "" && Render(SectionsPieces([], env)) == ""
  {
  }

  lemma KeyText(ks: seq<string>, k: string, env: Env)
    ensures Render(KeyPieces(ks + [k], env)) ==
              Render(KeyPieces(ks, env)) + if k in env then k + "=\"" + Escape(env[k]) + "\"\n" else ""
  {
    hide Render, Escape;
    assert (ks + [k])[..|ks|] == ks;
    if k in env {
      var p := Setting(Var(k, env[k]));
      RenderAppend(KeyPieces(ks, env), [p]);
      RenderOne(p);
      assert "\"" + "\n" == "\"\n";
      Associative(k + "=\"" + Escape(env[k]), "\"", "\n");
    } else {
      assert Render(KeyPieces(ks, env)) + "" == Render(KeyPieces(ks, env));
    }
  }

  lemma SectionsText(ss: seq<Section>, x: Section, env: Env)
    ensures Render(SectionsPieces(ss + [x], env)) ==
              Render(SectionsPieces(ss, env))
              + if exists j <- x.keys :: j in env then "\n" + x.comment + "\n" + Render(KeyPieces(x.keys, env)) else ""
  {
    hide Render, KeyPieces, SectionPieces;
    assert (ss + [x])[..|ss|] == ss;
    RenderAppend(SectionsPieces(ss, env), SectionPieces(x, env));
    SectionText(x, env);
  }

  lemma WholeText(header: string, ss: seq<Section>, order: seq<string>, env: Env)
    ensures Render(ExportPieces(header, ss, order, env)) ==
              header + "\n" + Render(SectionsPieces(ss, env))
              + if exists j <- order :: !InSections(ss, j)
                then "\n# Other\n" + Render(KeyPieces(Extras(ss, order), env)) else ""
  {
    hide Render, KeyPieces, SectionsPieces, Extras, InSections;
    var extras := Extras(ss, order);
    ExtrasAre(ss, order);
    RenderOne(Note(header));
    RenderAppend([Note(header)], SectionsPieces(ss, env));
    var body := [Note(header)] + SectionsPieces(ss, env);
    var other := [Note(""), Note(OTHER)] + KeyPieces(extras, env);
    if extras == [] {
      assert body + [] == body && Render(body) + "" == Render(body);
    } else {
      assert extras[0] in extras;
      OtherText(extras, env);
      RenderAppend(body, other);
      assert "\n" + OTHER + "\n" == "\n# Other\n";
    }
  }

  // ---- importing it ---------------------------------------------------------

  /** The variables after upserting the pairs in order. */
  function Applied(pairs: seq<Pair>): Env {
    if |pairs| == 0 then map[]
    else
      var last := pairs[|pairs| - 1];
      Applied(pairs[..|pairs| - 1])[last.key := last.value]
  }

  lemma {:induction false} AppliedAre(pairs: seq<Pair>)
    ensures forall k :: k in Applied(pairs) <==> exists p :: p in pairs && p.key == k
    ensures forall k :: k in Applied(pairs) ==> exists p :: p in pairs && p.key == k && p.value == Applied(pairs)[k]
  {
    if |pairs| > 0 {
      var init, last := pairs[..|pairs| - 1], pairs[|pairs| - 1];
      AppliedAre(init);
      assert last in pairs && forall p :: p in init ==> p in pairs;
      assert pairs == init + [last];
    }
  }

  lemma {:induction false} SettingsAre(pieces: seq<Piece>, n: nat)
    requires n <= |pieces|
    ensures forall p <- Settings(pieces, n) :: Setting(Var(p.key, p.value)) in pieces
    ensures forall i :: 0 <= i < n && pieces[i].Setting? ==>
              Pair(pieces[i].v.key, pieces[i].v.value, i + 1) in Settings(pieces, n)
  {
    if n > 0 {
      SettingsAre(pieces, n - 1);
      assert pieces[n - 1] in pieces;
    }
  }

  lemma AppliedSettings(pieces: seq<Piece>, env: Env)
    requires Sets(pieces, env, env.Keys)
    ensures Applied(Settings(pieces, |pieces|)) == env
  {
    var pairs := Settings(pieces, |pieces|);
    var got := Applied(pairs);
    SettingsAre(pieces, |pieces|);
    AppliedAre(pairs);
    hide Applied, Settings;
    forall k
      ensures k in got <==> k in env
      ensures k in got ==> got[k] == env[k]
    {
      if k in got {
        var p :| p in pairs && p.key == k && p.value == got[k];
        assert Setting(Var(p.key, p.value)) in pieces;
      }
      if k in env {
        var q :| q in pieces && q.Setting? && q.v.key == k;
        var i :| 0 <= i < |pieces| && pieces[i] == q;
        assert Pair(q.v.key, q.v.value, i + 1) in pairs;
      }
    }
  }

  /** A variable whose line is too long is not imported. */
  lemma LongIsMissing(pieces: seq<Piece>, env: Env, keys: Keys, k: string)
    requires (forall p <- pieces :: Writable(p)) && Sets(pieces, env, env.Keys)
    requires '\0' !in Render(pieces) && k in env && Utf8Len(RenderLine(Var(k, env[k]))) > 4096
    ensures k !in Applied(Parse(Render(pieces), keys).pairs)
  {
    hide Parse, ContentLines, Writable, Classify, Applied, Increasing, AllEntries, RenderLine, Utf8Len;
    var pairs := Parse(Render(pieces), keys).pairs;
    PairsAreEntries(Render(pieces), keys);
    RenderedLines(pieces);
    AppliedAre(pairs);
    forall p | p in pairs
      ensures p.key != k
    {
      var q := pieces[p.line - 1];
      assert q in pieces && Rendered(pieces)[p.line - 1] == PieceLine(q);
      PieceRead(q);
      assert Classify(PieceLine(q)) == Entry(p.key, p.value);
    }
  }

  /** Exporting any environment with valid names and importing the file into an empty
      table gives the environment back, with no hard error, exactly when no value holds
      a NUL and no line exceeds 4096 bytes. */
  lemma ImportOfExportExactly(header: string, sections: seq<Section>, order: seq<string>, env: Env, keys: Keys)
    requires IsNote(header) && (forall s <- sections :: IsNote(s.comment))
    requires (forall k :: k in order <==> k in env) && (forall k <- env :: IsValidKey(k))
    ensures var r := Parse(Render(ExportPieces(header, sections, order, env)), keys);
            r.hardErrors == [] && Applied(r.pairs) == env <==> forall k <- env :: Survives(Var(k, env[k]))
  {
    hide IsNote, IsValidKey, ExportPieces, Render, Parse, Applied, Settings, RenderLine, Utf8Len;
    var pieces := ExportPieces(header, sections, order, env);
    ExportSetsEnv(header, sections, order, env);
    ExportIsWritable(header, sections, order, env);
    RoundTripExactly(pieces, keys);
    AppliedSettings(pieces, env);
    NulRendered(pieces);
    if '\0' in Render(pieces) {
      NulRejected(pieces, keys);
    } else {
      forall k | k in env && Utf8Len(RenderLine(Var(k, env[k]))) > 4096
        ensures k !in Applied(Parse(Render(pieces), keys).pairs)
      {
        LongIsMissing(pieces, env, keys, k);
      }
    }
  }

  lemma NulRejected(pieces: seq<Piece>, keys: Keys)
    requires '\0' in Render(pieces)
    ensures Parse(Render(pieces), keys).hardErrors != []
  {
  }

  lemma ExportIsWritable(header: string, sections: seq<Section>, order: seq<string>, env: Env)
    requires IsNote(header) && (forall s <- sections :: IsNote(s.comment))
    requires (forall k :: k in order <==> k in env) && (forall k <- env :: IsValidKey(k))
    ensures forall p <- ExportPieces(header, sections, order, env) :: Writable(p)
  {
    hide SectionsPieces, IsValidKey, KeyPieces, Extras, Sets;
    SectionNotes(sections, env);
    KeyPiecesSet(Extras(sections, order), env);
    ExportSetsEnv(header, sections, order, env);
    SettingsAreValid(ExportPieces(header, sections, order, env), env);
    assert IsNote("") && IsNote(OTHER);
  }

  lemma SettingsAreValid(pieces: seq<Piece>, env: Env)
    requires Sets(pieces, env, env.Keys) && forall k <- env :: IsValidKey(k)
    ensures forall p <- pieces :: p.Setting? ==> IsValidKey(p.v.key)
  {
  }

  lemma {:induction false} SectionNotes(sections: seq<Section>, env: Env)
    requires forall s <- sections :: IsNote(s.comment)
    ensures forall p <- SectionsPieces(sections, env) :: p.Note? ==> IsNote(p.text)
  {
    hide KeyPieces, IsNote;
    if |sections| > 0 {
      SectionNotes(sections[..|sections| - 1], env);
      var s := sections[|sections| - 1];
      assert s in sections;
      KeyPiecesSet(s.keys, env);
      EmptyIsNote();
    }
  }

  lemma EmptyIsNote()
    ensures IsNote("")
  {
  }
}
