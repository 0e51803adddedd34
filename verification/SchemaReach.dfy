/** Which schemas an endpoint needs (scripts/condense-openapi.py). */
module SchemaReach {
  import opened Text

  /** A parsed JSON document; an object holds each key once. */
  datatype Json = Obj(fields: seq<Field>) | Arr(items: seq<Json>) | Str(text: string) | Scalar
  datatype Field = Field(key: string, value: Json)

  const SCHEMAS := "#/components/schemas/"

  /** `obj.get("$ref", "")` read as a schema reference; `NotText` makes the script
      raise, as only a string has `startswith`. */
  datatype Ref = Absent | To(name: string) | NotText

  function Get(fields: seq<Field>, key: string): Option<Json> {
    if |fields| == 0 then None
    else if fields[0].key == key then Some(fields[0].value)
    else Get(fields[1..], key)
  }

  /** `s.split("/")[-1]`: the longest slash-free suffix. */
  function LastPart(s: string): (r: string)
    ensures '/' !in r && |r| <= |s| && s[|s| - |r|..] == r
    ensures |r| < |s| ==> s[|s| - |r| - 1] == '/'
  {
    if |s| == 0 || s[|s| - 1] == '/' then ""
    else LastPart(s[..|s| - 1]) + [s[|s| - 1]]
  }

  /** `raw_ref`. */
  function RawRef(fields: seq<Field>): Ref {
    match Get(fields, "$ref")
    case None => Absent
    case Some(Str(t)) => if SCHEMAS <= t then To(LastPart(t)) else Absent
    case Some(_) => NotText
  }

  /** `j` is the value of the key in the object. */
  ghost predicate Holds(fields: seq<Field>, key: string, j: Json) {
    exists i :: 0 <= i < |fields| && fields[i] == Field(key, j) && forall k :: 0 <= k < i ==> fields[k].key != key
  }

  lemma {:induction false} GetExactly(fields: seq<Field>, key: string, j: Json)
    ensures Get(fields, key) == Some(j) <==> Holds(fields, key, j)
  {
    if |fields| > 0 {
      var rest := fields[1..];
      assert fields == [fields[0]] + rest;
      GetExactly(rest, key, j);
      if fields[0].key != key {
        forall i | 0 <= i < |rest|
          ensures fields[i + 1] == rest[i]
        {
        }
      }
    }
  }

  /** The object's `$ref` is a text that begins as a schema reference does, and `name` is
      what follows the last slash of it. */
  ghost predicate NamesSchema(fields: seq<Field>, name: string) {
    exists t: string, folder: string ::
      && Holds(fields, "$ref", Str(t)) && "#/components/schemas/" <= t
      && t == folder + "/" + name && '/' !in name
  }

  /** The object's `$ref` is no text. */
  ghost predicate BadRef(fields: seq<Field>) {
    exists j :: Holds(fields, "$ref", j) && !j.Str?
  }

  lemma RawRefExactly(fields: seq<Field>, name: string)
    ensures RawRef(fields) == To(name) <==> NamesSchema(fields, name)
    ensures RawRef(fields) == NotText <==> BadRef(fields)
  {
    hide Holds, LastPart, Get;
    forall j {
      GetExactly(fields, "$ref", j);
    }
    match Get(fields, "$ref")
    case Some(Str(t)) =>
      var r := LastPart(t);
      if SCHEMAS <= t {
        assert t[20] == '/';
        assert |r| < |t|;
        assert t == t[..|t| - |r| - 1] + "/" + r;
        forall folder: string, n: string | t == folder + "/" + n && '/' !in n
          ensures n == r
        {
          LastPartIs(t, folder, n);
        }
      }
    case _ =>
  }

  lemma {:induction false} LastPartIs(t: string, folder: string, name: string)
    requires t == folder + "/" + name && '/' !in name
    ensures LastPart(t) == name
  {
    var n := |name|;
    if n > 0 {
      assert t[..|t| - 1] == folder + "/" + name[..n - 1];
      LastPartIs(t[..|t| - 1], folder, name[..n - 1]);
      assert name == name[..n - 1] + [name[n - 1]];
    }
  }

  function Own(j: Json): set<string> {
    if j.Obj? && RawRef(j.fields).To? && RawRef(j.fields).name != "" then {RawRef(j.fields).name} else {}
  }

  /** Documents directly inside `j`. */
  function Part(j: Json, i: nat): (c: Json)
    requires i < Parts(j)
    ensures c < j
  {
    if j.Obj? then j.fields[i].value else j.items[i]
  }

  function Parts(j: Json): nat {
    match j
    case Obj(fields) => |fields|
    case Arr(items) => |items|
    case _ => 0
  }

  /** All schema names referenced in `j`, at any depth. */
  function Refs(j: Json): set<string> {
    Own(j) + (set i: nat, r | i < Parts(j) && r in Refs(Part(j, i)) :: r)
  }

  /** The walk over `j` raises. */
  predicate Fails(j: Json) {
    (j.Obj? && RawRef(j.fields) == NotText) || exists i: nat :: i < Parts(j) && Fails(Part(j, i))
  }

  // ---- what the walk finds --------------------------------------------------

  /** `o` is `j` or nested in it. */
  ghost predicate Inside(o: Json, j: Json)
    decreases j
  {
    o == j || exists i: nat :: i < Parts(j) && Inside(o, Part(j, i))
  }

  lemma InsideExactly(o: Json, j: Json)
    ensures Inside(o, j) <==>
              || o == j
              || (j.Obj? && exists i :: 0 <= i < |j.fields| && Inside(o, j.fields[i].value))
              || (j.Arr? && exists i :: 0 <= i < |j.items| && Inside(o, j.items[i]))
  {
    if i: nat :| j.Obj? && i < |j.fields| && Inside(o, j.fields[i].value) {
      assert Inside(o, Part(j, i));
    }
    if i: nat :| j.Arr? && i < |j.items| && Inside(o, j.items[i]) {
      assert Inside(o, Part(j, i));
    }
  }

  ghost predicate RefersTo(j: Json, name: string) {
    name != "" && exists o :: Inside(o, j) && o.Obj? && NamesSchema(o.fields, name)
  }

  lemma RefersUp(j: Json, i: nat, name: string)
    requires i < Parts(j) && RefersTo(Part(j, i), name)
    ensures RefersTo(j, name)
  {
    hide NamesSchema;
    var o :| Inside(o, Part(j, i)) && o.Obj? && NamesSchema(o.fields, name);
    assert Inside(o, j);
  }

  lemma RefersDown(j: Json, name: string)
    requires RefersTo(j, name)
    ensures name in Own(j) || exists i: nat :: i < Parts(j) && RefersTo(Part(j, i), name)
  {
    hide RawRef, NamesSchema;
    var o :| Inside(o, j) && o.Obj? && NamesSchema(o.fields, name);
    if o == j {
      RawRefExactly(j.fields, name);
    } else {
      var i: nat :| i < Parts(j) && Inside(o, Part(j, i));
      assert RefersTo(Part(j, i), name);
    }
  }

  lemma OwnRefers(j: Json, name: string)
    requires name in Own(j)
    ensures RefersTo(j, name)
  {
    hide RawRef, NamesSchema;
    RawRefExactly(j.fields, name);
    assert Inside(j, j);
  }

  /** The walk collects the names in nested references, and nothing else. */
  lemma {:induction false} RefsExactly(j: Json, name: string)
    ensures name in Refs(j) <==> RefersTo(j, name)
    decreases j
  {
    hide RefersTo, Own, Part, Parts;
    forall i: nat | i < Parts(j)
      ensures name in Refs(Part(j, i)) <==> RefersTo(Part(j, i), name)
    {
      RefsExactly(Part(j, i), name);
    }
    if name in Own(j) {
      OwnRefers(j, name);
    } else if name in Refs(j) {
      var i: nat :| i < Parts(j) && name in Refs(Part(j, i));
      RefersUp(j, i, name);
    } else if RefersTo(j, name) {
      RefersDown(j, name);
    }
  }

  /** It raises exactly on a nested `$ref` that is not a string. */
  lemma {:induction false} FailsExactly(j: Json)
    ensures Fails(j) <==> exists o :: Inside(o, j) && o.Obj? && BadRef(o.fields)
    decreases j
  {
    hide RawRef, BadRef;
    if j.Obj? {
      RawRefExactly(j.fields, "");
    }
    forall i: nat | i < Parts(j)
      ensures Fails(Part(j, i)) <==> exists o :: Inside(o, Part(j, i)) && o.Obj? && BadRef(o.fields)
    {
      FailsExactly(Part(j, i));
    }
    if j.Obj? && RawRef(j.fields) == NotText {
      assert Inside(j, j);
    } else if i: nat :| i < Parts(j) && Fails(Part(j, i)) {
      var o :| Inside(o, Part(j, i)) && o.Obj? && BadRef(o.fields);
      assert Inside(o, j);
    }
  }

  function FirstParts(j: Json, n: nat): set<string>
    requires n <= Parts(j)
  {
    set i: nat, r | i < n && r in Refs(Part(j, i)) :: r
  }

  lemma RefsStep(j: Json, n: nat)
    requires n < Parts(j)
    ensures FirstParts(j, n + 1) == FirstParts(j, n) + Refs(Part(j, n))
  {
    hide Refs, Part, Parts;
  }

  lemma RefsWhole(j: Json)
    ensures Refs(j) == Own(j) + FirstParts(j, Parts(j))
    ensures FirstParts(j, 0) == {}
  {
  }

  /** `_walk`: adds to the shared set as it descends. */
  method Walk(j: Json, shared: set<string>) returns (ok: bool, refs: set<string>)
    ensures ok == !Fails(j)
    ensures ok ==> refs == shared + Refs(j)
    decreases j
  {
    hide Refs, RawRef, Part, FirstParts;
    refs := shared;
    if j.Obj? {
      var r := RawRef(j.fields);
      if r == NotText {
        return false, refs;
      }
      if r.To? && r.name != "" {
        refs := refs + {r.name};
      }
    }
    RefsWhole(j);
    var i: nat := 0;
    while i < Parts(j)
      invariant i <= Parts(j)
      invariant refs == shared + Own(j) + FirstParts(j, i)
      invariant forall k: nat :: k < i ==> !Fails(Part(j, k))
    {
      ok, refs := Walk(Part(j, i), refs);
      if !ok {
        return;
      }
      RefsStep(j, i);
      i := i + 1;
    }
    ok := true;
  }

  method CollectRefsFromSchema(schema: Json) returns (ok: bool, refs: set<string>)
    ensures ok == !Fails(schema)
    ensures ok ==> refs == Refs(schema)
  {
    ok, refs := Walk(schema, {});
  }

  // ---- reachability ---------------------------------------------------------

  /** `all_schemas.get(name, {})`: a dangling name has no references. */
  function Schema(all: map<string, Json>, name: string): Json {
    if name in all then all[name] else Obj([])
  }

  function Links(all: map<string, Json>, name: string): set<string> {
    Refs(Schema(all, name))
  }

  ghost predicate IsPath(all: map<string, Json>, path: seq<string>) {
    |path| > 0 && forall k :: 0 < k < |path| ==> path[k] in Links(all, path[k - 1])
  }

  ghost predicate PathTo(roots: set<string>, all: map<string, Json>, path: seq<string>, name: string) {
    IsPath(all, path) && path[0] in roots && path[|path| - 1] == name
  }

  ghost predicate Reachable(roots: set<string>, all: map<string, Json>, name: string) {
    exists path :: PathTo(roots, all, path, name)
  }

  ghost predicate Closed(roots: set<string>, all: map<string, Json>, s: set<string>) {
    roots <= s && forall n :: n in s ==> Links(all, n) <= s
  }

  lemma RootReachable(roots: set<string>, all: map<string, Json>, name: string)
    requires name in roots
    ensures Reachable(roots, all, name)
  {
    assert PathTo(roots, all, [name], name);
  }

  lemma LinkReachable(roots: set<string>, all: map<string, Json>, name: string, next: string)
    requires Reachable(roots, all, name) && next in Links(all, name)
    ensures Reachable(roots, all, next)
  {
    hide Links;
    var path :| PathTo(roots, all, path, name);
    assert PathTo(roots, all, path + [next], next);
  }

  /** A path from a root never leaves a closed set. */
  lemma {:induction false} ClosedKeepsPaths(roots: set<string>, all: map<string, Json>, s: set<string>, path: seq<string>)
    requires Closed(roots, all, s) && IsPath(all, path) && path[0] in roots
    ensures path[|path| - 1] in s
    decreases |path|
  {
    hide Links;
    if |path| > 1 {
      var front := path[..|path| - 1];
      ClosedKeepsPaths(roots, all, s, front);
      assert path[|path| - 1] in Links(all, front[|front| - 1]);
    }
  }

  lemma ReachableIsLeast(roots: set<string>, all: map<string, Json>, s: set<string>, name: string)
    requires Closed(roots, all, s) && Reachable(roots, all, name)
    ensures name in s
  {
    hide Links;
    var path :| PathTo(roots, all, path, name);
    ClosedKeepsPaths(roots, all, s, path);
  }

  ghost function Universe(roots: set<string>, all: map<string, Json>): set<string> {
    roots + set k, c | k in all.Keys && c in Refs(all[k]) :: c
  }

  lemma LinksInUniverse(roots: set<string>, all: map<string, Json>, name: string)
    ensures Links(all, name) <= Universe(roots, all)
  {
    if name !in all {
      assert Own(Obj([])) == {} && Parts(Obj([])) == 0;
      assert Refs(Obj([])) == {};
    }
  }

  lemma Shrinks(u: set<string>, v: set<string>, x: string)
    requires x in u && x !in v
    ensures |u - (v + {x})| < |u - v|
  {
    assert u - (v + {x}) == u - v - {x};
  }

  /** Nothing is missing: a root or a reference of a visited name has been visited
      or waits in the frontier. */
  ghost predicate Explored(roots: set<string>, all: map<string, Json>, visited: set<string>, frontier: set<string>) {
    && roots <= visited + frontier
    && forall n :: n in visited ==> Links(all, n) <= visited + frontier && !Fails(Schema(all, n))
  }

  /** Nothing is extra. */
  ghost predicate AllReachable(roots: set<string>, all: map<string, Json>, s: set<string>) {
    forall n :: n in s ==> Reachable(roots, all, n)
  }

  lemma Start(roots: set<string>, all: map<string, Json>)
    ensures Explored(roots, all, {}, roots) && AllReachable(roots, all, roots) && roots <= Universe(roots, all)
  {
    forall n | n in roots
      ensures Reachable(roots, all, n)
    {
      RootReachable(roots, all, n);
    }
  }

  lemma SkipVisited(roots: set<string>, all: map<string, Json>, visited: set<string>, frontier: set<string>, current: string)
    requires Explored(roots, all, visited, frontier) && current in visited
    ensures Explored(roots, all, visited, frontier - {current})
  {
    hide Links, Fails, Schema;
    assert visited + (frontier - {current}) == visited + frontier;
  }

  lemma Visit(roots: set<string>, all: map<string, Json>, visited: set<string>, frontier: set<string>, current: string)
    requires Explored(roots, all, visited, frontier) && current in frontier && !Fails(Schema(all, current))
    ensures var v := visited + {current};
            Explored(roots, all, v, frontier - {current} + (Links(all, current) - v))
  {
    hide Links, Fails, Schema;
    var v := visited + {current};
    assert v + (frontier - {current} + (Links(all, current) - v)) == visited + frontier + Links(all, current);
  }

  lemma LinksReachable(roots: set<string>, all: map<string, Json>, current: string)
    requires Reachable(roots, all, current)
    ensures AllReachable(roots, all, Links(all, current))
  {
    hide Links, Reachable;
    forall n | n in Links(all, current)
      ensures Reachable(roots, all, n)
    {
      LinkReachable(roots, all, current, n);
    }
  }

  lemma Finish(roots: set<string>, all: map<string, Json>, visited: set<string>)
    requires Explored(roots, all, visited, {}) && AllReachable(roots, all, visited)
    ensures Closed(roots, all, visited)
    ensures forall n :: n in visited <==> Reachable(roots, all, n)
    ensures forall s :: Closed(roots, all, s) ==> visited <= s
    ensures forall n :: Reachable(roots, all, n) ==> !Fails(Schema(all, n))
  {
    hide Links, Reachable, Fails, Schema;
    assert visited + {} == visited;
    assert Closed(roots, all, visited);
    forall s, n | Closed(roots, all, s) && n in visited
      ensures n in s
    {
      ReachableIsLeast(roots, all, s, n);
    }
    forall n | Reachable(roots, all, n)
      ensures n in visited
    {
      ReachableIsLeast(roots, all, visited, n);
    }
  }

  lemma LinksAre(all: map<string, Json>, name: string)
    ensures Links(all, name) == Refs(Schema(all, name))
  {
  }

  /** `collect_reachable_schemas`: names popped in any order, cycles and dangling names
      included. It returns exactly the names reachable from the roots, which is the
      least set that holds the roots and is closed under references; it raises exactly
      when the schema of a reachable name does. */
  method CollectReachableSchemas(roots: set<string>, all: map<string, Json>) returns (ok: bool, visited: set<string>)
    ensures ok <==> forall n :: Reachable(roots, all, n) ==> !Fails(Schema(all, n))
    ensures ok ==> forall n :: n in visited <==> Reachable(roots, all, n)
    ensures ok ==> Closed(roots, all, visited)
    ensures ok ==> forall s :: Closed(roots, all, s) ==> visited <= s
  {
    hide Links, Refs, Fails, Schema, Reachable, Universe, Explored;
    visited := {};
    var frontier := roots;
    ghost var u := Universe(roots, all);
    Start(roots, all);
    while frontier != {}
      invariant visited <= u && frontier <= u
      invariant AllReachable(roots, all, visited) && AllReachable(roots, all, frontier)
      invariant Explored(roots, all, visited, frontier)
      decreases |u - visited|, |frontier|
    {
      var current :| current in frontier;
      if current in visited {
        SkipVisited(roots, all, visited, frontier, current);
        frontier := frontier - {current};
      } else {
        var fine, childRefs := CollectRefsFromSchema(Schema(all, current));
        if !fine {
          return false, visited;
        }
        LinksAre(all, current);
        LinksInUniverse(roots, all, current);
        LinksReachable(roots, all, current);
        Visit(roots, all, visited, frontier, current);
        Shrinks(u, visited, current);
        visited := visited + {current};
        frontier := frontier - {current} + (childRefs - visited);
      }
    }
    Finish(roots, all, visited);
    ok := true;
  }
}
