/**
 * Model of the required-field coverage reporter.
 *
 * The source compiles a schema tree to flat path strings and then checks each string against a
 * document. Here the strings, their splitting and the walk are modelled as the source has them, and
 * the compilation is proved to preserve the meaning of the schema given by direct recursion.
 */
module RequiredCoverage {
  import opened Common

  datatype Json =
    | Null
    | Bool(b: bool)
    | Int(i: int)
    | Float(r: real)
    | Str(s: string)
    | Arr(elems: seq<Json>)
    | Obj(fields: map<string, Json>)

  /**
   * The part of a JSON Schema the reporter looks at. `typ` is None when "type" is absent or not a
   * string; `items` is NotADict when absent.
   */
  datatype Schema =
    | NotADict
    | Dict(typ: Option<string>, required: seq<string>, properties: map<string, Schema>, items: Schema)

  datatype Verdict = Missing | WrongType | IsNull | Present

  type TypedPath = (string, Option<string>)

  predicate IsObjectSchema(s: Schema) {
    s.Dict? && s.typ == Some("object")
  }

  // ---------------------------------------------------------------------------
  // Compilation to path strings
  // ---------------------------------------------------------------------------

  /** Paths of a schema under the prefix `base`, depth first in declaration order. */
  function RequiredPaths(s: Schema, base: string): seq<TypedPath>
    decreases s, 2, 0
  {
    if IsObjectSchema(s) then NamedPaths(s, s.required, base) else []
  }

  function NamedPaths(s: Schema, names: seq<string>, base: string): seq<TypedPath>
    requires s.Dict?
    decreases s, 1, |names|
  {
    if names == [] then [] else FieldPaths(s, names[0], base) + NamedPaths(s, names[1..], base)
  }

  function FieldPaths(s: Schema, name: string, base: string): seq<TypedPath>
    requires s.Dict?
    decreases s, 0, 0
  {
    var path := base + "/" + name;
    if name !in s.properties then [(path, None)]
    else
      var sub := s.properties[name];
      var typ := if sub.Dict? then sub.typ else None;
      [(path, typ)] +
      if typ == Some("object") then RequiredPaths(sub, path)
      else if typ == Some("array") && IsObjectSchema(sub.items) then RequiredPaths(sub.items, path + "[]")
      else []
  }

  // ---------------------------------------------------------------------------
  // Checking one path against one document
  // ---------------------------------------------------------------------------

  /** One more character: a '/' opens a new part, any other extends the last one. */
  function Extend(parts: seq<string>, c: char): (r: seq<string>)
    requires parts != []
    ensures r != []
  {
    if c == '/' then parts + [""]
    else parts[..|parts| - 1] + [parts[|parts| - 1] + [c]]
  }

  /** Splitting at every '/', empty parts included. */
  function Split(s: string): (parts: seq<string>)
    ensures parts != []
  {
    if s == "" then [""] else Extend(Split(s[..|s| - 1]), s[|s| - 1])
  }

  function NonEmpty(parts: seq<string>): seq<string> {
    if parts == [] then []
    else if parts[|parts| - 1] == "" then NonEmpty(parts[..|parts| - 1])
    else NonEmpty(parts[..|parts| - 1]) + [parts[|parts| - 1]]
  }

  function Parts(path: string): seq<string> {
    NonEmpty(Split(path))
  }

  predicate EndsInBrackets(s: string) {
    |s| >= 2 && s[|s| - 2..] == "[]"
  }

  /** Classes of the source language's values; bool is a subclass of int there. */
  datatype PyClass = PyStr | PyInt | PyFloat | PyBool | PyList | PyDict | PyNone

  function ClassOf(v: Json): PyClass {
    match v
    case Null => PyNone
    case Bool(_) => PyBool
    case Int(_) => PyInt
    case Float(_) => PyFloat
    case Str(_) => PyStr
    case Arr(_) => PyList
    case Obj(_) => PyDict
  }

  predicate IsInstance(v: Json, classes: set<PyClass>) {
    ClassOf(v) in classes || (v.Bool? && PyInt in classes)
  }

  function TypeTable(t: string): Option<set<PyClass>> {
    if t == "string" then Some({PyStr})
    else if t == "integer" then Some({PyInt})
    else if t == "number" then Some({PyInt, PyFloat})
    else if t == "boolean" then Some({PyBool})
    else if t == "array" then Some({PyList})
    else if t == "object" then Some({PyDict})
    else if t == "null" then Some({PyNone})
    else None
  }

  function Arrive(node: Json, expected: Option<string>): Verdict {
    if node.Null? then IsNull
    else if expected.Some? && TypeTable(expected.value).Some? && !IsInstance(node, TypeTable(expected.value).value)
    then WrongType
    else if expected == Some("integer") && node.Bool? then WrongType
    else Present
  }

  /** The values a schema type admits: booleans count as numbers but not as integers, nothing is null. */
  predicate TypeMatches(t: string, v: Json) {
    && (t == "string" ==> v.Str?)
    && (t == "integer" ==> v.Int?)
    && (t == "number" ==> v.Int? || v.Float? || v.Bool?)
    && (t == "boolean" ==> v.Bool?)
    && (t == "array" ==> v.Arr?)
    && (t == "object" ==> v.Obj?)
    && (t == "null" ==> v.Null?)
  }

  /** A value arrives as present exactly when it is not null and its type admits it. */
  lemma ArrivalChecksType(node: Json, expected: Option<string>)
    ensures Arrive(node, expected) == Present <==> !node.Null? && (expected.Some? ==> TypeMatches(expected.value, node))
    ensures Arrive(node, expected) == IsNull <==> node.Null?
    ensures Arrive(node, Some("null")) != Present
  {
    if expected.Some? {
      var t := expected.value;
      assert TypeTable(t).None? ==> TypeMatches(t, node);
    }
  }

  function Priority(v: Verdict): nat {
    match v
    case Missing => 3
    case WrongType => 2
    case IsNull => 1
    case Present => 0
  }

  function Worse(a: Verdict, b: Verdict): Verdict {
    if Priority(b) > Priority(a) then b else a
  }

  function Walk(node: Json, parts: seq<string>, expected: Option<string>): Verdict
    decreases |parts|, 0
  {
    if parts == [] then Arrive(node, expected)
    else
      var head, rest := parts[0], parts[1..];
      if EndsInBrackets(head) then
        var key := head[..|head| - 2];
        if !node.Obj? || key !in node.fields then Missing
        else
          var arr := node.fields[key];
          if !arr.Arr? || arr.elems == [] then Missing else WalkEach(arr.elems, rest, expected)
      else if !node.Obj? then Missing
      else if head !in node.fields then Missing
      else Walk(node.fields[head], rest, expected)
  }

  /** The worst verdict over the elements of an array. */
  function WalkEach(elems: seq<Json>, rest: seq<string>, expected: Option<string>): Verdict
    decreases |rest|, 1, |elems|
  {
    if elems == [] then Present
    else Worse(WalkEach(elems[..|elems| - 1], rest, expected), Walk(elems[|elems| - 1], rest, expected))
  }

  function CheckPath(doc: Json, path: string, expected: Option<string>): Verdict {
    Walk(doc, Parts(path), expected)
  }

  /** What the reporter counts as a document with all required fields present. */
  ghost predicate AllPresent(paths: seq<TypedPath>, doc: Json) {
    forall i :: 0 <= i < |paths| ==> CheckPath(doc, paths[i].0, paths[i].1) == Present
  }

  // ---------------------------------------------------------------------------
  // Reference meaning: direct recursive validation
  // ---------------------------------------------------------------------------

  /** Every required name is a field that is present, well typed and itself accepted. */
  ghost predicate Accepts(s: Schema, doc: Json)
    decreases s, 1
  {
    IsObjectSchema(s) ==> forall name :: name in s.required ==> FieldAccepted(s, name, doc)
  }

  /** An array of objects with required fields must be non-empty and accepted element by element. */
  ghost predicate FieldAccepted(s: Schema, name: string, doc: Json)
    requires s.Dict?
    decreases s, 0
  {
    && doc.Obj? && name in doc.fields && !doc.fields[name].Null?
    && (name in s.properties && s.properties[name].Dict? ==>
          var sub, v := s.properties[name], doc.fields[name];
          && (sub.typ.Some? ==> TypeMatches(sub.typ.value, v))
          && (sub.typ == Some("object") ==> Accepts(sub, v))
          && (sub.typ == Some("array") && IsObjectSchema(sub.items) && sub.items.required != [] ==>
                v.elems != [] && forall i :: 0 <= i < |v.elems| ==> Accepts(sub.items, v.elems[i])))
  }

  // ---------------------------------------------------------------------------
  // Structured paths and their string form
  // ---------------------------------------------------------------------------

  /** One step of a path: into a field, or into every element of the array in a field. */
  datatype Hop = Key(name: string) | Each(name: string)

  function Label(h: Hop): string {
    if h.Key? then h.name else h.name + "[]"
  }

  function ParseHop(part: string): Hop {
    if EndsInBrackets(part) then Each(part[..|part| - 2]) else Key(part)
  }

  function Encode(hops: seq<Hop>): string {
    if hops == [] then "" else Encode(hops[..|hops| - 1]) + "/" + Label(hops[|hops| - 1])
  }

  function Decode(path: string): seq<Hop> {
    seq(|Parts(path)|, i requires 0 <= i < |Parts(path)| => ParseHop(Parts(path)[i]))
  }

  /** A hop whose label survives splitting and is read back as the same hop. */
  predicate Clean(h: Hop) {
    '/' !in h.name && (h.Key? ==> h.name != "" && !EndsInBrackets(h.name))
  }

  lemma SplitSnoc(s: string, c: char)
    ensures Split(s + [c]) == Extend(Split(s), c)
  {
    assert (s + [c])[..|s|] == s;
  }

  lemma ExtendConcat(a: seq<string>, b: seq<string>, c: char)
    requires b != []
    ensures Extend(a + b, c) == a + Extend(b, c)
  {
    if c != '/' {
      assert (a + b)[..|a + b| - 1] == a + b[..|b| - 1];
    }
  }

  lemma {:induction false} SplitConcat(s: string, t: string)
    ensures Split(s + "/" + t) == Split(s) + Split(t)
  {
    if t == "" {
      assert s + "/" + t == s + "/";
      SplitSnoc(s, '/');
    } else {
      var shorter, c := t[..|t| - 1], t[|t| - 1];
      SplitConcat(s, shorter);
      SplitSnoc(s + "/" + shorter, c);
      ExtendConcat(Split(s), Split(shorter), c);
      assert s + "/" + t == s + "/" + shorter + [c];
    }
  }

  lemma {:induction false} NonEmptyConcat(a: seq<string>, b: seq<string>)
    ensures NonEmpty(a + b) == NonEmpty(a) + NonEmpty(b)
  {
    if b == [] {
      assert a + b == a;
    } else {
      NonEmptyConcat(a, b[..|b| - 1]);
      assert (a + b)[..|a + b| - 1] == a + b[..|b| - 1];
    }
  }

  function Join(pieces: seq<seq<string>>): seq<string> {
    if pieces == [] then [] else Join(pieces[..|pieces| - 1]) + pieces[|pieces| - 1]
  }

  lemma JoinSnoc(pieces: seq<seq<string>>, x: seq<string>)
    ensures Join(pieces + [x]) == Join(pieces) + x
  {
    assert (pieces + [x])[..|pieces|] == pieces;
  }

  lemma {:induction false} JoinCons(x: seq<string>, pieces: seq<seq<string>>)
    ensures Join([x] + pieces) == x + Join(pieces)
  {
    if pieces == [] {
      JoinSnoc([], x);
      assert [x] + pieces == [] + [x];
    } else {
      var before, z := pieces[..|pieces| - 1], pieces[|pieces| - 1];
      JoinCons(x, before);
      JoinSnoc([x] + before, z);
      assert [x] + pieces == [x] + before + [z];
    }
  }

  function Pieces(hops: seq<Hop>): seq<seq<string>> {
    seq(|hops|, i requires 0 <= i < |hops| => Parts(Label(hops[i])))
  }

  /** The parts a path of hops is read as, whatever its names are. */
  function Steps(hops: seq<Hop>): seq<string> {
    Join(Pieces(hops))
  }

  lemma StepsUnder(h: Hop, hops: seq<Hop>)
    ensures Steps([h] + hops) == Parts(Label(h)) + Steps(hops)
  {
    PiecesUnder(h, hops);
    JoinCons(Parts(Label(h)), Pieces(hops));
  }

  lemma PiecesUnder(h: Hop, hops: seq<Hop>)
    ensures Pieces([h] + hops) == [Parts(Label(h))] + Pieces(hops)
  {
    var all := [h] + hops;
    forall i | 0 < i < |all| ensures Pieces(all)[i] == Pieces(hops)[i - 1] {
      assert all[i] == hops[i - 1];
    }
  }

  lemma StepsSnoc(hops: seq<Hop>, h: Hop)
    ensures Steps(hops + [h]) == Steps(hops) + Parts(Label(h))
  {
    PiecesSnoc(hops, h);
    JoinSnoc(Pieces(hops), Parts(Label(h)));
  }

  lemma PiecesSnoc(hops: seq<Hop>, h: Hop)
    ensures Pieces(hops + [h]) == Pieces(hops) + [Parts(Label(h))]
  {
  }

  lemma {:induction false} PartsAreSteps(hops: seq<Hop>)
    ensures Parts(Encode(hops)) == Steps(hops)
  {
    if hops == [] {
      assert Split("") == [""] && NonEmpty([""]) == NonEmpty([""][..0]) == [];
    } else {
      var before, last := hops[..|hops| - 1], hops[|hops| - 1];
      PartsAreSteps(before);
      PartsConcat(Encode(before), Label(last));
      StepsSnoc(before, last);
      assert hops == before + [last];
    }
  }

  lemma PartsConcat(s: string, t: string)
    ensures Parts(s + "/" + t) == Parts(s) + Parts(t)
  {
    SplitConcat(s, t);
    NonEmptyConcat(Split(s), Split(t));
  }

  lemma {:induction false} SplitPlain(name: string)
    requires '/' !in name
    ensures Split(name) == [name]
  {
    if name != "" {
      var shorter, c := name[..|name| - 1], name[|name| - 1];
      SplitPlain(shorter);
      assert Extend([shorter], c) == [shorter + [c]];
      assert name == shorter + [c];
    }
  }

  lemma CleanStep(h: Hop)
    requires Clean(h)
    ensures Parts(Label(h)) == [Label(h)]
  {
    CleanLabel(h);
    SplitPlain(Label(h));
    var one := [Label(h)];
    assert one[..|one| - 1] == [] && NonEmpty([]) == [];
    assert NonEmpty(one) == one;
  }

  lemma {:induction false} CleanSteps(hops: seq<Hop>)
    requires forall i :: 0 <= i < |hops| ==> Clean(hops[i])
    ensures Steps(hops) == Labels(hops)
  {
    if hops != [] {
      CleanSteps(hops[1..]);
      CleanStep(hops[0]);
      StepsUnder(hops[0], hops[1..]);
      assert hops == [hops[0]] + hops[1..];
      LabelsCons(hops);
    }
  }

  lemma LabelsCons(hops: seq<Hop>)
    requires hops != []
    ensures Labels(hops) == [Label(hops[0])] + Labels(hops[1..])
  {
  }

  function Labels(hops: seq<Hop>): seq<string> {
    seq(|hops|, i requires 0 <= i < |hops| => Label(hops[i]))
  }

  /** The parts of a rendered path are its labels, when every hop is clean. */
  lemma PartsOfEncoding(hops: seq<Hop>)
    requires forall i :: 0 <= i < |hops| ==> Clean(hops[i])
    ensures Parts(Encode(hops)) == Labels(hops)
  {
    PartsAreSteps(hops);
    CleanSteps(hops);
  }

  lemma CleanLabel(h: Hop)
    requires Clean(h)
    ensures '/' !in Label(h) && Label(h) != ""
  {
  }

  lemma ParseLabel(h: Hop)
    requires Clean(h)
    ensures ParseHop(Label(h)) == h
  {
    if h.Each? {
      assert Label(h)[|Label(h)| - 2..] == "[]" && Label(h)[..|Label(h)| - 2] == h.name;
    }
  }

  lemma {:induction false} SplitHasNoSlash(s: string, i: nat)
    requires i < |Split(s)|
    ensures '/' !in Split(s)[i]
  {
    if s != "" {
      var before := Split(s[..|s| - 1]);
      SplitHasNoSlash(s[..|s| - 1], if i < |before| then i else 0);
    }
  }

  lemma {:induction false} NonEmptyMember(parts: seq<string>, i: nat)
    requires i < |NonEmpty(parts)|
    ensures NonEmpty(parts)[i] != "" && NonEmpty(parts)[i] in parts
  {
    var before := parts[..|parts| - 1];
    assert parts == before + [parts[|parts| - 1]];
    if i < |NonEmpty(before)| {
      NonEmptyMember(before, i);
    }
  }

  /** Whatever string is decoded, the hops are clean. */
  lemma DecodeIsClean(path: string, i: nat)
    requires i < |Decode(path)|
    ensures Clean(Decode(path)[i])
  {
    PartHasNoSlash(path, i);
    ParsedIsClean(Parts(path)[i]);
  }

  lemma PartHasNoSlash(path: string, i: nat)
    requires i < |Parts(path)|
    ensures Parts(path)[i] != "" && '/' !in Parts(path)[i]
  {
    var all := Split(path);
    NonEmptyMember(all, i);
    var k :| 0 <= k < |all| && all[k] == NonEmpty(all)[i];
    SplitHasNoSlash(path, k);
  }

  lemma ParsedIsClean(part: string)
    requires part != "" && '/' !in part
    ensures Clean(ParseHop(part))
  {
  }

  /** The string form of a path is read back as the same path exactly when every hop is clean. */
  lemma PathRoundTrip(hops: seq<Hop>)
    ensures Decode(Encode(hops)) == hops <==> forall i :: 0 <= i < |hops| ==> Clean(hops[i])
  {
    if forall i :: 0 <= i < |hops| ==> Clean(hops[i]) {
      PartsOfEncoding(hops);
      forall i | 0 <= i < |hops| ensures Decode(Encode(hops))[i] == hops[i] {
        ParseLabel(hops[i]);
      }
    }
    if Decode(Encode(hops)) == hops {
      forall i | 0 <= i < |hops| ensures Clean(hops[i]) {
        DecodeIsClean(Encode(hops), i);
      }
    }
  }

  // ---------------------------------------------------------------------------
  // The same compilation, on structured paths
  // ---------------------------------------------------------------------------

  type HopPath = (seq<Hop>, Option<string>)

  function Under(h: Hop, paths: seq<HopPath>): seq<HopPath> {
    seq(|paths|, i requires 0 <= i < |paths| => ([h] + paths[i].0, paths[i].1))
  }

  function HopPaths(s: Schema): seq<HopPath>
    decreases s, 2, 0
  {
    if IsObjectSchema(s) then NamedHopPaths(s, s.required) else []
  }

  function NamedHopPaths(s: Schema, names: seq<string>): seq<HopPath>
    requires s.Dict?
    decreases s, 1, |names|
  {
    if names == [] then [] else FieldHopPaths(s, names[0]) + NamedHopPaths(s, names[1..])
  }

  function FieldHopPaths(s: Schema, name: string): seq<HopPath>
    requires s.Dict?
    decreases s, 0, 0
  {
    if name !in s.properties then [([Key(name)], None)]
    else
      var sub := s.properties[name];
      var typ := if sub.Dict? then sub.typ else None;
      [([Key(name)], typ)] +
      if typ == Some("object") then Under(Key(name), HopPaths(sub))
      else if typ == Some("array") && IsObjectSchema(sub.items) then Under(Each(name), HopPaths(sub.items))
      else []
  }

  function Rendered(base: string, paths: seq<HopPath>): seq<TypedPath> {
    seq(|paths|, i requires 0 <= i < |paths| => (base + Encode(paths[i].0), paths[i].1))
  }

  lemma {:induction false} EncodeUnder(h: Hop, hops: seq<Hop>)
    ensures Encode([h] + hops) == "/" + Label(h) + Encode(hops)
  {
    if hops == [] {
      EncodeSnoc([], h);
      assert [h] + hops == [] + [h];
      assert "" + "/" + Label(h) == "/" + Label(h) + "";
    } else {
      var shorter, z := hops[..|hops| - 1], hops[|hops| - 1];
      EncodeUnder(h, shorter);
      EncodeOneMore(h, shorter, z);
      assert hops == shorter + [z];
    }
  }

  lemma EncodeOneMore(h: Hop, hops: seq<Hop>, z: Hop)
    requires Encode([h] + hops) == "/" + Label(h) + Encode(hops)
    ensures Encode([h] + (hops + [z])) == "/" + Label(h) + Encode(hops + [z])
  {
    EncodeSnoc([h] + hops, z);
    EncodeSnoc(hops, z);
    assert [h] + (hops + [z]) == [h] + hops + [z];
    RegroupTail("/" + Label(h), Encode(hops), Label(z));
  }

  lemma EncodeSnoc(hops: seq<Hop>, h: Hop)
    ensures Encode(hops + [h]) == Encode(hops) + "/" + Label(h)
  {
    assert (hops + [h])[..|hops|] == hops;
  }

  lemma RegroupTail(a: string, b: string, c: string)
    ensures (a + b) + "/" + c == a + (b + "/" + c)
  {
  }

  lemma RenderedUnder(base: string, h: Hop, paths: seq<HopPath>)
    ensures Rendered(base, Under(h, paths)) == Rendered(base + "/" + Label(h), paths)
  {
    forall i | 0 <= i < |paths| ensures base + Encode([h] + paths[i].0) == base + "/" + Label(h) + Encode(paths[i].0) {
      EncodeUnder(h, paths[i].0);
      Regroup(base, Label(h), Encode(paths[i].0));
    }
  }

  lemma Regroup(base: string, name: string, rest: string)
    ensures base + ("/" + name + rest) == base + "/" + name + rest
  {
  }

  lemma RenderedConcat(base: string, a: seq<HopPath>, b: seq<HopPath>)
    ensures Rendered(base, a + b) == Rendered(base, a) + Rendered(base, b)
  {
  }

  /** The path strings are the structured paths, rendered. */
  lemma {:induction false} CompilationRenders(s: Schema, base: string)
    ensures RequiredPaths(s, base) == Rendered(base, HopPaths(s))
    decreases s, 2, 0
  {
    if IsObjectSchema(s) {
      NamedRenders(s, s.required, base);
    }
  }

  lemma {:induction false} NamedRenders(s: Schema, names: seq<string>, base: string)
    requires s.Dict?
    ensures NamedPaths(s, names, base) == Rendered(base, NamedHopPaths(s, names))
    decreases s, 1, |names|
  {
    if names != [] {
      FieldRenders(s, names[0], base);
      NamedRenders(s, names[1..], base);
      RenderedConcat(base, FieldHopPaths(s, names[0]), NamedHopPaths(s, names[1..]));
    }
  }

  lemma {:induction false} FieldRenders(s: Schema, name: string, base: string)
    requires s.Dict?
    ensures FieldPaths(s, name, base) == Rendered(base, FieldHopPaths(s, name))
    decreases s, 0, 0
  {
    EncodeUnder(Key(name), []);
    var path := base + "/" + name;
    assert [Key(name)] + [] == [Key(name)];
    assert base + Encode([Key(name)]) == path;
    if name in s.properties && s.properties[name].Dict? {
      var sub := s.properties[name];
      var own: seq<HopPath> := [([Key(name)], sub.typ)];
      if sub.typ == Some("object") {
        CompilationRenders(sub, path);
        RenderedUnder(base, Key(name), HopPaths(sub));
        RenderedConcat(base, own, Under(Key(name), HopPaths(sub)));
      } else if sub.typ == Some("array") && IsObjectSchema(sub.items) {
        CompilationRenders(sub.items, path + "[]");
        RenderedUnder(base, Each(name), HopPaths(sub.items));
        assert base + "/" + (name + "[]") == path + "[]";
        RenderedConcat(base, own, Under(Each(name), HopPaths(sub.items)));
      }
    }
  }

  // ---------------------------------------------------------------------------
  // The compilation preserves meaning
  // ---------------------------------------------------------------------------

  /** Every required name that contributes a path can be written in a path string. */
  ghost predicate CleanSchema(s: Schema)
    decreases s, 1
  {
    IsObjectSchema(s) ==> forall name :: name in s.required ==> CleanField(s, name)
  }

  ghost predicate CleanField(s: Schema, name: string)
    requires s.Dict?
    decreases s, 0
  {
    && Clean(Key(name))
    && (name in s.properties && s.properties[name].Dict? ==>
          var sub := s.properties[name];
          && (sub.typ == Some("object") ==> CleanSchema(sub))
          && (sub.typ == Some("array") && IsObjectSchema(sub.items) ==> CleanSchema(sub.items)))
  }

  ghost predicate AllArrive(paths: seq<HopPath>, doc: Json) {
    forall i :: 0 <= i < |paths| ==> Walk(doc, Steps(paths[i].0), paths[i].1) == Present
  }

  lemma {:induction false} WalkEachPresent(elems: seq<Json>, rest: seq<string>, t: Option<string>)
    ensures WalkEach(elems, rest, t) == Present <==> forall i :: 0 <= i < |elems| ==> Walk(elems[i], rest, t) == Present
  {
    if elems != [] {
      WalkEachPresent(elems[..|elems| - 1], rest, t);
    }
  }

  lemma WalkHop(h: Hop, hops: seq<Hop>, t: Option<string>, doc: Json)
    requires Clean(h)
    ensures var found := doc.Obj? && h.name in doc.fields;
            Walk(doc, Steps([h] + hops), t) == Present <==>
            if h.Key? then found && Walk(doc.fields[h.name], Steps(hops), t) == Present
            else found && doc.fields[h.name].Arr? && doc.fields[h.name].elems != []
                 && forall i :: 0 <= i < |doc.fields[h.name].elems| ==>
                      Walk(doc.fields[h.name].elems[i], Steps(hops), t) == Present
  {
    StepsUnder(h, hops);
    CleanStep(h);
    assert Steps([h] + hops)[1..] == Steps(hops);
    ParseLabel(h);
    if h.Each? {
      assert EndsInBrackets(Label(h)) && Label(h)[..|Label(h)| - 2] == h.name;
      if doc.Obj? && h.name in doc.fields && doc.fields[h.name].Arr? {
        WalkEachPresent(doc.fields[h.name].elems, Steps(hops), t);
      }
    }
  }

  lemma AllArriveUnderKey(name: string, paths: seq<HopPath>, doc: Json)
    requires Clean(Key(name))
    ensures AllArrive(Under(Key(name), paths), doc) <==>
            paths == [] || (doc.Obj? && name in doc.fields && AllArrive(paths, doc.fields[name]))
  {
    var under := Under(Key(name), paths);
    forall i | 0 <= i < |paths|
      ensures Walk(doc, Steps(under[i].0), under[i].1) == Present <==>
              doc.Obj? && name in doc.fields && Walk(doc.fields[name], Steps(paths[i].0), paths[i].1) == Present
    {
      WalkHop(Key(name), paths[i].0, paths[i].1, doc);
    }
    if AllArrive(under, doc) && paths != [] {
      assert Walk(doc, Steps(under[0].0), under[0].1) == Present;
    }
  }

  lemma AllArriveUnderEach(name: string, paths: seq<HopPath>, doc: Json)
    requires Clean(Each(name))
    ensures AllArrive(Under(Each(name), paths), doc) <==>
            paths == [] ||
            (&& doc.Obj? && name in doc.fields && doc.fields[name].Arr? && doc.fields[name].elems != []
             && forall j :: 0 <= j < |doc.fields[name].elems| ==> AllArrive(paths, doc.fields[name].elems[j]))
  {
    var under := Under(Each(name), paths);
    var found := doc.Obj? && name in doc.fields && doc.fields[name].Arr? && doc.fields[name].elems != [];
    forall i | 0 <= i < |paths|
      ensures Walk(doc, Steps(under[i].0), under[i].1) == Present <==>
              found && forall j :: 0 <= j < |doc.fields[name].elems| ==>
                         Walk(doc.fields[name].elems[j], Steps(paths[i].0), paths[i].1) == Present
    {
      WalkHop(Each(name), paths[i].0, paths[i].1, doc);
    }
    if AllArrive(under, doc) && paths != [] {
      assert Walk(doc, Steps(under[0].0), under[0].1) == Present;
      forall j | 0 <= j < |doc.fields[name].elems| ensures AllArrive(paths, doc.fields[name].elems[j]) {
        forall i | 0 <= i < |paths|
          ensures Walk(doc.fields[name].elems[j], Steps(paths[i].0), paths[i].1) == Present
        {
          assert Walk(doc, Steps(under[i].0), under[i].1) == Present;
        }
      }
    }
  }

  lemma AllArriveConcat(a: seq<HopPath>, b: seq<HopPath>, doc: Json)
    ensures AllArrive(a + b, doc) <==> AllArrive(a, doc) && AllArrive(b, doc)
  {
    if AllArrive(a + b, doc) {
      forall i | 0 <= i < |a| ensures Walk(doc, Steps(a[i].0), a[i].1) == Present {
        assert (a + b)[i] == a[i];
      }
      forall i | 0 <= i < |b| ensures Walk(doc, Steps(b[i].0), b[i].1) == Present {
        assert (a + b)[|a| + i] == b[i];
      }
    }
  }

  lemma SomePathIfRequired(s: Schema)
    requires IsObjectSchema(s)
    ensures HopPaths(s) == [] <==> s.required == []
  {
    if s.required != [] {
      assert FieldHopPaths(s, s.required[0]) != [];
    }
  }

  lemma {:induction false} HopsMeanAccepts(s: Schema, doc: Json)
    requires CleanSchema(s)
    ensures AllArrive(HopPaths(s), doc) <==> Accepts(s, doc)
    decreases s, 2, 0
  {
    if IsObjectSchema(s) {
      NamedMean(s, s.required, doc);
    }
  }

  lemma {:induction false} NamedMean(s: Schema, names: seq<string>, doc: Json)
    requires s.Dict? && forall name :: name in names ==> CleanField(s, name)
    ensures AllArrive(NamedHopPaths(s, names), doc) <==> forall name :: name in names ==> FieldAccepted(s, name, doc)
    decreases s, 1, |names|
  {
    if names != [] {
      assert names == [names[0]] + names[1..];
      FieldMeans(s, names[0], doc);
      NamedMean(s, names[1..], doc);
      AllArriveConcat(FieldHopPaths(s, names[0]), NamedHopPaths(s, names[1..]), doc);
    }
  }

  lemma {:induction false} FieldMeans(s: Schema, name: string, doc: Json)
    requires s.Dict? && CleanField(s, name)
    ensures AllArrive(FieldHopPaths(s, name), doc) <==> FieldAccepted(s, name, doc)
    decreases s, 0, 0
  {
    var typ := if name in s.properties && s.properties[name].Dict? then s.properties[name].typ else None;
    var own: seq<HopPath> := [([Key(name)], typ)];
    OwnPath(name, typ, doc);
    assert own + [] == own;
    if name in s.properties && s.properties[name].Dict? {
      var sub := s.properties[name];
      if sub.typ == Some("object") {
        AllArriveConcat(own, Under(Key(name), HopPaths(sub)), doc);
        AllArriveUnderKey(name, HopPaths(sub), doc);
        SomePathIfRequired(sub);
        if doc.Obj? && name in doc.fields {
          HopsMeanAccepts(sub, doc.fields[name]);
        }
      } else if sub.typ == Some("array") && IsObjectSchema(sub.items) {
        AllArriveConcat(own, Under(Each(name), HopPaths(sub.items)), doc);
        AllArriveUnderEach(name, HopPaths(sub.items), doc);
        SomePathIfRequired(sub.items);
        if doc.Obj? && name in doc.fields && doc.fields[name].Arr? {
          forall j | 0 <= j < |doc.fields[name].elems|
            ensures AllArrive(HopPaths(sub.items), doc.fields[name].elems[j]) <==>
                      Accepts(sub.items, doc.fields[name].elems[j])
          {
            HopsMeanAccepts(sub.items, doc.fields[name].elems[j]);
          }
        }
      }
    }
  }

  lemma OwnPath(name: string, t: Option<string>, doc: Json)
    requires Clean(Key(name))
    ensures AllArrive([([Key(name)], t)], doc) <==>
            && doc.Obj? && name in doc.fields && !doc.fields[name].Null?
            && (t.Some? ==> TypeMatches(t.value, doc.fields[name]))
  {
    WalkHop(Key(name), [], t, doc);
    var own: seq<HopPath> := [([Key(name)], t)];
    assert [Key(name)] + [] == own[0].0;
    if doc.Obj? && name in doc.fields {
      assert Walk(doc.fields[name], Steps([]), t) == Arrive(doc.fields[name], t);
      ArrivalChecksType(doc.fields[name], t);
    }
  }

  /** Every structured path of a clean schema is made of clean hops. */
  lemma {:induction false} CleanSchemaCleanHops(s: Schema, i: nat, k: nat)
    requires CleanSchema(s) && i < |HopPaths(s)| && k < |HopPaths(s)[i].0|
    ensures Clean(HopPaths(s)[i].0[k])
    decreases s, 1, 0
  {
    NamedCleanHops(s, s.required, i, k);
  }

  lemma {:induction false} NamedCleanHops(s: Schema, names: seq<string>, i: nat, k: nat)
    requires s.Dict? && (forall name :: name in names ==> CleanField(s, name))
    requires i < |NamedHopPaths(s, names)| && k < |NamedHopPaths(s, names)[i].0|
    ensures Clean(NamedHopPaths(s, names)[i].0[k])
    decreases s, 0, |names|
  {
    var name := names[0];
    assert CleanField(s, name);
    var field := FieldHopPaths(s, name);
    if i >= |field| {
      NamedCleanHops(s, names[1..], i - |field|, k);
    } else if i > 0 && k > 0 {
      var sub := s.properties[name];
      CleanSchemaCleanHops(if sub.typ == Some("object") then sub else sub.items, i - 1, k - 1);
    }
  }

  /** Checking the path strings is checking the structured paths, whatever the names. */
  lemma PresentIsArrive(s: Schema, doc: Json)
    ensures AllPresent(RequiredPaths(s, ""), doc) <==> AllArrive(HopPaths(s), doc)
  {
    CompilationRenders(s, "");
    forall i | 0 <= i < |HopPaths(s)|
      ensures CheckPath(doc, RequiredPaths(s, "")[i].0, RequiredPaths(s, "")[i].1)
           == Walk(doc, Steps(HopPaths(s)[i].0), HopPaths(s)[i].1)
    {
      PartsAreSteps(HopPaths(s)[i].0);
      assert "" + Encode(HopPaths(s)[i].0) == Encode(HopPaths(s)[i].0);
    }
  }

  /**
   * Compiling a schema to path strings and checking every string accepts exactly the documents that
   * direct recursive validation accepts, for all nestings of objects and arrays of objects.
   */
  lemma CompilationPreservesMeaning(s: Schema, doc: Json)
    requires CleanSchema(s)
    ensures AllPresent(RequiredPaths(s, ""), doc) <==> Accepts(s, doc)
  {
    HopsMeanAccepts(s, doc);
    PresentIsArrive(s, doc);
  }

  // ---------------------------------------------------------------------------
  // Names the path strings cannot carry
  // ---------------------------------------------------------------------------

  lemma TwoHopEncoding(a: string, b: string)
    ensures Encode([Key(a), Key(b)]) == "/" + (a + "/" + b)
  {
    EncodeUnder(Key(a), [Key(b)]);
    EncodeUnder(Key(b), []);
    assert [Key(a)] + [Key(b)] == [Key(a), Key(b)] && [Key(b)] + [] == [Key(b)];
    assert Encode([]) == "";
    assert "/" + a + ("/" + b + "") == "/" + (a + "/" + b);
  }

  /**
   * A required name with a slash is read as a nested path, so a document that has the field under
   * its own name is reported as missing it.
   */
  lemma SlashNameIsReadAsNesting(a: string, b: string, doc: Json)
    requires Clean(Key(a)) && Clean(Key(b))
    ensures CheckPath(doc, "/" + (a + "/" + b), None) == Walk(doc, [a, b], None)
    ensures doc.Obj? && doc.fields.Keys == {a + "/" + b} ==> CheckPath(doc, "/" + (a + "/" + b), None) == Missing
  {
    var hops := [Key(a), Key(b)];
    TwoHopEncoding(a, b);
    PartsOfEncoding(hops);
    assert Labels(hops) == [a, b];
    assert a != a + "/" + b;
  }

  /** An empty required name is reported as present in every document but null. */
  lemma EmptyNameIsAlwaysPresent(doc: Json)
    requires !doc.Null?
    ensures CheckPath(doc, "" + "/" + "", None) == Present
  {
    SplitConcat("", "");
    assert Split("" + "/" + "") == ["", ""];
    assert NonEmpty(["", ""]) == NonEmpty(["", ""][..1]) == NonEmpty([""]) == NonEmpty([""][..0]);
  }
}
