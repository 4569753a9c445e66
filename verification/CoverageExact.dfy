/**
 * When exactly the compilation to path strings preserves the meaning of a schema: the names must
 * survive the strings, or the schema must be one that no document satisfies anyway.
 */
module CoverageExact {
  import opened Common
  import opened RequiredCoverage

  /** The path check and direct validation disagree on this document. */
  ghost predicate Differs(s: Schema, doc: Json) {
    AllArrive(HopPaths(s), doc) != Accepts(s, doc)
  }

  /** The declared type of a field, as far as the compilation looks at it. */
  function TypeOf(s: Schema, name: string): Option<string>
    requires s.Dict?
  {
    if name in s.properties && s.properties[name].Dict? then s.properties[name].typ else None
  }

  // ---------------------------------------------------------------------------
  // Fields of a schema, one at a time
  // ---------------------------------------------------------------------------

  ghost predicate FieldArrives(s: Schema, name: string, doc: Json)
    requires s.Dict?
  {
    AllArrive(FieldHopPaths(s, name), doc)
  }

  lemma {:induction false} NamedArrive(s: Schema, names: seq<string>, doc: Json)
    requires s.Dict?
    ensures AllArrive(NamedHopPaths(s, names), doc) <==> forall name :: name in names ==> FieldArrives(s, name, doc)
  {
    if names != [] {
      assert names == [names[0]] + names[1..] && names[0] in names;
      assert NamedHopPaths(s, names) == FieldHopPaths(s, names[0]) + NamedHopPaths(s, names[1..]);
      assert forall name :: name in names <==> name == names[0] || name in names[1..];
      NamedArrive(s, names[1..], doc);
      AllArriveConcat(FieldHopPaths(s, names[0]), NamedHopPaths(s, names[1..]), doc);
    }
  }

  lemma OwnPathArrives(s: Schema, name: string, doc: Json)
    requires s.Dict? && FieldArrives(s, name, doc)
    ensures Walk(doc, Parts(name), TypeOf(s, name)) == Present
  {
    assert FieldHopPaths(s, name)[0] == ([Key(name)], TypeOf(s, name));
    OneStep(name);
  }

  lemma OneStep(name: string)
    ensures Steps([Key(name)]) == Parts(name)
  {
    StepsUnder(Key(name), []);
    assert [Key(name)] + [] == [Key(name)];
    assert Pieces([]) == [] && Join([]) == [];
    assert Parts(name) + [] == Parts(name);
  }

  // ---------------------------------------------------------------------------
  // Fields declared null are never present
  // ---------------------------------------------------------------------------

  ghost predicate NullFree(paths: seq<HopPath>) {
    forall i :: 0 <= i < |paths| ==> paths[i].1 != Some("null")
  }

  lemma {:induction false} NullIsNeverPresent(doc: Json, parts: seq<string>)
    ensures Walk(doc, parts, Some("null")) != Present
    decreases |parts|
  {
    if parts == [] {
      ArrivalChecksType(doc, Some("null"));
    } else if doc.Obj? {
      var head, rest := parts[0], parts[1..];
      if EndsInBrackets(head) {
        var key := head[..|head| - 2];
        if key in doc.fields && doc.fields[key].Arr? && doc.fields[key].elems != [] {
          WalkEachPresent(doc.fields[key].elems, rest, Some("null"));
          NullIsNeverPresent(doc.fields[key].elems[0], rest);
        }
      } else if head in doc.fields {
        NullIsNeverPresent(doc.fields[head], rest);
      }
    }
  }

  ghost predicate NullFreeField(s: Schema, name: string)
    requires s.Dict?
  {
    NullFree(FieldHopPaths(s, name))
  }

  lemma {:induction false} NullFreeFields(s: Schema, names: seq<string>)
    requires s.Dict?
    ensures NullFree(NamedHopPaths(s, names)) <==> forall name :: name in names ==> NullFreeField(s, name)
  {
    if names != [] {
      assert names == [names[0]] + names[1..] && names[0] in names;
      assert NamedHopPaths(s, names) == FieldHopPaths(s, names[0]) + NamedHopPaths(s, names[1..]);
      assert forall name :: name in names <==> name == names[0] || name in names[1..];
      NullFreeFields(s, names[1..]);
      NullFreeConcat(FieldHopPaths(s, names[0]), NamedHopPaths(s, names[1..]));
    }
  }

  lemma NullFreeConcat(a: seq<HopPath>, b: seq<HopPath>)
    ensures NullFree(a + b) <==> NullFree(a) && NullFree(b)
  {
    if NullFree(a + b) {
      forall i | 0 <= i < |a| ensures a[i].1 != Some("null") {
        assert (a + b)[i] == a[i];
      }
      forall i | 0 <= i < |b| ensures b[i].1 != Some("null") {
        assert (a + b)[|a| + i] == b[i];
      }
    }
  }

  lemma NullFreeUnder(h: Hop, paths: seq<HopPath>)
    ensures NullFree(Under(h, paths)) <==> NullFree(paths)
  {
    forall i | 0 <= i < |paths| ensures Under(h, paths)[i].1 == paths[i].1 {
    }
  }

  /** A field is free of null types when its own type and its nested paths are. */
  lemma NullFreeNesting(s: Schema, name: string)
    requires s.Dict?
    ensures NullFreeField(s, name) <==>
            && TypeOf(s, name) != Some("null")
            && (TypeOf(s, name) == Some("object") ==> NullFree(HopPaths(s.properties[name])))
            && (TypeOf(s, name) == Some("array") ==> NullFree(HopPaths(s.properties[name].items)))
  {
    var own: seq<HopPath> := [([Key(name)], TypeOf(s, name))];
    assert NullFree(own) <==> TypeOf(s, name) != Some("null") by {
      assert own[0].1 == TypeOf(s, name);
    }
    if TypeOf(s, name) == Some("object") {
      NullFreeUnder(Key(name), HopPaths(s.properties[name]));
      NullFreeConcat(own, Under(Key(name), HopPaths(s.properties[name])));
    } else if TypeOf(s, name) == Some("array") && IsObjectSchema(s.properties[name].items) {
      NullFreeUnder(Each(name), HopPaths(s.properties[name].items));
      NullFreeConcat(own, Under(Each(name), HopPaths(s.properties[name].items)));
    } else {
      assert FieldHopPaths(s, name) == own;
    }
  }

  /** A required null-typed field, at any depth, makes direct validation reject everything. */
  lemma {:induction false} NullTypeRejects(s: Schema, doc: Json)
    requires !NullFree(HopPaths(s))
    ensures !Accepts(s, doc)
    decreases s
  {
    NullFreeFields(s, s.required);
    var name :| name in s.required && !NullFreeField(s, name);
    NullFreeNesting(s, name);
    if FieldAccepted(s, name, doc) {
      var sub, v := s.properties[name], doc.fields[name];
      if sub.typ == Some("object") {
        NullTypeRejects(sub, v);
      } else if sub.typ == Some("array") {
        SomePathIfRequired(sub.items);
        NullTypeRejects(sub.items, v.elems[0]);
      }
    }
  }

  // ---------------------------------------------------------------------------
  // Every other schema has a document
  // ---------------------------------------------------------------------------

  function Sample(s: Schema): Json
    decreases s, 1
  {
    if IsObjectSchema(s) then Obj(map name | name in s.required :: SampleField(s, name)) else Obj(map[])
  }

  function SampleField(s: Schema, name: string): Json
    requires s.Dict?
    decreases s, 0
  {
    if name !in s.properties || !s.properties[name].Dict? then Int(0)
    else
      var sub := s.properties[name];
      if sub.typ == Some("string") then Str("")
      else if sub.typ == Some("boolean") then Bool(true)
      else if sub.typ == Some("object") then Sample(sub)
      else if sub.typ == Some("array") then Arr(if IsObjectSchema(sub.items) then [Sample(sub.items)] else [])
      else Int(0)
  }

  lemma {:induction false} SampleAccepted(s: Schema)
    requires NullFree(HopPaths(s))
    ensures Accepts(s, Sample(s))
    decreases s
  {
    if IsObjectSchema(s) {
      NullFreeFields(s, s.required);
      forall name | name in s.required ensures FieldAccepted(s, name, Sample(s)) {
        NullFreeNesting(s, name);
        if TypeOf(s, name) == Some("object") {
          SampleAccepted(s.properties[name]);
        } else if TypeOf(s, name) == Some("array") {
          SampleAccepted(s.properties[name].items);
        }
      }
    }
  }

  // ---------------------------------------------------------------------------
  // What a path looks up first
  // ---------------------------------------------------------------------------

  ghost predicate SameBut(f: map<string, Json>, g: map<string, Json>, k: string) {
    forall x :: x != k ==> (x in f <==> x in g) && (x in f ==> f[x] == g[x])
  }

  function LookedUp(part: string): string {
    if EndsInBrackets(part) then part[..|part| - 2] else part
  }

  predicate StartsAt(hops: seq<Hop>, k: string) {
    Steps(hops) != [] && LookedUp(Steps(hops)[0]) == k
  }

  ghost predicate Unseen(paths: seq<HopPath>, k: string) {
    forall i :: 0 <= i < |paths| ==> !StartsAt(paths[i].0, k)
  }

  lemma UnseenWalk(parts: seq<string>, t: Option<string>, f: map<string, Json>, g: map<string, Json>, k: string)
    requires SameBut(f, g, k) && (parts != [] ==> LookedUp(parts[0]) != k)
    ensures Walk(Obj(f), parts, t) == Walk(Obj(g), parts, t)
  {
  }

  /** A key that no path looks up makes no difference to the check. */
  lemma UnseenKey(paths: seq<HopPath>, f: map<string, Json>, g: map<string, Json>, k: string)
    requires SameBut(f, g, k) && Unseen(paths, k)
    ensures AllArrive(paths, Obj(f)) <==> AllArrive(paths, Obj(g))
  {
    forall i | 0 <= i < |paths|
      ensures Walk(Obj(f), Steps(paths[i].0), paths[i].1) == Walk(Obj(g), Steps(paths[i].0), paths[i].1)
    {
      assert !StartsAt(paths[i].0, k);
      UnseenWalk(Steps(paths[i].0), paths[i].1, f, g, k);
    }
  }

  lemma StepIsPlain(hops: seq<Hop>, i: nat)
    requires i < |Steps(hops)|
    ensures Steps(hops)[i] != "" && '/' !in Steps(hops)[i]
  {
    PartsAreSteps(hops);
    PartHasNoSlash(Encode(hops), i);
  }

  /** A name that cannot be written in a path is looked up, if at all, as the name of an array. */
  lemma UncleanLookup(hops: seq<Hop>, n: string)
    requires !Clean(Key(n)) && StartsAt(hops, n)
    ensures Steps(hops)[0] == n + "[]" && '/' !in n
  {
    StepIsPlain(hops, 0);
    var part := Steps(hops)[0];
    if EndsInBrackets(part) {
      assert part == part[..|part| - 2] + part[|part| - 2..];
    }
  }

  lemma ArrayWalk(doc: Json, k: string, parts: seq<string>, t: Option<string>)
    requires parts != [] && parts[0] == k + "[]" && Walk(doc, parts, t) == Present
    ensures doc.Obj? && k in doc.fields && doc.fields[k].Arr? && doc.fields[k].elems != []
  {
    assert EndsInBrackets(parts[0]) && parts[0][..|parts[0]| - 2] == k;
  }

  // ---------------------------------------------------------------------------
  // An unclean name at the top
  // ---------------------------------------------------------------------------

  /** A value that is no non-empty array, yet satisfies what the schema says of the field. */
  function Spoiled(s: Schema, k: string): Json
    requires s.Dict?
  {
    if TypeOf(s, k) == Some("array") then Arr([]) else Int(0)
  }

  lemma SpoiledIsAccepted(s: Schema, k: string, f: map<string, Json>)
    requires IsObjectSchema(s) && Accepts(s, Obj(f)) && k in f && f[k].Arr?
    requires k in s.required && TypeOf(s, k) == Some("array") ==>
               !IsObjectSchema(s.properties[k].items) || s.properties[k].items.required == []
    ensures Accepts(s, Obj(f[k := Spoiled(s, k)]))
  {
    var g := f[k := Spoiled(s, k)];
    forall name | name in s.required ensures FieldAccepted(s, name, Obj(g)) {
      assert FieldAccepted(s, name, Obj(f));
    }
  }

  /** Some path of the schema starts by entering the array in field `k`. */
  ghost predicate EntersArray(paths: seq<HopPath>, i: nat, k: string) {
    i < |paths| && Steps(paths[i].0) != [] && Steps(paths[i].0)[0] == k + "[]"
  }

  lemma SpoiledDiffers(s: Schema, k: string, f: map<string, Json>, i: nat)
    requires IsObjectSchema(s) && Accepts(s, Obj(f)) && k in f && f[k].Arr?
    requires k in s.required && TypeOf(s, k) == Some("array") ==>
               !IsObjectSchema(s.properties[k].items) || s.properties[k].items.required == []
    requires EntersArray(HopPaths(s), i, k)
    ensures Differs(s, Obj(f[k := Spoiled(s, k)]))
  {
    SpoiledIsAccepted(s, k, f);
    var doc, path := Obj(f[k := Spoiled(s, k)]), HopPaths(s)[i];
    if Walk(doc, Steps(path.0), path.1) == Present {
      ArrayWalk(doc, k, Steps(path.0), path.1);
    }
  }

  /** Removing a required field that no path looks up goes unnoticed by the check. */
  lemma RemovedDiffers(s: Schema, n: string, f: map<string, Json>)
    requires IsObjectSchema(s) && n in s.required && AllArrive(HopPaths(s), Obj(f)) && Unseen(HopPaths(s), n)
    ensures Differs(s, Obj(f - {n}))
  {
    UnseenKey(HopPaths(s), f, f - {n}, n);
    assert !FieldAccepted(s, n, Obj(f - {n}));
  }

  lemma {:induction false} FieldPathIndex(s: Schema, names: seq<string>, n: string) returns (i: nat)
    requires s.Dict? && n in names
    ensures i < |NamedHopPaths(s, names)| && NamedHopPaths(s, names)[i] == ([Key(n)], TypeOf(s, n))
  {
    assert names == [names[0]] + names[1..];
    if names[0] == n {
      i := 0;
    } else {
      i := FieldPathIndex(s, names[1..], n);
      i := i + |FieldHopPaths(s, names[0])|;
    }
  }

  /** An array-typed required name `x[]` is checked as "every element of `x` is an array". */
  lemma BracketedArray(n: string, f: map<string, Json>) returns (x: string)
    requires '/' !in n && !Clean(Key(n)) && Walk(Obj(f), Parts(n), Some("array")) == Present
    ensures n == x + "[]" && Parts(n) == [n]
    ensures x in f && f[x].Arr? && f[x].elems != [] && f[x].elems[0].Arr?
  {
    NoParts();
    assert Walk(Obj(f), [], Some("array")) == Arrive(Obj(f), Some("array"));
    assert n != "";
    x := n[..|n| - 2];
    assert n == x + "[]";
    CleanStep(Each(x));
    assert Parts(n)[1..] == [];
    ArrayWalk(Obj(f), x, Parts(n), Some("array"));
    WalkEachPresent(f[x].elems, [], Some("array"));
    assert Walk(f[x].elems[0], [], Some("array")) == Arrive(f[x].elems[0], Some("array"));
  }

  lemma NoParts()
    ensures Parts("") == []
  {
    PartsAreSteps([]);
    assert Pieces([]) == [] && Join([]) == [];
  }

  lemma UncleanNameDiffers(s: Schema, n: string, f: map<string, Json>) returns (doc: Json)
    requires IsObjectSchema(s) && n in s.required && !Clean(Key(n))
    requires Accepts(s, Obj(f)) && AllArrive(HopPaths(s), Obj(f))
    ensures doc.Obj? && Differs(s, doc)
  {
    if Unseen(HopPaths(s), n) {
      RemovedDiffers(s, n, f);
      return Obj(f - {n});
    }
    var i :| 0 <= i < |HopPaths(s)| && StartsAt(HopPaths(s)[i].0, n);
    UncleanLookup(HopPaths(s)[i].0, n);
    ArrayWalk(Obj(f), n, Steps(HopPaths(s)[i].0), HopPaths(s)[i].1);
    if TypeOf(s, n) != Some("array") {
      SpoiledDiffers(s, n, f, i);
      return Obj(f[n := Spoiled(s, n)]);
    }
    NamedArrive(s, s.required, Obj(f));
    OwnPathArrives(s, n, Obj(f));
    var x := BracketedArray(n, f);
    doc := BracketDiffers(s, n, x, f);
  }

  lemma OnlyObjectsAccepted(s: Schema, doc: Json)
    requires IsObjectSchema(s) && !doc.Obj?
    ensures Accepts(s, doc) ==> s.required == []
  {
    if s.required != [] {
      assert !FieldAccepted(s, s.required[0], doc);
    }
  }

  lemma BracketDiffers(s: Schema, n: string, x: string, f: map<string, Json>) returns (doc: Json)
    requires IsObjectSchema(s) && n in s.required && n == x + "[]" && Parts(n) == [n] && Accepts(s, Obj(f))
    requires x in f && f[x].Arr? && f[x].elems != [] && f[x].elems[0].Arr?
    ensures doc.Obj? && Differs(s, doc)
  {
    var i := FieldPathIndex(s, s.required, n);
    OneStep(n);
    if x in s.required && TypeOf(s, x) == Some("array") && IsObjectSchema(s.properties[x].items) {
      assert FieldAccepted(s, x, Obj(f));
      OnlyObjectsAccepted(s.properties[x].items, f[x].elems[0]);
    }
    SpoiledDiffers(s, x, f, i);
    doc := Obj(f[x := Spoiled(s, x)]);
  }

  // ---------------------------------------------------------------------------
  // An unclean name deeper down
  // ---------------------------------------------------------------------------

  lemma CleanFieldUnseen(s: Schema, m: string, k: string)
    requires s.Dict? && Clean(Key(m)) && m != k
    ensures Unseen(FieldHopPaths(s, m), k)
  {
    var paths := FieldHopPaths(s, m);
    CleanStep(Key(m));
    CleanStep(Each(m));
    ParseLabel(Each(m));
    forall i | 0 <= i < |paths| ensures !StartsAt(paths[i].0, k) {
      var h, rest := paths[i].0[0], paths[i].0[1..];
      assert paths[i].0 == [h] + rest;
      StepsUnder(h, rest);
    }
  }

  /** With clean names at the top, replacing one field's value affects that field alone. */
  lemma ReplacedDiffers(s: Schema, n: string, f: map<string, Json>, v: Json)
    requires IsObjectSchema(s) && n in s.required && forall m :: m in s.required ==> Clean(Key(m))
    requires Accepts(s, Obj(f)) && AllArrive(HopPaths(s), Obj(f))
    requires FieldArrives(s, n, Obj(f[n := v])) != FieldAccepted(s, n, Obj(f[n := v]))
    ensures Differs(s, Obj(f[n := v]))
  {
    var g := f[n := v];
    NamedArrive(s, s.required, Obj(f));
    NamedArrive(s, s.required, Obj(g));
    forall m | m in s.required && m != n ensures FieldArrives(s, m, Obj(g)) && FieldAccepted(s, m, Obj(g)) {
      CleanFieldUnseen(s, m, n);
      UnseenKey(FieldHopPaths(s, m), f, g, n);
      assert FieldAccepted(s, m, Obj(f));
    }
  }

  lemma ObjectFieldDiffers(s: Schema, n: string, f: map<string, Json>, w: Json)
    requires s.Dict? && Clean(Key(n)) && TypeOf(s, n) == Some("object")
    requires w.Obj? && Differs(s.properties[n], w)
    ensures FieldArrives(s, n, Obj(f[n := w])) != FieldAccepted(s, n, Obj(f[n := w]))
  {
    var sub, doc := s.properties[n], Obj(f[n := w]);
    var own: seq<HopPath> := [([Key(n)], TypeOf(s, n))];
    OwnPath(n, TypeOf(s, n), doc);
    AllArriveConcat(own, Under(Key(n), HopPaths(sub)), doc);
    AllArriveUnderKey(n, HopPaths(sub), doc);
  }

  lemma ArrayFieldDiffers(s: Schema, n: string, f: map<string, Json>, w: Json)
    requires s.Dict? && Clean(Key(n)) && TypeOf(s, n) == Some("array") && IsObjectSchema(s.properties[n].items)
    requires Differs(s.properties[n].items, w)
    ensures FieldArrives(s, n, Obj(f[n := Arr([w])])) != FieldAccepted(s, n, Obj(f[n := Arr([w])]))
  {
    var items, doc := s.properties[n].items, Obj(f[n := Arr([w])]);
    var own: seq<HopPath> := [([Key(n)], TypeOf(s, n))];
    OwnPath(n, TypeOf(s, n), doc);
    AllArriveConcat(own, Under(Each(n), HopPaths(items)), doc);
    AllArriveUnderEach(n, HopPaths(items), doc);
    SomePathIfRequired(items);
    var elems := doc.fields[n].elems;
    assert elems == [w] && elems[0] == w;
  }

  /** Every satisfiable schema with an unclean name has a document on which the two sides disagree. */
  lemma {:induction false} SomeDocumentDiffers(s: Schema, d: Json) returns (doc: Json)
    requires !CleanSchema(s) && Accepts(s, d)
    ensures doc.Obj? && Differs(s, doc)
    decreases s
  {
    var n :| n in s.required && !CleanField(s, n);
    assert FieldAccepted(s, n, d);
    if !AllArrive(HopPaths(s), d) {
      return d;
    }
    if m :| m in s.required && !Clean(Key(m)) {
      doc := UncleanNameDiffers(s, m, d.fields);
      return;
    }
    var sub, v := s.properties[n], d.fields[n];
    if sub.typ == Some("object") {
      var w := SomeDocumentDiffers(sub, v);
      ObjectFieldDiffers(s, n, d.fields, w);
      ReplacedDiffers(s, n, d.fields, w);
      doc := Obj(d.fields[n := w]);
    } else {
      assert !CleanSchema(sub.items);
      var k :| k in sub.items.required && !CleanField(sub.items, k);
      var w := SomeDocumentDiffers(sub.items, v.elems[0]);
      ArrayFieldDiffers(s, n, d.fields, w);
      ReplacedDiffers(s, n, d.fields, Arr([w]));
      doc := Obj(d.fields[n := Arr([w])]);
    }
  }

  // ---------------------------------------------------------------------------
  // The exact condition
  // ---------------------------------------------------------------------------

  /** The compiled list contains a required field declared as null. */
  predicate RequiresNull(s: Schema) {
    exists i :: 0 <= i < |RequiredPaths(s, "")| && RequiredPaths(s, "")[i].1 == Some("null")
  }

  lemma RequiresNullIsPath(s: Schema)
    ensures RequiresNull(s) <==> !NullFree(HopPaths(s))
  {
    CompilationRenders(s, "");
    var strings, paths := RequiredPaths(s, ""), HopPaths(s);
    forall i | 0 <= i < |paths| ensures strings[i].1 == paths[i].1 {
    }
  }

  lemma NullNeverPasses(s: Schema, doc: Json)
    requires RequiresNull(s)
    ensures !AllPresent(RequiredPaths(s, ""), doc) && !Accepts(s, doc)
  {
    RequiresNullIsPath(s);
    NullTypeRejects(s, doc);
    var i :| 0 <= i < |RequiredPaths(s, "")| && RequiredPaths(s, "")[i].1 == Some("null");
    NullIsNeverPresent(doc, Parts(RequiredPaths(s, "")[i].0));
  }

  /**
   * For every schema: the check of the compiled path strings agrees with direct recursive validation
   * on all documents if and only if every required name can be written in a path string, or the
   * compiled list holds a null-typed field, which no document can have.
   */
  lemma CompilationIsExact(s: Schema)
    ensures (forall doc :: AllPresent(RequiredPaths(s, ""), doc) <==> Accepts(s, doc)) <==>
              CleanSchema(s) || RequiresNull(s)
  {
    if CleanSchema(s) {
      forall doc ensures AllPresent(RequiredPaths(s, ""), doc) <==> Accepts(s, doc) {
        CompilationPreservesMeaning(s, doc);
      }
    } else if RequiresNull(s) {
      forall doc ensures AllPresent(RequiredPaths(s, ""), doc) <==> Accepts(s, doc) {
        NullNeverPasses(s, doc);
      }
    } else {
      RequiresNullIsPath(s);
      SampleAccepted(s);
      var doc := SomeDocumentDiffers(s, Sample(s));
      PresentIsArrive(s, doc);
    }
  }
}
