/**
 * What each verdict of the coverage reporter says about the document, for every path string: which of
 * the four it is follows from where the hops of the path lead, and the counters count exactly that.
 */
module CoverageVerdicts {
  import opened Common
  import opened RequiredCoverage
  import opened CoverageReport

  // ---------------------------------------------------------------------------
  // Where a path leads
  // ---------------------------------------------------------------------------

  /** With some choice of array elements, the hops lead from `doc` to `v`. */
  ghost predicate Reaches(doc: Json, hops: seq<Hop>, v: Json) {
    if hops == [] then v == doc
    else
      && doc.Obj? && hops[0].name in doc.fields
      && var next := doc.fields[hops[0].name];
         if hops[0].Key? then Reaches(next, hops[1..], v)
         else next.Arr? && exists i :: 0 <= i < |next.elems| && Reaches(next.elems[i], hops[1..], v)
  }

  /** The hop finds its name, and for an array hop a non-empty array under it. */
  predicate Followable(v: Json, h: Hop) {
    v.Obj? && h.name in v.fields && (h.Each? ==> v.fields[h.name].Arr? && v.fields[h.name].elems != [])
  }

  /** With some choice of array elements, the hops lead to a value where the next hop cannot be followed. */
  ghost predicate Breaks(doc: Json, hops: seq<Hop>) {
    exists n, v :: 0 <= n < |hops| && Reaches(doc, hops[..n], v) && !Followable(v, hops[n])
  }

  /** Some value at the end is not null and not of the declared type. */
  ghost predicate MeetsWrongType(doc: Json, hops: seq<Hop>, t: Option<string>) {
    t.Some? && exists v :: Reaches(doc, hops, v) && !v.Null? && !TypeMatches(t.value, v)
  }

  ghost predicate MeetsNull(doc: Json, hops: seq<Hop>) {
    Reaches(doc, hops, Null)
  }

  /** The verdict a path deserves on a document. */
  ghost function Deserved(doc: Json, hops: seq<Hop>, t: Option<string>): Verdict {
    if Breaks(doc, hops) then Missing
    else if MeetsWrongType(doc, hops, t) then WrongType
    else if MeetsNull(doc, hops) then IsNull
    else Present
  }

  // ---------------------------------------------------------------------------
  // One hop at a time
  // ---------------------------------------------------------------------------

  /** The values one hop leads to. */
  function Targets(doc: Json, h: Hop): seq<Json> {
    if !doc.Obj? || h.name !in doc.fields then []
    else if h.Key? then [doc.fields[h.name]]
    else if doc.fields[h.name].Arr? then doc.fields[h.name].elems
    else []
  }

  lemma FollowableHasTargets(doc: Json, h: Hop)
    ensures Followable(doc, h) <==> Targets(doc, h) != []
  {
  }

  lemma ReachesUnder(doc: Json, hops: seq<Hop>, v: Json)
    requires hops != []
    ensures Reaches(doc, hops, v)
            <==> exists i :: 0 <= i < |Targets(doc, hops[0])| && Reaches(Targets(doc, hops[0])[i], hops[1..], v)
  {
    var ts := Targets(doc, hops[0]);
    if Reaches(doc, hops, v) && hops[0].Key? {
      assert Reaches(ts[0], hops[1..], v);
    }
  }

  lemma BreaksUnder(doc: Json, hops: seq<Hop>)
    requires hops != []
    ensures var ts := Targets(doc, hops[0]);
            Breaks(doc, hops) <==> ts == [] || exists i :: 0 <= i < |ts| && Breaks(ts[i], hops[1..])
  {
    var ts, rest := Targets(doc, hops[0]), hops[1..];
    FollowableHasTargets(doc, hops[0]);
    if Breaks(doc, hops) && ts != [] {
      var n, v :| 0 <= n < |hops| && Reaches(doc, hops[..n], v) && !Followable(v, hops[n]);
      assert n > 0;
      assert hops[..n][1..] == rest[..n - 1];
      ReachesUnder(doc, hops[..n], v);
      var i :| 0 <= i < |ts| && Reaches(ts[i], rest[..n - 1], v);
      assert Breaks(ts[i], rest);
    }
    if ts == [] {
      assert Reaches(doc, hops[..0], doc);
    } else if i :| 0 <= i < |ts| && Breaks(ts[i], rest) {
      var n, v :| 0 <= n < |rest| && Reaches(ts[i], rest[..n], v) && !Followable(v, rest[n]);
      assert hops[..n + 1][1..] == rest[..n];
      ReachesUnder(doc, hops[..n + 1], v);
      assert Reaches(doc, hops[..n + 1], v) && !Followable(v, hops[n + 1]);
    }
  }

  lemma WrongTypeUnder(doc: Json, hops: seq<Hop>, t: Option<string>)
    requires hops != []
    ensures var ts := Targets(doc, hops[0]);
            MeetsWrongType(doc, hops, t) <==> exists i :: 0 <= i < |ts| && MeetsWrongType(ts[i], hops[1..], t)
  {
    var ts, rest := Targets(doc, hops[0]), hops[1..];
    if MeetsWrongType(doc, hops, t) {
      var v :| Reaches(doc, hops, v) && !v.Null? && !TypeMatches(t.value, v);
      ReachesUnder(doc, hops, v);
      var i :| 0 <= i < |ts| && Reaches(ts[i], rest, v);
      assert MeetsWrongType(ts[i], rest, t);
    }
    if i :| 0 <= i < |ts| && MeetsWrongType(ts[i], rest, t) {
      var v :| Reaches(ts[i], rest, v) && !v.Null? && !TypeMatches(t.value, v);
      ReachesUnder(doc, hops, v);
    }
  }

  // ---------------------------------------------------------------------------
  // The walk gives the deserved verdict
  // ---------------------------------------------------------------------------

  /** The worst of several verdicts: any missing, else any wrong type, else any null. */
  lemma {:induction false} WalkEachIsWorst(elems: seq<Json>, rest: seq<string>, t: Option<string>)
    ensures var r := WalkEach(elems, rest, t);
            var missing := exists i :: 0 <= i < |elems| && Walk(elems[i], rest, t) == Missing;
            var wrong := exists i :: 0 <= i < |elems| && Walk(elems[i], rest, t) == WrongType;
            var isNull := exists i :: 0 <= i < |elems| && Walk(elems[i], rest, t) == IsNull;
            r == if missing then Missing else if wrong then WrongType else if isNull then IsNull else Present
  {
    if elems != [] {
      var before, n := elems[..|elems| - 1], |elems| - 1;
      WalkEachIsWorst(before, rest, t);
      forall i | 0 <= i < n ensures before[i] == elems[i] {
      }
    }
  }

  lemma WalkOneHop(doc: Json, hops: seq<Hop>, t: Option<string>)
    requires hops != [] && Clean(hops[0])
    ensures var ts, rest := Targets(doc, hops[0]), Labels(hops[1..]);
            Walk(doc, Labels(hops), t) == if ts == [] then Missing else WalkEach(ts, rest, t)
  {
    var h, ts, rest := hops[0], Targets(doc, hops[0]), Labels(hops[1..]);
    LabelsCons(hops);
    assert Labels(hops)[0] == Label(h) && Labels(hops)[1..] == rest;
    ParseLabel(h);
    if h.Key? {
      assert !EndsInBrackets(Label(h));
      if ts != [] {
        WalkEachOne(ts[0], rest, t);
      }
    } else {
      assert EndsInBrackets(Label(h)) && Label(h)[..|Label(h)| - 2] == h.name;
    }
  }

  lemma WalkEachOne(v: Json, rest: seq<string>, t: Option<string>)
    ensures WalkEach([v], rest, t) == Walk(v, rest, t)
  {
    WalkEachIsWorst([v], rest, t);
    assert [v][0] == v;
  }

  lemma {:induction false} WalkIsDeserved(doc: Json, hops: seq<Hop>, t: Option<string>)
    requires forall i :: 0 <= i < |hops| ==> Clean(hops[i])
    ensures Walk(doc, Labels(hops), t) == Deserved(doc, hops, t)
    decreases |hops|
  {
    if hops == [] {
      ArrivalChecksType(doc, t);
      if t.Some? && !doc.Null? && !TypeMatches(t.value, doc) {
        assert Reaches(doc, hops, doc);
      }
    } else {
      var ts, rest := Targets(doc, hops[0]), hops[1..];
      forall i | 0 <= i < |ts| ensures Walk(ts[i], Labels(rest), t) == Deserved(ts[i], rest, t) {
        WalkIsDeserved(ts[i], rest, t);
      }
      WalkOneHop(doc, hops, t);
      WalkEachIsWorst(ts, Labels(rest), t);
      BreaksUnder(doc, hops);
      if ts != [] {
        WorstOfTargets(doc, hops, t, ts, rest);
      }
    }
  }

  lemma WorstOfTargets(doc: Json, hops: seq<Hop>, t: Option<string>, ts: seq<Json>, rest: seq<Hop>)
    requires hops != [] && ts == Targets(doc, hops[0]) && rest == hops[1..] && ts != []
    ensures Breaks(doc, hops) <==> exists i :: 0 <= i < |ts| && Deserved(ts[i], rest, t) == Missing
    ensures !Breaks(doc, hops) ==>
              (MeetsWrongType(doc, hops, t) <==> exists i :: 0 <= i < |ts| && Deserved(ts[i], rest, t) == WrongType)
    ensures !Breaks(doc, hops) && !MeetsWrongType(doc, hops, t) ==>
              (MeetsNull(doc, hops) <==> exists i :: 0 <= i < |ts| && Deserved(ts[i], rest, t) == IsNull)
  {
    BreaksUnder(doc, hops);
    WrongTypeUnder(doc, hops, t);
    ReachesUnder(doc, hops, Null);
  }

  lemma LabelOfParsed(part: string)
    ensures Label(ParseHop(part)) == part
  {
    if EndsInBrackets(part) {
      assert part == part[..|part| - 2] + "[]";
    }
  }

  lemma PartsAreLabels(path: string)
    ensures Parts(path) == Labels(Decode(path))
  {
    forall i | 0 <= i < |Parts(path)| ensures Parts(path)[i] == Labels(Decode(path))[i] {
      LabelOfParsed(Parts(path)[i]);
    }
  }

  /**
   * For every document, path string and type: the verdict is missing if and only if, for some choice of
   * array elements, a hop cannot be followed; otherwise wrong type if and only if some value at the end
   * is not null and not admitted; otherwise null if and only if some value at the end is null.
   */
  lemma VerdictMeaning(doc: Json, path: string, t: Option<string>)
    ensures var v, hops := CheckPath(doc, path, t), Decode(path);
            && (v == Missing <==> Breaks(doc, hops))
            && (v == WrongType <==> !Breaks(doc, hops) && MeetsWrongType(doc, hops, t))
            && (v == IsNull <==> !Breaks(doc, hops) && !MeetsWrongType(doc, hops, t) && MeetsNull(doc, hops))
  {
    forall i | 0 <= i < |Decode(path)| ensures Clean(Decode(path)[i]) {
      DecodeIsClean(path, i);
    }
    PartsAreLabels(path);
    WalkIsDeserved(doc, Decode(path), t);
  }

  // ---------------------------------------------------------------------------
  // The counters of a report
  // ---------------------------------------------------------------------------

  /** Some required path of the schema breaks on the document. */
  ghost predicate SomePathBreaks(paths: seq<TypedPath>, doc: Json) {
    exists i :: 0 <= i < |paths| && Breaks(doc, Decode(paths[i].0))
  }

  lemma SomeMissingMeans(paths: seq<TypedPath>, doc: Json)
    ensures SomeMissing(Verdicts(paths, doc)) <==> SomePathBreaks(paths, doc)
  {
    var row := Verdicts(paths, doc);
    forall i | 0 <= i < |paths| ensures row[i] == Missing <==> Breaks(doc, Decode(paths[i].0)) {
      VerdictMeaning(doc, paths[i].0, paths[i].1);
    }
    if SomePathBreaks(paths, doc) {
      var i :| 0 <= i < |paths| && Breaks(doc, Decode(paths[i].0));
      assert row[i] == Missing;
    }
  }

  lemma {:induction false} MissCountRows(rows: seq<seq<Verdict>>, m: nat)
    requires m <= |rows|
    ensures MissCount(rows, m) == |set k | 0 <= k < m && SomeMissing(rows[k])|
  {
    var hit := set k | 0 <= k < m && SomeMissing(rows[k]);
    if m > 0 {
      MissCountRows(rows, m - 1);
      var before := set k | 0 <= k < m - 1 && SomeMissing(rows[k]);
      assert hit == before + if SomeMissing(rows[m - 1]) then {m - 1} else {};
    }
  }

  /** For every schema, a document counts as having something missing exactly when a required path breaks on it. */
  lemma AnyMissingMeans(s: Schema, docs: seq<Json>, r: Report)
    requires IsReport(s, docs, r)
    ensures r.anyMissing == |set k | 0 <= k < |docs| && SomePathBreaks(RequiredPaths(s, ""), docs[k])|
  {
    var paths := RequiredPaths(s, "");
    var rows := Table(paths, docs);
    MissCountRows(rows, |rows|);
    forall k | 0 <= k < |docs| ensures SomeMissing(rows[k]) <==> SomePathBreaks(paths, docs[k]) {
      SomeMissingMeans(paths, docs[k]);
    }
    assert (set k | 0 <= k < |rows| && SomeMissing(rows[k]))
        == set k | 0 <= k < |docs| && SomePathBreaks(paths, docs[k]);
  }

  lemma {:induction false} TallyRowOfOne<K>(keys: seq<K>, row: seq<Verdict>, n: nat, i: nat, v: Verdict)
    requires i < |keys| == |row| && n <= |keys| && forall a, b :: 0 <= a < b < |keys| ==> keys[a] != keys[b]
    ensures TallyRow(keys, row, n, keys[i], v) == if i < n && row[i] == v then 1 else 0
  {
    if n > 0 {
      TallyRowOfOne(keys, row, n - 1, i, v);
    }
  }

  /** With distinct keys, a tally counts the rows that have the verdict in that column. */
  lemma {:induction false} TallyCountsColumn<K>(
    keys: seq<K>, rows: seq<seq<Verdict>>, m: nat, i: nat, v: Verdict, column: seq<Verdict>)
    requires i < |keys| && m <= |rows| == |column| && IsTable(rows, |keys|)
    requires forall a, b :: 0 <= a < b < |keys| ==> keys[a] != keys[b]
    requires forall k :: 0 <= k < |rows| ==> rows[k][i] == column[k]
    ensures Tally(keys, rows, m, keys[i], v) == |set k | 0 <= k < m && column[k] == v|
  {
    if m > 0 {
      TallyCountsColumn(keys, rows, m - 1, i, v, column);
      TallyRowOfOne(keys, rows[m - 1], |keys|, i, v);
      CountOneMore(column, m, v);
    }
  }

  lemma CountOneMore(column: seq<Verdict>, m: nat, v: Verdict)
    requires 0 < m <= |column|
    ensures |set k | 0 <= k < m && column[k] == v|
            == |set k | 0 <= k < m - 1 && column[k] == v| + if column[m - 1] == v then 1 else 0
  {
    var hit, before := set k | 0 <= k < m && column[k] == v, set k | 0 <= k < m - 1 && column[k] == v;
    assert hit == before + if column[m - 1] == v then {m - 1} else {};
  }

  lemma CleanPathDecodes(s: Schema, i: nat)
    requires CleanSchema(s) && i < |HopPaths(s)|
    ensures |RequiredPaths(s, "")| == |HopPaths(s)|
    ensures RequiredPaths(s, "")[i] == (Encode(HopPaths(s)[i].0), HopPaths(s)[i].1)
    ensures Decode(Encode(HopPaths(s)[i].0)) == HopPaths(s)[i].0
  {
    CompilationRenders(s, "");
    var hops := HopPaths(s)[i].0;
    assert "" + Encode(hops) == Encode(hops);
    forall k | 0 <= k < |hops| ensures Clean(hops[k]) {
      CleanSchemaCleanHops(s, i, k);
    }
    PathRoundTrip(hops);
  }

  lemma VerdictIsDeserved(s: Schema, docs: seq<Json>, i: nat, k: nat)
    requires CleanSchema(s) && i < |HopPaths(s)| && k < |docs|
    ensures |RequiredPaths(s, "")| == |HopPaths(s)|
    ensures Table(RequiredPaths(s, ""), docs)[k][i] == Deserved(docs[k], HopPaths(s)[i].0, HopPaths(s)[i].1)
  {
    CleanPathDecodes(s, i);
    var path := RequiredPaths(s, "")[i];
    VerdictMeaning(docs[k], path.0, path.1);
  }

  lemma KeysDistinct(s: Schema)
    requires CleanSchema(s) && NoRepeats(s)
    ensures var keys := Keys(RequiredPaths(s, "")); forall a, b :: 0 <= a < b < |keys| ==> keys[a] != keys[b]
  {
    var keys := Keys(RequiredPaths(s, ""));
    forall a, b | 0 <= a < b < |keys| ensures keys[a] != keys[b] {
      PathsDiffer(s, a, b);
    }
  }

  lemma CountIsDeserved(s: Schema, docs: seq<Json>, r: Report, i: nat, v: Verdict)
    requires CleanSchema(s) && NoRepeats(s) && IsReport(s, docs, r) && i < |HopPaths(s)|
    ensures |r.fields| == |HopPaths(s)|
    ensures Count(r.fields[i], v)
            == |set k | 0 <= k < |docs| && Deserved(docs[k], HopPaths(s)[i].0, HopPaths(s)[i].1) == v|
  {
    var keys, rows := Keys(RequiredPaths(s, "")), Table(RequiredPaths(s, ""), docs);
    CleanPathDecodes(s, i);
    KeysDistinct(s);
    var hops, t := HopPaths(s)[i].0, HopPaths(s)[i].1;
    var column := seq(|docs|, k requires 0 <= k < |docs| => Deserved(docs[k], hops, t));
    forall k | 0 <= k < |docs| ensures rows[k][i] == column[k] {
      VerdictIsDeserved(s, docs, i, k);
    }
    TallyCountsColumn(keys, rows, |rows|, i, v, column);
    assert (set k | 0 <= k < |docs| && column[k] == v) == set k | 0 <= k < |docs| && Deserved(docs[k], hops, t) == v;
  }

  /**
   * On a schema with clean, unrepeated names, the i-th field of a report is the i-th required path with
   * its declared type, and each counter is the number of documents with that fate: the path breaks; it
   * does not and meets a value of the wrong type; it meets neither but a null; it meets none of these.
   */
  lemma CountersMean(s: Schema, docs: seq<Json>, r: Report, i: nat)
    requires CleanSchema(s) && NoRepeats(s) && IsReport(s, docs, r) && i < |HopPaths(s)|
    ensures |r.fields| == |HopPaths(s)|
    ensures var (hops, t) := HopPaths(s)[i];
            var f := r.fields[i];
            && f.path == Encode(hops) && f.expected == t
            && f.missing == |set k | 0 <= k < |docs| && Breaks(docs[k], hops)|
            && f.wrongType == |set k | 0 <= k < |docs| && !Breaks(docs[k], hops) && MeetsWrongType(docs[k], hops, t)|
            && f.nulls == |set k | 0 <= k < |docs| && !Breaks(docs[k], hops) && !MeetsWrongType(docs[k], hops, t)
                                   && MeetsNull(docs[k], hops)|
            && f.present == |set k | 0 <= k < |docs| && !Breaks(docs[k], hops) && !MeetsWrongType(docs[k], hops, t)
                                     && !MeetsNull(docs[k], hops)|
  {
    CleanPathDecodes(s, i);
    TypeOfField(s, docs, r, i);
    CountIsDeserved(s, docs, r, i, Missing);
    CountIsDeserved(s, docs, r, i, WrongType);
    CountIsDeserved(s, docs, r, i, IsNull);
    CountIsDeserved(s, docs, r, i, Present);
    FatesOfDocuments(docs, HopPaths(s)[i].0, HopPaths(s)[i].1);
  }

  /** Which documents deserve which verdict. */
  lemma FatesOfDocuments(docs: seq<Json>, hops: seq<Hop>, t: Option<string>)
    ensures (set k | 0 <= k < |docs| && Deserved(docs[k], hops, t) == Missing)
            == set k | 0 <= k < |docs| && Breaks(docs[k], hops)
    ensures (set k | 0 <= k < |docs| && Deserved(docs[k], hops, t) == WrongType)
            == set k | 0 <= k < |docs| && !Breaks(docs[k], hops) && MeetsWrongType(docs[k], hops, t)
    ensures (set k | 0 <= k < |docs| && Deserved(docs[k], hops, t) == IsNull)
            == set k | 0 <= k < |docs| && !Breaks(docs[k], hops) && !MeetsWrongType(docs[k], hops, t)
                       && MeetsNull(docs[k], hops)
    ensures (set k | 0 <= k < |docs| && Deserved(docs[k], hops, t) == Present)
            == set k | 0 <= k < |docs| && !Breaks(docs[k], hops) && !MeetsWrongType(docs[k], hops, t)
                       && !MeetsNull(docs[k], hops)
  {
  }

  lemma {:induction false} DistinctDeclaredType(paths: seq<TypedPath>, i: nat)
    requires i < |paths| && forall a, b :: 0 <= a < b < |paths| ==> paths[a].0 != paths[b].0
    ensures DeclaredType(paths, paths[i].0) == paths[i].1
  {
    if i < |paths| - 1 {
      DistinctDeclaredType(Init(paths), i);
    }
  }

  lemma TypeOfField(s: Schema, docs: seq<Json>, r: Report, i: nat)
    requires CleanSchema(s) && NoRepeats(s) && IsReport(s, docs, r) && i < |r.fields|
    ensures r.fields[i].expected == RequiredPaths(s, "")[i].1
  {
    var paths := RequiredPaths(s, "");
    forall a, b | 0 <= a < b < |paths| ensures paths[a].0 != paths[b].0 {
      PathsDiffer(s, a, b);
    }
    DistinctDeclaredType(paths, i);
  }
}
