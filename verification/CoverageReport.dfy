/** The corpus report: per-field counters over all documents, and what their totals mean. */
module CoverageReport {
  import opened Common
  import opened RequiredCoverage

  /** Counters of one field, identified by a key (its path string). */
  datatype FieldStat<K> = FieldStat(
    path: K, expected: Option<string>, present: nat, missing: nat, nulls: nat, wrongType: nat)

  datatype Report = Report(total: nat, allPresent: nat, anyMissing: nat, fields: seq<FieldStat<string>>)

  function Count<K>(f: FieldStat<K>, v: Verdict): nat {
    match v
    case Present => f.present
    case Missing => f.missing
    case IsNull => f.nulls
    case WrongType => f.wrongType
  }

  function Total<K>(f: FieldStat<K>): nat {
    f.present + f.missing + f.nulls + f.wrongType
  }

  function Bump<K>(f: FieldStat<K>, v: Verdict): FieldStat<K> {
    match v
    case Present => f.(present := f.present + 1)
    case Missing => f.(missing := f.missing + 1)
    case IsNull => f.(nulls := f.nulls + 1)
    case WrongType => f.(wrongType := f.wrongType + 1)
  }

  // ---------------------------------------------------------------------------
  // What the counters should hold, for a table of verdicts
  // ---------------------------------------------------------------------------

  /** One row of verdicts per document, one column per path. */
  ghost predicate IsTable(rows: seq<seq<Verdict>>, width: nat) {
    forall i :: 0 <= i < |rows| ==> |rows[i]| == width
  }

  /** How many of the first `n` columns have the key `k`. */
  function Occurrences<K(==)>(keys: seq<K>, n: nat, k: K): nat
    requires n <= |keys|
  {
    if n == 0 then 0 else Occurrences(keys, n - 1, k) + if keys[n - 1] == k then 1 else 0
  }

  /** How many of them have the verdict `v` in a row. */
  function TallyRow<K(==)>(keys: seq<K>, row: seq<Verdict>, n: nat, k: K, v: Verdict): nat
    requires n <= |keys| == |row|
  {
    if n == 0 then 0 else TallyRow(keys, row, n - 1, k, v) + if keys[n - 1] == k && row[n - 1] == v then 1 else 0
  }

  function Tally<K(==)>(keys: seq<K>, rows: seq<seq<Verdict>>, m: nat, k: K, v: Verdict): nat
    requires m <= |rows| && IsTable(rows, |keys|)
  {
    if m == 0 then 0 else Tally(keys, rows, m - 1, k, v) + TallyRow(keys, rows[m - 1], |keys|, k, v)
  }

  predicate AllOk(row: seq<Verdict>) {
    forall i :: 0 <= i < |row| ==> row[i] == Present
  }

  predicate SomeMissing(row: seq<Verdict>) {
    exists i :: 0 <= i < |row| && row[i] == Missing
  }

  function PassCount(rows: seq<seq<Verdict>>, m: nat): nat
    requires m <= |rows|
  {
    if m == 0 then 0 else PassCount(rows, m - 1) + if AllOk(rows[m - 1]) then 1 else 0
  }

  function MissCount(rows: seq<seq<Verdict>>, m: nat): nat
    requires m <= |rows|
  {
    if m == 0 then 0 else MissCount(rows, m - 1) + if SomeMissing(rows[m - 1]) then 1 else 0
  }

  // ---------------------------------------------------------------------------
  // The counting loops
  // ---------------------------------------------------------------------------

  ghost predicate Covers<K>(stats: map<K, FieldStat<K>>, keys: seq<K>) {
    forall i :: 0 <= i < |keys| ==> keys[i] in stats
  }

  /** The counters after the first `n` verdicts of one row. */
  function AfterRow<K(==)>(
    stats: map<K, FieldStat<K>>, keys: seq<K>, row: seq<Verdict>, n: nat): (r: map<K, FieldStat<K>>)
    requires n <= |keys| == |row| && Covers(stats, keys)
    ensures r.Keys == stats.Keys
  {
    if n == 0 then stats
    else
      var before, k := AfterRow(stats, keys, row, n - 1), keys[n - 1];
      before[k := Bump(before[k], row[n - 1])]
  }

  /** The counters after the first `m` rows. */
  function AfterRows<K(==)>(
    stats: map<K, FieldStat<K>>, keys: seq<K>, rows: seq<seq<Verdict>>, m: nat): (r: map<K, FieldStat<K>>)
    requires m <= |rows| && IsTable(rows, |keys|) && Covers(stats, keys)
    ensures r.Keys == stats.Keys
  {
    if m == 0 then stats else AfterRow(AfterRows(stats, keys, rows, m - 1), keys, rows[m - 1], |keys|)
  }

  lemma {:induction false} AfterRowCounts<K>(
    stats: map<K, FieldStat<K>>, keys: seq<K>, row: seq<Verdict>, n: nat, k: K, v: Verdict)
    requires n <= |keys| == |row| && Covers(stats, keys) && k in stats
    ensures Count(AfterRow(stats, keys, row, n)[k], v) == Count(stats[k], v) + TallyRow(keys, row, n, k, v)
    ensures AfterRow(stats, keys, row, n)[k].path == stats[k].path
    ensures AfterRow(stats, keys, row, n)[k].expected == stats[k].expected
  {
    if n > 0 {
      AfterRowCounts(stats, keys, row, n - 1, k, v);
    }
  }

  /** The counters hold the tallies, column by column. */
  lemma {:induction false} AfterRowsCounts<K>(
    stats: map<K, FieldStat<K>>, keys: seq<K>, rows: seq<seq<Verdict>>, m: nat, k: K, v: Verdict)
    requires m <= |rows| && IsTable(rows, |keys|) && Covers(stats, keys) && k in stats
    ensures Count(AfterRows(stats, keys, rows, m)[k], v) == Count(stats[k], v) + Tally(keys, rows, m, k, v)
    ensures AfterRows(stats, keys, rows, m)[k].path == stats[k].path
    ensures AfterRows(stats, keys, rows, m)[k].expected == stats[k].expected
  {
    if m > 0 {
      AfterRowsCounts(stats, keys, rows, m - 1, k, v);
      AfterRowCounts(AfterRows(stats, keys, rows, m - 1), keys, rows[m - 1], |keys|, k, v);
    }
  }

  /** The loop over the paths of one document. */
  method CountRow<K(==)>(keys: seq<K>, stats0: map<K, FieldStat<K>>, row: seq<Verdict>)
    returns (stats: map<K, FieldStat<K>>, allOk: bool, anyMissing: bool)
    requires |keys| == |row| && Covers(stats0, keys)
    ensures stats == AfterRow(stats0, keys, row, |keys|)
    ensures (allOk <==> AllOk(row)) && (anyMissing <==> SomeMissing(row))
  {
    stats, allOk, anyMissing := stats0, true, false;
    for n := 0 to |keys|
      invariant stats == AfterRow(stats0, keys, row, n)
      invariant allOk <==> forall i :: 0 <= i < n ==> row[i] == Present
      invariant anyMissing <==> exists i :: 0 <= i < n && row[i] == Missing
    {
      stats := stats[keys[n] := Bump(stats[keys[n]], row[n])];
      if row[n] == Missing {
        anyMissing, allOk := true, false;
      } else if row[n] != Present {
        allOk := false;
      }
    }
  }

  method EmptyStats(paths: seq<TypedPath>) returns (stats: map<string, FieldStat<string>>)
    ensures forall i :: 0 <= i < |paths| ==> paths[i].0 in stats
    ensures forall p :: p in stats ==> stats[p].path == p && Total(stats[p]) == 0
    ensures forall p :: p in stats ==> stats[p].expected == DeclaredType(paths, p)
  {
    stats := map[];
    for i := 0 to |paths|
      invariant forall k :: 0 <= k < i ==> paths[k].0 in stats
      invariant forall p :: p in stats ==> stats[p].path == p && Total(stats[p]) == 0
      invariant forall p :: p in stats ==> stats[p].expected == DeclaredType(paths[..i], p)
    {
      assert Init(paths[..i + 1]) == paths[..i];
      stats := stats[paths[i].0 := FieldStat(paths[i].0, paths[i].1, 0, 0, 0, 0)];
    }
    assert paths[..|paths|] == paths;
  }

  // ---------------------------------------------------------------------------
  // The report
  // ---------------------------------------------------------------------------

  function Keys(paths: seq<TypedPath>): seq<string> {
    seq(|paths|, i requires 0 <= i < |paths| => paths[i].0)
  }

  /** The verdict of every path on one document. */
  function Verdicts(paths: seq<TypedPath>, doc: Json): seq<Verdict> {
    seq(|paths|, i requires 0 <= i < |paths| => CheckPath(doc, paths[i].0, paths[i].1))
  }

  function Table(paths: seq<TypedPath>, docs: seq<Json>): (rows: seq<seq<Verdict>>)
    ensures |rows| == |docs| && IsTable(rows, |Keys(paths)|)
  {
    seq(|docs|, i requires 0 <= i < |docs| => Verdicts(paths, docs[i]))
  }

  /** Every field of a report holds the tallies of its path over the table. */
  ghost predicate FieldsTally(r: Report, keys: seq<string>, rows: seq<seq<Verdict>>)
    requires IsTable(rows, |keys|)
  {
    && |r.fields| == |keys|
    && (forall i :: 0 <= i < |keys| ==> r.fields[i].path == keys[i])
    && (forall i, v :: 0 <= i < |keys| ==> Count(r.fields[i], v) == Tally(keys, rows, |rows|, keys[i], v))
  }

  /** The type a path string was last given; None for a string that is not in the list. */
  function DeclaredType(paths: seq<TypedPath>, path: string): Option<string> {
    if paths == [] then None
    else if Last(paths).0 == path then Last(paths).1
    else DeclaredType(Init(paths), path)
  }

  /** Every field declares the type of its path. */
  ghost predicate FieldsTyped(r: Report, paths: seq<TypedPath>) {
    |r.fields| == |paths| && forall i :: 0 <= i < |paths| ==> r.fields[i].expected == DeclaredType(paths, paths[i].0)
  }

  ghost predicate CountsRight(paths: seq<TypedPath>, docs: seq<Json>, r: Report) {
    var rows := Table(paths, docs);
    && r.total == |docs|
    && r.allPresent == PassCount(rows, |rows|) && r.anyMissing == MissCount(rows, |rows|)
    && FieldsTally(r, Keys(paths), rows) && FieldsTyped(r, paths)
  }

  /** `r` is the report on the documents under the schema. */
  ghost predicate IsReport(schema: Schema, docs: seq<Json>, r: Report) {
    CountsRight(RequiredPaths(schema, ""), docs, r)
  }

  method MakeReport(schema: Schema, docs: seq<Json>) returns (r: Report)
    ensures IsReport(schema, docs, r)
  {
    var paths := RequiredPaths(schema, "");
    var empty := EmptyStats(paths);
    r := CountAll(paths, empty, docs);
  }

  /** The counters start at zero, under the declared types. */
  ghost predicate StartsEmpty(paths: seq<TypedPath>, empty: map<string, FieldStat<string>>) {
    && (forall i :: 0 <= i < |paths| ==> paths[i].0 in empty)
    && (forall p :: p in empty ==> empty[p].path == p && Total(empty[p]) == 0)
    && (forall p :: p in empty ==> empty[p].expected == DeclaredType(paths, p))
  }

  /** The loop over the documents, each with its row of verdicts. */
  method CountRows<K(==)>(keys: seq<K>, empty: map<K, FieldStat<K>>, rows: seq<seq<Verdict>>)
    returns (stats: map<K, FieldStat<K>>, allPresent: nat, anyMissing: nat)
    requires Covers(empty, keys) && IsTable(rows, |keys|)
    ensures stats == AfterRows(empty, keys, rows, |rows|)
    ensures allPresent == PassCount(rows, |rows|) && anyMissing == MissCount(rows, |rows|)
  {
    stats, allPresent, anyMissing := empty, 0, 0;
    for m := 0 to |rows|
      invariant stats == AfterRows(empty, keys, rows, m)
      invariant allPresent == PassCount(rows, m) && anyMissing == MissCount(rows, m)
    {
      var ok, miss;
      stats, ok, miss := CountRow(keys, stats, rows[m]);
      allPresent := allPresent + if ok then 1 else 0;
      anyMissing := anyMissing + if miss then 1 else 0;
    }
  }

  method CountAll(paths: seq<TypedPath>, empty: map<string, FieldStat<string>>, docs: seq<Json>) returns (r: Report)
    requires StartsEmpty(paths, empty)
    ensures CountsRight(paths, docs, r)
  {
    var keys := Keys(paths);
    var stats, allPresent, anyMissing := CountRows(keys, empty, Table(paths, docs));
    var fields := seq(|keys|, i requires 0 <= i < |keys| && keys[i] in stats => stats[keys[i]]);
    r := Report(|docs|, allPresent, anyMissing, fields);
    FieldsAreTallies(paths, empty, Table(paths, docs), r);
  }

  lemma FieldsAreTallies(
    paths: seq<TypedPath>, empty: map<string, FieldStat<string>>, rows: seq<seq<Verdict>>, r: Report)
    requires IsTable(rows, |paths|) && |r.fields| == |paths| && StartsEmpty(paths, empty)
    requires var after := AfterRows(empty, Keys(paths), rows, |rows|);
             forall i :: 0 <= i < |paths| ==> r.fields[i] == after[Keys(paths)[i]]
    ensures FieldsTally(r, Keys(paths), rows) && FieldsTyped(r, paths)
  {
    var keys := Keys(paths);
    forall i, v | 0 <= i < |keys| ensures Count(r.fields[i], v) == Tally(keys, rows, |rows|, keys[i], v) {
      FieldIsTally(empty, keys, rows, keys[i], v);
    }
    forall i | 0 <= i < |keys|
      ensures r.fields[i].path == keys[i] && r.fields[i].expected == DeclaredType(paths, keys[i])
    {
      FieldIsTally(empty, keys, rows, keys[i], Present);
    }
  }

  lemma FieldIsTally(
    empty: map<string, FieldStat<string>>, keys: seq<string>, rows: seq<seq<Verdict>>, k: string, v: Verdict)
    requires IsTable(rows, |keys|) && Covers(empty, keys) && k in empty && empty[k].path == k && Total(empty[k]) == 0
    ensures AfterRows(empty, keys, rows, |rows|)[k].path == k
    ensures AfterRows(empty, keys, rows, |rows|)[k].expected == empty[k].expected
    ensures Count(AfterRows(empty, keys, rows, |rows|)[k], v) == Tally(keys, rows, |rows|, k, v)
  {
    AfterRowsCounts(empty, keys, rows, |rows|, k, v);
  }

  // ---------------------------------------------------------------------------
  // What the numbers mean
  // ---------------------------------------------------------------------------

  lemma {:induction false} TallyRowTotal<K>(keys: seq<K>, row: seq<Verdict>, n: nat, k: K)
    requires n <= |keys| == |row|
    ensures TallyRow(keys, row, n, k, Present) + TallyRow(keys, row, n, k, Missing)
            + TallyRow(keys, row, n, k, IsNull) + TallyRow(keys, row, n, k, WrongType) == Occurrences(keys, n, k)
  {
    if n > 0 {
      TallyRowTotal(keys, row, n - 1, k);
    }
  }

  function TallySum<K(==)>(keys: seq<K>, rows: seq<seq<Verdict>>, m: nat, k: K): nat
    requires m <= |rows| && IsTable(rows, |keys|)
  {
    Tally(keys, rows, m, k, Present) + Tally(keys, rows, m, k, Missing)
    + Tally(keys, rows, m, k, IsNull) + Tally(keys, rows, m, k, WrongType)
  }

  /** The four tallies of a key add up to the rows, once per column of that key. */
  lemma {:induction false} TallyTotal<K>(keys: seq<K>, rows: seq<seq<Verdict>>, m: nat, k: K)
    requires m <= |rows| && IsTable(rows, |keys|)
    ensures TallySum(keys, rows, m, k) == m * Occurrences(keys, |keys|, k)
  {
    if m > 0 {
      TallyTotal(keys, rows, m - 1, k);
      TallyRowTotal(keys, rows[m - 1], |keys|, k);
      MulStep(m, Occurrences(keys, |keys|, k));
    }
  }

  lemma MulStep(m: nat, o: nat)
    requires m > 0
    ensures m * o == (m - 1) * o + o
  {
  }

  lemma TimesOne(n: nat, o: nat)
    requires o >= 1
    ensures n * o == n <==> n == 0 || o == 1
  {
    if n > 0 && o > 1 {
      assert n * o == n + n * (o - 1);
      assert n * (o - 1) >= 1;
    }
  }

  /**
   * A field's four counts sum to the number of documents exactly when its path string occurs once
   * (or there is no document to count).
   */
  lemma CountsSumToDocuments(r: Report, keys: seq<string>, rows: seq<seq<Verdict>>, i: nat)
    requires IsTable(rows, |keys|) && FieldsTally(r, keys, rows) && i < |keys|
    ensures Total(r.fields[i]) == |rows| * Occurrences(keys, |keys|, keys[i])
    ensures Total(r.fields[i]) == |rows| <==> rows == [] || Occurrences(keys, |keys|, keys[i]) == 1
  {
    var f := r.fields[i];
    TallyTotal(keys, rows, |rows|, keys[i]);
    assert f.present == Count(f, Present) && f.missing == Count(f, Missing);
    assert f.nulls == Count(f, IsNull) && f.wrongType == Count(f, WrongType);
    OccursAtLeastOnce(keys, |keys|, i);
    TimesOne(|rows|, Occurrences(keys, |keys|, keys[i]));
  }

  lemma {:induction false} OccursAtLeastOnce<K>(keys: seq<K>, n: nat, i: nat)
    requires i < n <= |keys|
    ensures Occurrences(keys, n, keys[i]) >= 1
  {
    if n - 1 > i {
      OccursAtLeastOnce(keys, n - 1, i);
    }
  }

  lemma {:induction false} DistinctOccurOnce<K>(keys: seq<K>, n: nat, i: nat)
    requires i < |keys| && n <= |keys| && forall a, b :: 0 <= a < b < |keys| ==> keys[a] != keys[b]
    ensures Occurrences(keys, n, keys[i]) == if i < n then 1 else 0
  {
    if n > 0 {
      DistinctOccurOnce(keys, n - 1, i);
    }
  }

  ghost function AcceptCount(s: Schema, docs: seq<Json>, m: nat): nat
    requires m <= |docs|
  {
    if m == 0 then 0 else AcceptCount(s, docs, m - 1) + if Accepts(s, docs[m - 1]) then 1 else 0
  }

  lemma RowOkIsAccepted(s: Schema, doc: Json)
    requires CleanSchema(s)
    ensures AllOk(Verdicts(RequiredPaths(s, ""), doc)) <==> Accepts(s, doc)
  {
    CompilationPreservesMeaning(s, doc);
    var paths := RequiredPaths(s, "");
    var row := Verdicts(paths, doc);
    assert forall i :: 0 <= i < |paths| ==> row[i] == CheckPath(doc, paths[i].0, paths[i].1);
  }

  /** For a clean schema, the passing documents are the ones direct validation accepts. */
  lemma {:induction false} PassCountIsAcceptCount(s: Schema, docs: seq<Json>, m: nat)
    requires CleanSchema(s) && m <= |docs|
    ensures PassCount(Table(RequiredPaths(s, ""), docs), m) == AcceptCount(s, docs, m)
  {
    if m > 0 {
      PassCountIsAcceptCount(s, docs, m - 1);
      RowOkIsAccepted(s, docs[m - 1]);
    }
  }

  // ---------------------------------------------------------------------------
  // When paths are distinct
  // ---------------------------------------------------------------------------

  /** No required list names the same field twice. */
  ghost predicate NoRepeats(s: Schema)
    decreases s, 1
  {
    IsObjectSchema(s) ==>
      && (forall i, j :: 0 <= i < j < |s.required| ==> s.required[i] != s.required[j])
      && (forall name :: name in s.required ==> NoRepeatsField(s, name))
  }

  ghost predicate NoRepeatsField(s: Schema, name: string)
    requires s.Dict?
    decreases s, 0
  {
    name in s.properties && s.properties[name].Dict? ==>
      var sub := s.properties[name];
      && (sub.typ == Some("object") ==> NoRepeats(sub))
      && (sub.typ == Some("array") && IsObjectSchema(sub.items) ==> NoRepeats(sub.items))
  }

  ghost predicate DistinctHops(paths: seq<HopPath>) {
    forall i, j :: 0 <= i < j < |paths| ==> paths[i].0 != paths[j].0
  }

  /** Every structured path of a field starts with a hop of that name. */
  lemma FieldPathsStart(s: Schema, name: string, i: nat)
    requires s.Dict? && i < |FieldHopPaths(s, name)|
    ensures FieldHopPaths(s, name)[i].0 != [] && FieldHopPaths(s, name)[i].0[0].name == name
  {
  }

  lemma {:induction false} NamedPathsStart(s: Schema, names: seq<string>, i: nat)
    requires s.Dict? && i < |NamedHopPaths(s, names)|
    ensures NamedHopPaths(s, names)[i].0 != [] && NamedHopPaths(s, names)[i].0[0].name in names
  {
    var n := |FieldHopPaths(s, names[0])|;
    if i < n {
      FieldPathsStart(s, names[0], i);
    } else {
      NamedPathsStart(s, names[1..], i - n);
    }
  }

  lemma {:induction false} HopPathsDistinct(s: Schema)
    requires NoRepeats(s)
    ensures DistinctHops(HopPaths(s))
    decreases s, 2, 0
  {
    if IsObjectSchema(s) {
      NamedPathsDistinct(s, s.required);
    }
  }

  lemma {:induction false} NamedPathsDistinct(s: Schema, names: seq<string>)
    requires s.Dict? && (forall i, j :: 0 <= i < j < |names| ==> names[i] != names[j])
    requires forall name :: name in names ==> NoRepeatsField(s, name)
    ensures DistinctHops(NamedHopPaths(s, names))
    decreases s, 1, |names|
  {
    if names != [] {
      var a, b := FieldHopPaths(s, names[0]), NamedHopPaths(s, names[1..]);
      FieldPathsDistinct(s, names[0]);
      NamedPathsDistinct(s, names[1..]);
      forall i, j | 0 <= i < |a| && 0 <= j < |b| ensures a[i].0 != b[j].0 {
        FieldPathsStart(s, names[0], i);
        NamedPathsStart(s, names[1..], j);
      }
    }
  }

  lemma {:induction false} FieldPathsDistinct(s: Schema, name: string)
    requires s.Dict? && NoRepeatsField(s, name)
    ensures DistinctHops(FieldHopPaths(s, name))
    decreases s, 0, 0
  {
    if name in s.properties && s.properties[name].Dict? {
      var sub := s.properties[name];
      if sub.typ == Some("object") {
        HopPathsDistinct(sub);
        UnderDistinct(Key(name), sub);
      } else if sub.typ == Some("array") && IsObjectSchema(sub.items) {
        HopPathsDistinct(sub.items);
        UnderDistinct(Each(name), sub.items);
      }
    }
  }

  lemma UnderDistinct(h: Hop, s: Schema)
    requires DistinctHops(HopPaths(s))
    ensures DistinctHops(Under(h, HopPaths(s)))
    ensures forall i :: 0 <= i < |HopPaths(s)| ==> Under(h, HopPaths(s))[i].0 != [Key(h.name)]
  {
    var ps := HopPaths(s);
    forall i | 0 <= i < |ps| ensures ps[i].0 != [] {
      NamedPathsStart(s, s.required, i);
    }
    forall i, j | 0 <= i < j < |ps| ensures [h] + ps[i].0 != [h] + ps[j].0 {
      assert ([h] + ps[i].0)[1..] == ps[i].0 && ([h] + ps[j].0)[1..] == ps[j].0;
    }
  }

  /** With clean names, none repeated, no two paths are the same string. */
  lemma PathsDiffer(s: Schema, i: nat, j: nat)
    requires CleanSchema(s) && NoRepeats(s) && i < j < |RequiredPaths(s, "")|
    ensures RequiredPaths(s, "")[i].0 != RequiredPaths(s, "")[j].0
  {
    CompilationRenders(s, "");
    HopPathsDistinct(s);
    var a, b := HopPaths(s)[i].0, HopPaths(s)[j].0;
    forall k | 0 <= k < |a| ensures Clean(a[k]) { CleanSchemaCleanHops(s, i, k); }
    forall k | 0 <= k < |b| ensures Clean(b[k]) { CleanSchemaCleanHops(s, j, k); }
    PathRoundTrip(a);
    PathRoundTrip(b);
    assert "" + Encode(a) == Encode(a) && "" + Encode(b) == Encode(b);
  }

  /** The two headline readings of a report on a clean schema without repeated names. */
  lemma ReportMeaning(s: Schema, docs: seq<Json>, r: Report, i: nat)
    requires CleanSchema(s) && NoRepeats(s)
    requires var rows := Table(RequiredPaths(s, ""), docs);
             r.allPresent == PassCount(rows, |rows|) && FieldsTally(r, Keys(RequiredPaths(s, "")), rows)
    ensures r.allPresent == AcceptCount(s, docs, |docs|)
    ensures i < |r.fields| ==> Total(r.fields[i]) == |docs|
  {
    PassCountIsAcceptCount(s, docs, |docs|);
    if i < |r.fields| {
      var paths := RequiredPaths(s, "");
      var keys := Keys(paths);
      forall a, b | 0 <= a < b < |keys| ensures keys[a] != keys[b] {
        PathsDiffer(s, a, b);
      }
      DistinctOccurOnce(keys, |keys|, i);
      CountsSumToDocuments(r, keys, Table(paths, docs), i);
    }
  }

  // ---------------------------------------------------------------------------
  // When names repeat
  // ---------------------------------------------------------------------------

  /** Where the paths of the p-th required name start. */
  function Offset(s: Schema, names: seq<string>, p: nat): nat
    requires s.Dict? && p <= |names|
    decreases p
  {
    if p == 0 then 0 else |FieldHopPaths(s, names[0])| + Offset(s, names[1..], p - 1)
  }

  lemma {:induction false} OffsetHolds(s: Schema, names: seq<string>, p: nat, x: nat)
    requires s.Dict? && p < |names| && x < |FieldHopPaths(s, names[p])|
    ensures Offset(s, names, p) + x < |NamedHopPaths(s, names)|
    ensures NamedHopPaths(s, names)[Offset(s, names, p) + x] == FieldHopPaths(s, names[p])[x]
    decreases p
  {
    if p > 0 {
      OffsetHolds(s, names[1..], p - 1, x);
    }
  }

  lemma {:induction false} OffsetGrows(s: Schema, names: seq<string>, p: nat, q: nat)
    requires s.Dict? && p < q <= |names|
    ensures Offset(s, names, p) < Offset(s, names, q)
    decreases p
  {
    if p > 0 {
      OffsetGrows(s, names[1..], p - 1, q - 1);
    }
  }

  /** The nested schema that contributes paths to a field, if any, and the hop that leads to it. */
  ghost predicate Nests(s: Schema, name: string, h: Hop, child: Schema)
    requires s.Dict?
  {
    && name in s.properties && s.properties[name].Dict?
    && var sub := s.properties[name];
       || (sub.typ == Some("object") && h == Key(name) && child == sub)
       || (sub.typ == Some("array") && IsObjectSchema(sub.items) && h == Each(name) && child == sub.items)
  }

  lemma NestedPath(s: Schema, name: string, h: Hop, child: Schema, x: nat)
    requires s.Dict? && Nests(s, name, h, child) && x < |HopPaths(child)|
    ensures x + 1 < |FieldHopPaths(s, name)| && FieldHopPaths(s, name)[x + 1].0 == [h] + HopPaths(child)[x].0
  {
  }

  lemma RepeatedAtTop(s: Schema, p: nat, q: nat) returns (i: nat, j: nat)
    requires IsObjectSchema(s) && p < q < |s.required| && s.required[p] == s.required[q]
    ensures i < j < |HopPaths(s)| && HopPaths(s)[i].0 == HopPaths(s)[j].0
  {
    OffsetHolds(s, s.required, p, 0);
    OffsetHolds(s, s.required, q, 0);
    OffsetGrows(s, s.required, p, q);
    i, j := Offset(s, s.required, p), Offset(s, s.required, q);
  }

  lemma RepeatedBelow(s: Schema, name: string, h: Hop, child: Schema, a: nat, b: nat) returns (i: nat, j: nat)
    requires IsObjectSchema(s) && name in s.required && Nests(s, name, h, child)
    requires a < b < |HopPaths(child)| && HopPaths(child)[a].0 == HopPaths(child)[b].0
    ensures i < j < |HopPaths(s)| && HopPaths(s)[i].0 == HopPaths(s)[j].0
  {
    NestedPath(s, name, h, child, a);
    NestedPath(s, name, h, child, b);
    i, j := RepeatedInField(s, s.required, name, a + 1, b + 1);
  }

  lemma RepeatedInField(s: Schema, names: seq<string>, name: string, x: nat, y: nat) returns (i: nat, j: nat)
    requires s.Dict? && name in names && x < y < |FieldHopPaths(s, name)|
    requires FieldHopPaths(s, name)[x].0 == FieldHopPaths(s, name)[y].0
    ensures i < j < |NamedHopPaths(s, names)| && NamedHopPaths(s, names)[i].0 == NamedHopPaths(s, names)[j].0
  {
    var p :| 0 <= p < |names| && names[p] == name;
    OffsetHolds(s, names, p, x);
    OffsetHolds(s, names, p, y);
    i, j := Offset(s, names, p) + x, Offset(s, names, p) + y;
  }

  /** A name required twice, at any depth, contributes the same path twice. */
  lemma {:induction false} RepeatedPaths(s: Schema) returns (i: nat, j: nat)
    requires !NoRepeats(s)
    ensures i < j < |HopPaths(s)| && HopPaths(s)[i].0 == HopPaths(s)[j].0
    decreases s
  {
    if p, q :| 0 <= p < q < |s.required| && s.required[p] == s.required[q] {
      i, j := RepeatedAtTop(s, p, q);
    } else {
      var name :| name in s.required && !NoRepeatsField(s, name);
      var sub := s.properties[name];
      if sub.typ == Some("object") {
        i, j := RepeatedPaths(sub);
        i, j := RepeatedBelow(s, name, Key(name), sub, i, j);
      } else {
        i, j := RepeatedPaths(sub.items);
        i, j := RepeatedBelow(s, name, Each(name), sub.items, i, j);
      }
    }
  }

  lemma {:induction false} OccursTwice<K>(keys: seq<K>, n: nat, i: nat, j: nat)
    requires i < j < n <= |keys| && keys[i] == keys[j]
    ensures Occurrences(keys, n, keys[j]) >= 2
  {
    if n - 1 > j {
      OccursTwice(keys, n - 1, i, j);
    } else {
      OccursAtLeastOnce(keys, n - 1, i);
    }
  }

  /** Every field of the report was seen once in every document. */
  ghost predicate CountsAddUp(r: Report, n: nat) {
    forall i :: 0 <= i < |r.fields| ==> Total(r.fields[i]) == n
  }

  /**
   * For every schema whose names fit into path strings: the four counts of every field sum to the
   * number of documents if and only if no required list repeats a name, or there is no document.
   */
  lemma CountsAddUpUnlessRepeated(s: Schema, docs: seq<Json>, r: Report)
    requires CleanSchema(s)
    requires var rows := Table(RequiredPaths(s, ""), docs);
             r.allPresent == PassCount(rows, |rows|) && FieldsTally(r, Keys(RequiredPaths(s, "")), rows)
    ensures CountsAddUp(r, |docs|) <==> NoRepeats(s) || docs == []
  {
    var paths := RequiredPaths(s, "");
    var keys, rows := Keys(paths), Table(paths, docs);
    if NoRepeats(s) {
      forall i | 0 <= i < |r.fields| ensures Total(r.fields[i]) == |docs| {
        ReportMeaning(s, docs, r, i);
      }
    } else {
      var i, j := RepeatedPaths(s);
      CompilationRenders(s, "");
      assert keys[i] == paths[i].0 && keys[j] == paths[j].0;
      OccursTwice(keys, |keys|, i, j);
      CountsSumToDocuments(r, keys, rows, j);
      if docs == [] {
        forall k | 0 <= k < |r.fields| ensures Total(r.fields[k]) == 0 {
          CountsSumToDocuments(r, keys, rows, k);
        }
      }
    }
  }

  const TWICE := Dict(Some("object"), ["a", "a"], map[], NotADict)

  lemma TwicePaths()
    ensures RequiredPaths(TWICE, "") == [("/a", None), ("/a", None)]
  {
    var names := ["a", "a"];
    assert "" + "/" + "a" == "/a";
    assert FieldPaths(TWICE, "a", "") == [("/a", None)];
    assert names[1..] == ["a"] && names[1..][1..] == [];
    assert NamedPaths(TWICE, [], "") == [];
    assert NamedPaths(TWICE, ["a"], "") == [("/a", None)];
  }

  /** A name listed twice counts every document twice. */
  lemma RepeatedNameCountsTwice(docs: seq<Json>, r: Report)
    requires FieldsTally(r, Keys(RequiredPaths(TWICE, "")), Table(RequiredPaths(TWICE, ""), docs))
    ensures |r.fields| == 2 && Total(r.fields[0]) == Total(r.fields[1]) == 2 * |docs|
  {
    TwicePaths();
    var paths := RequiredPaths(TWICE, "");
    var keys, rows := Keys(paths), Table(paths, docs);
    assert keys == ["/a", "/a"];
    assert Occurrences(keys, 0, "/a") == 0 && Occurrences(keys, 1, "/a") == 1 && Occurrences(keys, 2, "/a") == 2;
    CountsSumToDocuments(r, keys, rows, 0);
    CountsSumToDocuments(r, keys, rows, 1);
  }

  // ---------------------------------------------------------------------------
  // The worst field
  // ---------------------------------------------------------------------------

  /** Documents on which the field is missing, null or of the wrong type. */
  function Bad(f: FieldStat<string>): nat {
    f.missing + f.nulls + f.wrongType
  }

  /** Position of the earliest field with the most failures. */
  function WorstIndex(fields: seq<FieldStat<string>>): (i: nat)
    requires fields != []
    ensures i < |fields|
    ensures forall j :: 0 <= j < |fields| ==> Bad(fields[j]) <= Bad(fields[i])
    ensures forall j :: 0 <= j < i ==> Bad(fields[j]) < Bad(fields[i])
  {
    var n := |fields| - 1;
    if n == 0 then 0
    else
      var i := WorstIndex(fields[..n]);
      if Bad(fields[n]) > Bad(fields[i]) then n else i
  }

  function WorstOffender(r: Report): (w: Option<FieldStat<string>>)
    ensures w.None? <==> r.fields == [] || r.total == 0
    ensures w.Some? ==> w.value in r.fields && forall f :: f in r.fields ==> Bad(f) <= Bad(w.value)
  {
    if r.fields == [] || r.total == 0 then None else Some(r.fields[WorstIndex(r.fields)])
  }

  /** On a clean schema without repeated names, the worst field is the one present least often. */
  lemma WorstIsPresentLeast(s: Schema, docs: seq<Json>, r: Report, i: nat)
    requires CleanSchema(s) && NoRepeats(s) && r.total == |docs| && i < |r.fields|
    requires var rows := Table(RequiredPaths(s, ""), docs);
             r.allPresent == PassCount(rows, |rows|) && FieldsTally(r, Keys(RequiredPaths(s, "")), rows)
    ensures WorstOffender(r).Some? ==> WorstOffender(r).value.present <= r.fields[i].present
  {
    if WorstOffender(r).Some? {
      var k := WorstIndex(r.fields);
      ReportMeaning(s, docs, r, i);
      ReportMeaning(s, docs, r, k);
    }
  }
}
