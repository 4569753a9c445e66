/** The findings of the trace-span detector and the order in which a report lists them. */
module TraceFindings {

  type Id = string

  datatype Kind = MultipleRoots | Orphan | CrossTrace | Cycle | DanglingOpen

  datatype Finding = Finding(kind: Kind, id: Id)

  // ---------------------------------------------------------------------------
  // The sort key
  // ---------------------------------------------------------------------------

  /** Position of the kind's name among the five names in alphabetical order. */
  function Rank(k: Kind): nat {
    match k
    case CrossTrace => 0
    case Cycle => 1
    case DanglingOpen => 2
    case MultipleRoots => 3
    case Orphan => 4
  }

  /** Lexicographic order by code point. */
  predicate LexLeq(a: string, b: string) {
    a == [] || (b != [] && (a[0] < b[0] || (a[0] == b[0] && LexLeq(a[1..], b[1..]))))
  }

  predicate Leq(f: Finding, g: Finding) {
    Rank(f.kind) < Rank(g.kind) || (f.kind == g.kind && LexLeq(f.id, g.id))
  }

  /** The name a kind is reported under. */
  function Name(k: Kind): string {
    match k
    case MultipleRoots => "multiple_roots"
    case Orphan => "orphan"
    case CrossTrace => "cross_trace"
    case Cycle => "cycle"
    case DanglingOpen => "dangling_open"
  }

  /** The strings agree before position `i`, where `a` is smaller. */
  predicate SmallerAt(a: string, b: string, i: nat) {
    i < |a| && i < |b| && a[..i] == b[..i] && a[i] < b[i]
  }

  lemma SmallerAtNext(a: string, b: string, i: nat)
    requires a != [] && b != [] && a[0] == b[0]
    ensures SmallerAt(a, b, i + 1) <==> SmallerAt(a[1..], b[1..], i)
  {
    if i < |a| - 1 && i < |b| - 1 {
      assert a[..i + 1] == [a[0]] + a[1..][..i] && b[..i + 1] == [b[0]] + b[1..][..i];
      assert a[1..][..i] == a[..i + 1][1..] && b[1..][..i] == b[..i + 1][1..];
    }
  }

  /** One string stands before another when it is a prefix of it, or smaller where they first differ. */
  lemma {:induction false} LexMeans(a: string, b: string)
    ensures LexLeq(a, b) <==> a <= b || exists i: nat :: SmallerAt(a, b, i)
  {
    if a != [] && b != [] {
      LexMeans(a[1..], b[1..]);
      if a[0] == b[0] {
        assert a <= b <==> a[1..] <= b[1..];
        if i: nat :| SmallerAt(a[1..], b[1..], i) {
          SmallerAtNext(a, b, i);
        }
        if i: nat :| SmallerAt(a, b, i) {
          SmallerAtNext(a, b, i - 1);
        }
      } else if a[0] < b[0] {
        assert SmallerAt(a, b, 0);
      }
    }
  }

  lemma NamesDiffer(a: string, b: string, i: nat)
    requires SmallerAt(a, b, i)
    ensures LexLeq(a, b) && !LexLeq(b, a)
  {
    LexMeans(a, b);
    if LexLeq(b, a) {
      LexIsAntisymmetric(a, b);
    }
  }

  /** Findings are ordered by the name of their kind, then by span id. */
  lemma LeqMeans(f: Finding, g: Finding)
    ensures Leq(f, g) <==> if f.kind == g.kind then LexLeq(f.id, g.id) else LexLeq(Name(f.kind), Name(g.kind))
  {
    NamesDiffer(Name(CrossTrace), Name(Cycle), 1);
    NamesDiffer(Name(CrossTrace), Name(DanglingOpen), 0);
    NamesDiffer(Name(CrossTrace), Name(MultipleRoots), 0);
    NamesDiffer(Name(CrossTrace), Name(Orphan), 0);
    NamesDiffer(Name(Cycle), Name(DanglingOpen), 0);
    NamesDiffer(Name(Cycle), Name(MultipleRoots), 0);
    NamesDiffer(Name(Cycle), Name(Orphan), 0);
    NamesDiffer(Name(DanglingOpen), Name(MultipleRoots), 0);
    NamesDiffer(Name(DanglingOpen), Name(Orphan), 0);
    NamesDiffer(Name(MultipleRoots), Name(Orphan), 0);
  }

  lemma {:induction false} LexIsTotal(a: string, b: string)
    ensures LexLeq(a, b) || LexLeq(b, a)
  {
    if a != [] && b != [] {
      LexIsTotal(a[1..], b[1..]);
    }
  }

  lemma {:induction false} LexIsAntisymmetric(a: string, b: string)
    requires LexLeq(a, b) && LexLeq(b, a)
    ensures a == b
  {
    if a != [] && b != [] {
      LexIsAntisymmetric(a[1..], b[1..]);
      assert a == [a[0]] + a[1..] && b == [b[0]] + b[1..];
    }
  }

  lemma {:induction false} LexIsTransitive(a: string, b: string, c: string)
    requires LexLeq(a, b) && LexLeq(b, c)
    ensures LexLeq(a, c)
  {
    if a != [] && a[0] == b[0] == c[0] {
      LexIsTransitive(a[1..], b[1..], c[1..]);
    }
  }

  lemma LeqIsTotal(f: Finding, g: Finding)
    ensures Leq(f, g) || Leq(g, f)
  {
    LexIsTotal(f.id, g.id);
  }

  lemma LeqIsAntisymmetric(f: Finding, g: Finding)
    requires Leq(f, g) && Leq(g, f)
    ensures f == g
  {
    LexIsAntisymmetric(f.id, g.id);
  }

  lemma LeqIsTransitive(f: Finding, g: Finding, h: Finding)
    requires Leq(f, g) && Leq(g, h)
    ensures Leq(f, h)
  {
    if f.kind == g.kind == h.kind {
      LexIsTransitive(f.id, g.id, h.id);
    }
  }

  // ---------------------------------------------------------------------------
  // Sorting
  // ---------------------------------------------------------------------------

  ghost predicate Distinct<T(!new)>(s: seq<T>) {
    forall i, j :: 0 <= i < j < |s| ==> s[i] != s[j]
  }

  ghost predicate Sorted(s: seq<Finding>) {
    forall i, j :: 0 <= i < j < |s| ==> Leq(s[i], s[j])
  }

  function Insert(f: Finding, s: seq<Finding>): seq<Finding> {
    if s == [] then [f]
    else if Leq(f, s[0]) then [f] + s
    else [s[0]] + Insert(f, s[1..])
  }

  function Sort(s: seq<Finding>): seq<Finding> {
    if s == [] then [] else Insert(s[0], Sort(s[1..]))
  }

  lemma {:induction false} InsertMember(f: Finding, s: seq<Finding>, x: Finding)
    ensures x in Insert(f, s) <==> x == f || x in s
  {
    if s != [] && !Leq(f, s[0]) {
      InsertMember(f, s[1..], x);
      assert s == [s[0]] + s[1..];
    }
  }

  lemma SortedCons(f: Finding, s: seq<Finding>)
    requires Sorted(s) && forall x :: x in s ==> Leq(f, x)
    ensures Sorted([f] + s)
  {
    var r := [f] + s;
    forall i, j | 0 <= i < j < |r| ensures Leq(r[i], r[j]) {
      assert r[j] == s[j - 1] && r[j] in s;
    }
  }

  lemma SortedHead(s: seq<Finding>, x: Finding)
    requires Sorted(s) && s != [] && x in s[1..]
    ensures Leq(s[0], x)
  {
    var i :| 0 <= i < |s| - 1 && s[1..][i] == x;
    assert s[i + 1] == x;
  }

  lemma {:induction false} InsertSorted(f: Finding, s: seq<Finding>)
    requires Sorted(s)
    ensures Sorted(Insert(f, s))
  {
    if s != [] {
      LeqIsTotal(f, s[0]);
      assert s == [s[0]] + s[1..];
      if Leq(f, s[0]) {
        forall x | x in s ensures Leq(f, x) {
          if x != s[0] {
            SortedHead(s, x);
            LeqIsTransitive(f, s[0], x);
          }
        }
        SortedCons(f, s);
      } else {
        InsertSorted(f, s[1..]);
        forall x | x in Insert(f, s[1..]) ensures Leq(s[0], x) {
          InsertMember(f, s[1..], x);
          if x in s[1..] {
            SortedHead(s, x);
          }
        }
        SortedCons(s[0], Insert(f, s[1..]));
      }
    }
  }

  lemma DistinctCons(f: Finding, s: seq<Finding>)
    ensures Distinct([f] + s) <==> f !in s && Distinct(s)
  {
    var r := [f] + s;
    if Distinct(r) {
      forall i, j | 0 <= i < j < |s| ensures s[i] != s[j] {
        assert r[i + 1] == s[i] && r[j + 1] == s[j];
      }
      forall i | 0 <= i < |s| ensures s[i] != f {
        assert r[0] == f && r[i + 1] == s[i];
      }
    }
  }

  lemma {:induction false} InsertDistinct(f: Finding, s: seq<Finding>)
    requires Distinct(s) && f !in s
    ensures Distinct(Insert(f, s))
  {
    if s != [] {
      if Leq(f, s[0]) {
        DistinctCons(f, s);
      } else {
        assert s == [s[0]] + s[1..];
        DistinctCons(s[0], s[1..]);
        InsertDistinct(f, s[1..]);
        InsertMember(f, s[1..], s[0]);
        DistinctCons(s[0], Insert(f, s[1..]));
      }
    }
  }

  /** Sorting keeps the findings, each once, and puts them in order. */
  lemma {:induction false} SortFacts(s: seq<Finding>)
    ensures Sorted(Sort(s))
    ensures forall x :: x in Sort(s) <==> x in s
    ensures Distinct(s) ==> Distinct(Sort(s))
  {
    if s != [] {
      var rest := Sort(s[1..]);
      assert s == [s[0]] + s[1..];
      SortFacts(s[1..]);
      InsertSorted(s[0], rest);
      forall x ensures x in Sort(s) <==> x in s {
        InsertMember(s[0], rest, x);
      }
      if Distinct(s) {
        DistinctCons(s[0], s[1..]);
        InsertDistinct(s[0], rest);
      }
    }
  }

  lemma SortedHeadIsLeast(a: seq<Finding>, x: Finding)
    requires Sorted(a) && x in a
    ensures Leq(a[0], x)
  {
    LexIsTotal(x.id, x.id);
    if x != a[0] {
      assert a == [a[0]] + a[1..];
      SortedHead(a, x);
    }
  }

  /** There is one sorted list without repetition of any set of findings. */
  lemma {:induction false} SortedIsUnique(a: seq<Finding>, b: seq<Finding>)
    requires Sorted(a) && Sorted(b) && Distinct(a) && Distinct(b)
    requires forall x :: x in a <==> x in b
    ensures a == b
  {
    assert a != [] ==> a[0] in a;
    assert b != [] ==> b[0] in b;
    if a != [] && b != [] {
      SortedHeadIsLeast(a, b[0]);
      SortedHeadIsLeast(b, a[0]);
      LeqIsAntisymmetric(a[0], b[0]);
      assert a == [a[0]] + a[1..] && b == [b[0]] + b[1..];
      DistinctCons(a[0], a[1..]);
      DistinctCons(b[0], b[1..]);
      forall x ensures x in a[1..] <==> x in b[1..] {
        assert x in a <==> x == a[0] || x in a[1..];
        assert x in b <==> x == b[0] || x in b[1..];
      }
      SortedIsUnique(a[1..], b[1..]);
    }
  }
}
