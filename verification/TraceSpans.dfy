/**
 * Model of the trace-span anomaly detector: roots per trace, orphans, cross-trace parents, parent
 * cycles and dangling open spans, and the proof that a clean report means every trace is a tree.
 */
module TraceSpans {
  import opened Common
  import opened TraceFindings

  datatype Span = Span(id: Id, parent: Option<Id>, trace: string, started: real, finished: Option<real>)

  datatype Report = Report(ok: bool, spanCount: nat, rootCount: nat, findings: seq<Finding>)

  datatype TraceError = Malformed(index: nat) | Duplicated(index: nat)

  /** Ids and trace ids are non-empty strings. */
  predicate WellFormed(s: Span) {
    s.id != "" && s.trace != "" && (s.parent.Some? ==> s.parent.value != "")
  }

  ghost predicate DistinctIds(spans: seq<Span>) {
    forall i, j :: 0 <= i < j < |spans| ==> spans[i].id != spans[j].id
  }

  function ById(spans: seq<Span>): map<Id, Span> {
    if spans == [] then map[] else ById(spans[..|spans| - 1])[spans[|spans| - 1].id := spans[|spans| - 1]]
  }

  lemma {:induction false} ByIdHolds(spans: seq<Span>, i: nat)
    requires DistinctIds(spans) && i < |spans|
    ensures spans[i].id in ById(spans) && ById(spans)[spans[i].id] == spans[i]
  {
    if i < |spans| - 1 {
      ByIdHolds(spans[..|spans| - 1], i);
    }
  }

  lemma {:induction false} ByIdComes(spans: seq<Span>, x: Id)
    requires x in ById(spans)
    ensures ById(spans)[x].id == x && ById(spans)[x] in spans
  {
    if x != spans[|spans| - 1].id {
      ByIdComes(spans[..|spans| - 1], x);
    }
  }

  lemma {:induction false} ByIdSize(spans: seq<Span>)
    requires DistinctIds(spans)
    ensures |ById(spans)| == |spans|
  {
    if spans != [] {
      var before, s := spans[..|spans| - 1], spans[|spans| - 1];
      ByIdSize(before);
      if s.id in ById(before) {
        ByIdComes(before, s.id);
        assert false;
      }
      assert ById(spans).Keys == ById(before).Keys + {s.id};
    }
  }

  lemma ByIdFacts(spans: seq<Span>)
    requires DistinctIds(spans)
    ensures forall i :: 0 <= i < |spans| ==> spans[i].id in ById(spans) && ById(spans)[spans[i].id] == spans[i]
    ensures forall x :: x in ById(spans) ==> ById(spans)[x].id == x && ById(spans)[x] in spans
    ensures |ById(spans)| == |spans|
  {
    forall i | 0 <= i < |spans| ensures spans[i].id in ById(spans) && ById(spans)[spans[i].id] == spans[i] {
      ByIdHolds(spans, i);
    }
    forall x | x in ById(spans) ensures ById(spans)[x].id == x && ById(spans)[x] in spans {
      ByIdComes(spans, x);
    }
    ByIdSize(spans);
  }

  // ---------------------------------------------------------------------------
  // Parent chains
  // ---------------------------------------------------------------------------

  /** The k-th ancestor; None once the chain has passed a root or a missing parent. */
  function Ancestor(m: map<Id, Span>, id: Id, k: nat): Option<Id> {
    if k == 0 then Some(id)
    else
      var a := Ancestor(m, id, k - 1);
      if a.Some? && a.value in m && m[a.value].parent.Some? && m[a.value].parent.value in m
      then m[a.value].parent else None
  }

  /** The parent chain never reaches a root or a missing parent. */
  ghost predicate Endless(m: map<Id, Span>, id: Id) {
    forall k: nat :: Ancestor(m, id, k).Some?
  }

  lemma {:induction false} AncestorsBefore(m: map<Id, Span>, id: Id, i: nat, j: nat)
    requires i <= j && Ancestor(m, id, j).Some?
    ensures Ancestor(m, id, i).Some?
    decreases j
  {
    if i < j {
      AncestorsBefore(m, id, i, j - 1);
    }
  }

  lemma {:induction false} AncestorsShift(m: map<Id, Span>, id: Id, i: nat, j: nat, d: nat)
    requires Ancestor(m, id, i) == Ancestor(m, id, j)
    ensures Ancestor(m, id, i + d) == Ancestor(m, id, j + d)
  {
    if d > 0 {
      AncestorsShift(m, id, i, j, d - 1);
    }
  }

  lemma {:induction false} RevisitContinues(m: map<Id, Span>, id: Id, i: nat, j: nat, k: nat)
    requires i < j && Ancestor(m, id, i) == Ancestor(m, id, j) && Ancestor(m, id, j).Some?
    ensures Ancestor(m, id, k).Some?
    decreases k
  {
    if k <= j {
      AncestorsBefore(m, id, k, j);
    } else {
      AncestorsShift(m, id, i, j, k - j);
      RevisitContinues(m, id, i, j, i + (k - j));
    }
  }

  ghost predicate IsTrail(m: map<Id, Span>, id: Id, trail: seq<Id>) {
    forall k :: 0 <= k < |trail| ==> Ancestor(m, id, k) == Some(trail[k])
  }

  lemma RevisitIsEndless(m: map<Id, Span>, id: Id, trail: seq<Id>, x: Id)
    requires IsTrail(m, id, trail) && x in trail && Ancestor(m, id, |trail|) == Some(x)
    ensures Endless(m, id)
  {
    var i :| 0 <= i < |trail| && trail[i] == x;
    forall k: nat ensures Ancestor(m, id, k).Some? {
      RevisitContinues(m, id, i, |trail|, k);
    }
  }

  /**
   * The bounded walk up the parent chain. It reports a cycle exactly when the chain is endless, and
   * the step-count safety net never fires: the spans seen are distinct, so they run out first.
   */
  method WalkUp(m: map<Id, Span>, s: Span, spanCount: nat) returns (cycle: bool, netTripped: bool)
    requires s.id in m && m[s.id] == s && (forall x :: x in m ==> m[x].id == x) && spanCount == |m|
    ensures cycle <==> Endless(m, s.id)
    ensures !netTripped
  {
    cycle, netTripped := false, false;
    var cur, seen: set<Id>, steps := Some(s), {}, 0;
    ghost var trail: seq<Id> := [];
    while cur.Some?
      invariant !cycle && !netTripped
      invariant |trail| == steps == |seen| && seen <= m.Keys
      invariant IsTrail(m, s.id, trail) && forall x :: x in seen <==> x in trail
      invariant cur.Some? ==> cur.value.id in m && m[cur.value.id] == cur.value
      invariant Ancestor(m, s.id, steps) == if cur.Some? then Some(cur.value.id) else None
      decreases if cur.Some? then |m| + 1 - steps else 0
    {
      if cur.value.id in seen {
        RevisitIsEndless(m, s.id, trail, cur.value.id);
        cycle := true;
        break;
      }
      seen := seen + {cur.value.id};
      trail := trail + [cur.value.id];
      SubsetCount(seen, m.Keys);
      if cur.value.parent.None? {
        assert Ancestor(m, s.id, steps + 1) == None;
        break;
      }
      var ppid := cur.value.parent.value;
      cur := if ppid in m then Some(m[ppid]) else None;
      steps := steps + 1;
      if steps > spanCount {
        cycle, netTripped := true, true;
        break;
      }
    }
  }

  // ---------------------------------------------------------------------------
  // What each finding means
  // ---------------------------------------------------------------------------

  function RootsOf(spans: seq<Span>, t: string): seq<Span>
    decreases |spans|, 1
  {
    if spans == [] then [] else RootsThroughLast(spans, t)
  }

  function RootsThroughLast(spans: seq<Span>, t: string): seq<Span>
    requires spans != []
    decreases |spans|, 0
  {
    var before, s := RootsOf(spans[..|spans| - 1], t), spans[|spans| - 1];
    if s.parent.None? && s.trace == t then before + [s] else before
  }

  ghost predicate Dangling(spans: seq<Span>, s: Span) {
    s.finished.None? && exists i :: 0 <= i < |spans| && spans[i].started > s.started
  }

  ghost predicate Flagged(spans: seq<Span>, kind: Kind, s: Span) {
    var m := ById(spans);
    match kind
    case MultipleRoots => s.parent.None? && |RootsOf(spans, s.trace)| > 1
    case Orphan => s.parent.Some? && s.parent.value !in m
    case CrossTrace => s.parent.Some? && s.parent.value in m && m[s.parent.value].trace != s.trace
    case Cycle => Endless(m, s.id)
    case DanglingOpen => Dangling(spans, s)
  }

  ghost predicate Justified(spans: seq<Span>, f: Finding) {
    exists s :: s in spans && s.id == f.id && Flagged(spans, f.kind, s)
  }

  /** The findings of some kinds are complete, correct and free of repetition. */
  ghost predicate Exactly(spans: seq<Span>, kinds: seq<Kind>, findings: seq<Finding>) {
    && (forall f :: f in findings ==> f.kind in kinds && Justified(spans, f))
    && (forall s, k :: s in spans && k in kinds && Flagged(spans, k, s) ==> Finding(k, s.id) in findings)
    && (forall i, j :: 0 <= i < j < |findings| ==> findings[i] != findings[j])
  }

  lemma {:induction false} RootsOfMember(spans: seq<Span>, t: string, s: Span)
    ensures s in RootsOf(spans, t) <==> s in spans && s.parent.None? && s.trace == t
  {
    if spans != [] {
      RootsOfMember(spans[..|spans| - 1], t, s);
      assert spans == spans[..|spans| - 1] + [spans[|spans| - 1]];
    }
  }

  lemma {:induction false} RootsOfDistinct(spans: seq<Span>, t: string)
    requires DistinctIds(spans)
    ensures DistinctIds(RootsOf(spans, t))
  {
    if spans != [] {
      var before, s := spans[..|spans| - 1], spans[|spans| - 1];
      RootsOfDistinct(before, t);
      forall i | 0 <= i < |RootsOf(before, t)| ensures RootsOf(before, t)[i].id != s.id {
        RootsOfMember(before, t, RootsOf(before, t)[i]);
      }
    }
  }

  // ---------------------------------------------------------------------------
  // A clean report means trees
  // ---------------------------------------------------------------------------

  ghost predicate ReachesInside(m: map<Id, Span>, id: Id, root: Id, t: string, k: nat) {
    && Ancestor(m, id, k) == Some(root)
    && forall j :: 0 <= j <= k ==>
         && Ancestor(m, id, j).Some? && Ancestor(m, id, j).value in m
         && m[Ancestor(m, id, j).value].trace == t
  }

  ghost predicate RootedAt(spans: seq<Span>, t: string, r: Span) {
    && r in spans && r.trace == t && r.parent.None?
    && (forall s :: s in spans && s.trace == t && s.parent.None? ==> s == r)
    && (forall s :: s in spans && s.trace == t ==> exists k: nat :: ReachesInside(ById(spans), s.id, r.id, t, k))
  }

  /** The spans of a trace form a single tree: one root, which every span reaches inside the trace. */
  ghost predicate IsTree(spans: seq<Span>, t: string) {
    exists r :: RootedAt(spans, t, r)
  }

  const STRUCTURAL: set<Kind> := {MultipleRoots, Orphan, CrossTrace, Cycle}

  ghost predicate Unflagged(spans: seq<Span>) {
    forall s, k :: s in spans && k in STRUCTURAL ==> !Flagged(spans, k, s)
  }

  /** Follows an unflagged chain, step by step inside its trace, to the root it must end at. */
  lemma {:induction false} ClimbToRoot(spans: seq<Span>, s: Span, n: nat) returns (k: nat, r: Span)
    requires DistinctIds(spans) && Unflagged(spans) && s in spans
    requires Ancestor(ById(spans), s.id, n) == None
    ensures r in spans && r.parent.None? && r.trace == s.trace && ReachesInside(ById(spans), s.id, r.id, s.trace, k)
  {
    var m := ById(spans);
    ByIdFacts(spans);
    k, r := 0, s;
    while r.parent.Some?
      invariant r in spans && r.trace == s.trace && ReachesInside(m, s.id, r.id, s.trace, k)
      invariant k < n
      decreases n - k
    {
      assert !Flagged(spans, Orphan, r) && !Flagged(spans, CrossTrace, r);
      r := m[r.parent.value];
      k := k + 1;
    }
  }

  lemma UnflaggedIsTree(spans: seq<Span>, t: string, s: Span)
    requires DistinctIds(spans) && Unflagged(spans) && s in spans && s.trace == t
    ensures IsTree(spans, t)
  {
    var m := ById(spans);
    assert !Flagged(spans, Cycle, s);
    var n: nat :| Ancestor(m, s.id, n).None?;
    var k, r := ClimbToRoot(spans, s, n);
    forall x | x in spans && x.trace == t && x.parent.None? ensures x == r {
      assert !Flagged(spans, MultipleRoots, r);
      RootsOfMember(spans, t, x);
      RootsOfMember(spans, t, r);
    }
    forall x | x in spans && x.trace == t ensures exists k: nat :: ReachesInside(m, x.id, r.id, t, k) {
      assert !Flagged(spans, Cycle, x);
      var n: nat :| Ancestor(m, x.id, n).None?;
      var k', r' := ClimbToRoot(spans, x, n);
    }
    assert RootedAt(spans, t, r);
  }

  lemma TreeIsUnflagged(spans: seq<Span>, s: Span, k: Kind)
    requires DistinctIds(spans) && s in spans && IsTree(spans, s.trace) && k in STRUCTURAL
    ensures !Flagged(spans, k, s)
  {
    var m := ById(spans);
    ByIdFacts(spans);
    var r :| RootedAt(spans, s.trace, r);
    var n: nat :| ReachesInside(m, s.id, r.id, s.trace, n);
    assert Ancestor(m, s.id, n + 1) == None;
    if s.parent.Some? {
      assert n >= 1;
      assert Ancestor(m, s.id, 0) == Some(s.id);
      assert Ancestor(m, s.id, 1).Some?;
    }
    SingleRoot(spans, s.trace, r);
  }

  lemma TwoRoots(spans: seq<Span>, t: string)
    requires DistinctIds(spans)
    ensures |RootsOf(spans, t)| > 1 ==>
            exists a, b :: a in spans && b in spans && a != b && a.parent.None? && b.parent.None?
                && a.trace == t == b.trace
  {
    var rs := RootsOf(spans, t);
    RootsOfDistinct(spans, t);
    if |rs| > 1 {
      RootsOfMember(spans, t, rs[0]);
      RootsOfMember(spans, t, rs[1]);
      assert rs[0] != rs[1];
    }
  }

  lemma SingleRoot(spans: seq<Span>, t: string, r: Span)
    requires DistinctIds(spans) && RootedAt(spans, t, r)
    ensures |RootsOf(spans, t)| <= 1
  {
    TwoRoots(spans, t);
  }

  /** No structural finding exactly when the spans of every trace form a single rooted tree. */
  lemma StructureMeansTrees(spans: seq<Span>)
    requires DistinctIds(spans)
    ensures Unflagged(spans) <==> forall s :: s in spans ==> IsTree(spans, s.trace)
  {
    if Unflagged(spans) {
      forall s | s in spans ensures IsTree(spans, s.trace) {
        UnflaggedIsTree(spans, s.trace, s);
      }
    }
    if forall s :: s in spans ==> IsTree(spans, s.trace) {
      forall s, k | s in spans && k in STRUCTURAL ensures !Flagged(spans, k, s) {
        TreeIsUnflagged(spans, s, k);
      }
    }
  }

  // ---------------------------------------------------------------------------
  // Span-by-span passes
  // ---------------------------------------------------------------------------

  /** The findings of the listed kinds for one span, in that order. */
  ghost function Of(spans: seq<Span>, kinds: seq<Kind>, s: Span): seq<Finding> {
    if kinds == [] then []
    else
      var before, k := Of(spans, kinds[..|kinds| - 1], s), kinds[|kinds| - 1];
      if Flagged(spans, k, s) then before + [Finding(k, s.id)] else before
  }

  ghost function Collect(spans: seq<Span>, kinds: seq<Kind>, n: nat): seq<Finding>
    requires n <= |spans|
  {
    if n == 0 then [] else Collect(spans, kinds, n - 1) + Of(spans, kinds, spans[n - 1])
  }

  lemma {:induction false} OfFacts(spans: seq<Span>, kinds: seq<Kind>, s: Span)
    requires Distinct(kinds)
    ensures forall f :: f in Of(spans, kinds, s) <==> f.id == s.id && f.kind in kinds && Flagged(spans, f.kind, s)
    ensures Distinct(Of(spans, kinds, s))
  {
    if kinds != [] {
      OfFacts(spans, kinds[..|kinds| - 1], s);
      assert kinds == kinds[..|kinds| - 1] + [kinds[|kinds| - 1]];
    }
  }

  lemma {:induction false} CollectFacts(spans: seq<Span>, kinds: seq<Kind>, n: nat)
    requires Distinct(kinds) && DistinctIds(spans) && n <= |spans|
    ensures forall f :: f in Collect(spans, kinds, n) ==>
              f.kind in kinds && exists i :: 0 <= i < n && spans[i].id == f.id && Flagged(spans, f.kind, spans[i])
    ensures forall i, k :: 0 <= i < n && k in kinds && Flagged(spans, k, spans[i]) ==>
              Finding(k, spans[i].id) in Collect(spans, kinds, n)
    ensures Distinct(Collect(spans, kinds, n))
  {
    if n > 0 {
      CollectFacts(spans, kinds, n - 1);
      OfFacts(spans, kinds, spans[n - 1]);
    }
  }

  lemma CollectExactly(spans: seq<Span>, kinds: seq<Kind>)
    requires Distinct(kinds) && DistinctIds(spans)
    ensures Exactly(spans, kinds, Collect(spans, kinds, |spans|))
  {
    CollectFacts(spans, kinds, |spans|);
  }

  const PARENT_KINDS := [Orphan, CrossTrace, Cycle]

  /** What the parent pass adds for one span, by the branch it takes. */
  lemma ParentBranches(spans: seq<Span>, s: Span)
    requires DistinctIds(spans) && s in spans
    ensures var m := ById(spans);
            var cross, cycle := Finding(CrossTrace, s.id), Finding(Cycle, s.id);
            Of(spans, PARENT_KINDS, s) ==
              if s.parent.None? then []
              else if s.parent.value !in m then [Finding(Orphan, s.id)]
              else (if m[s.parent.value].trace != s.trace then [cross] else [])
                   + (if Endless(m, s.id) then [cycle] else [])
  {
    var m := ById(spans);
    ByIdFacts(spans);
    assert Ancestor(m, s.id, 0) == Some(s.id);
    assert s.parent.None? || s.parent.value !in m ==> Ancestor(m, s.id, 1).None?;
    assert PARENT_KINDS[..2] == [Orphan, CrossTrace] && [Orphan, CrossTrace][..1] == [Orphan] && [Orphan][..0] == [];
    assert Of(spans, [], s) == [];
    assert Of(spans, [Orphan], s) == if Flagged(spans, Orphan, s) then [Finding(Orphan, s.id)] else [];
  }

  /** The body of the parent pass for one span. */
  method ParentFindings(spans: seq<Span>, byId: map<Id, Span>, s: Span) returns (findings: seq<Finding>)
    requires DistinctIds(spans) && byId == ById(spans) && s in spans
    ensures findings == Of(spans, PARENT_KINDS, s)
  {
    ByIdFacts(spans);
    ParentBranches(spans, s);
    findings := [];
    if s.parent.Some? {
      if s.parent.value !in byId {
        return [Finding(Orphan, s.id)];
      }
      if byId[s.parent.value].trace != s.trace {
        findings := findings + [Finding(CrossTrace, s.id)];
      }
      var cycle, net := WalkUp(byId, s, |spans|);
      if cycle {
        findings := findings + [Finding(Cycle, s.id)];
      }
    }
  }

  method ParentPass(spans: seq<Span>) returns (findings: seq<Finding>)
    requires DistinctIds(spans)
    ensures findings == Collect(spans, PARENT_KINDS, |spans|)
  {
    var byId := ById(spans);
    findings := [];
    for i := 0 to |spans|
      invariant findings == Collect(spans, PARENT_KINDS, i)
    {
      var found := ParentFindings(spans, byId, spans[i]);
      findings := findings + found;
    }
  }

  function LatestStart(spans: seq<Span>): (t: real)
    requires spans != []
    ensures exists i :: 0 <= i < |spans| && spans[i].started == t
    ensures forall i :: 0 <= i < |spans| ==> spans[i].started <= t
  {
    if |spans| == 1 then spans[0].started
    else
      var t := LatestStart(spans[..|spans| - 1]);
      if spans[|spans| - 1].started > t then spans[|spans| - 1].started else t
  }

  lemma DanglingBranch(spans: seq<Span>, s: Span)
    requires s in spans
    ensures Of(spans, [DanglingOpen], s) ==
            if s.finished.None? && s.started != LatestStart(spans) then [Finding(DanglingOpen, s.id)] else []
  {
    assert [DanglingOpen][..0] == [];
    assert Of(spans, [], s) == [];
    var i :| 0 <= i < |spans| && spans[i].started == LatestStart(spans);
  }

  method DanglingPass(spans: seq<Span>) returns (findings: seq<Finding>)
    ensures findings == Collect(spans, [DanglingOpen], |spans|)
  {
    findings := [];
    if spans != [] {
      var latest := LatestStart(spans);
      for i := 0 to |spans|
        invariant findings == Collect(spans, [DanglingOpen], i)
      {
        DanglingBranch(spans, spans[i]);
        if spans[i].finished.None? && spans[i].started != latest {
          findings := findings + [Finding(DanglingOpen, spans[i].id)];
        }
      }
    }
  }

  // ---------------------------------------------------------------------------
  // Roots grouped by trace
  // ---------------------------------------------------------------------------

  ghost predicate Grouped(spans: seq<Span>, groups: map<string, seq<Span>>, order: seq<string>) {
    && (forall t :: t in groups ==> groups[t] == RootsOf(spans, t) && t in order)
    && (forall t :: t !in groups ==> RootsOf(spans, t) == [])
    && (forall t :: t in order ==> t in groups)
    && Distinct(order)
  }

  lemma RootsOfNext(spans: seq<Span>, n: nat, t: string)
    requires n < |spans|
    ensures RootsOf(spans[..n + 1], t) ==
            if spans[n].parent.None? && spans[n].trace == t then RootsOf(spans[..n], t) + [spans[n]]
            else RootsOf(spans[..n], t)
  {
    assert spans[..n + 1][..n] == spans[..n];
  }

  function RootCount(spans: seq<Span>, n: nat): nat
    requires n <= |spans|
  {
    if n == 0 then 0 else RootCount(spans, n - 1) + if spans[n - 1].parent.None? then 1 else 0
  }

  lemma {:induction false} RootCountIs(spans: seq<Span>, n: nat)
    requires n <= |spans|
    ensures RootCount(spans, n) == |set i | 0 <= i < n && spans[i].parent.None?|
  {
    if n > 0 {
      RootCountIs(spans, n - 1);
      var roots, before := set i | 0 <= i < n && spans[i].parent.None?, set i | 0 <= i < n - 1 && spans[i].parent.None?;
      assert roots == before + if spans[n - 1].parent.None? then {n - 1} else {};
    }
  }

  /** setdefault on the group of the root's trace, then append. */
  function WithRoot(groups: map<string, seq<Span>>, s: Span): map<string, seq<Span>> {
    groups[s.trace := (if s.trace in groups then groups[s.trace] else []) + [s]]
  }

  function WithTrace(groups: map<string, seq<Span>>, order: seq<string>, t: string): seq<string> {
    if t in groups then order else order + [t]
  }

  /** A span that is not a root changes no group. */
  lemma GroupedSkip(spans: seq<Span>, n: nat, groups: map<string, seq<Span>>, order: seq<string>)
    requires n < |spans| && Grouped(spans[..n], groups, order) && spans[n].parent.Some?
    ensures Grouped(spans[..n + 1], groups, order)
  {
    forall t ensures RootsOf(spans[..n + 1], t) == RootsOf(spans[..n], t) {
      RootsOfNext(spans, n, t);
    }
  }

  /** Adding a root to its group keeps the grouping. */
  lemma GroupedAdd(spans: seq<Span>, n: nat, groups: map<string, seq<Span>>, order: seq<string>)
    requires n < |spans| && Grouped(spans[..n], groups, order) && spans[n].parent.None?
    ensures Grouped(spans[..n + 1], WithRoot(groups, spans[n]), WithTrace(groups, order, spans[n].trace))
  {
    var s := spans[n];
    var groups', order' := WithRoot(groups, s), WithTrace(groups, order, s.trace);
    forall t
      ensures RootsOf(spans[..n + 1], t)
              == if s.trace == t then RootsOf(spans[..n], t) + [s] else RootsOf(spans[..n], t)
    {
      RootsOfNext(spans, n, t);
    }
    forall t | t in groups' ensures groups'[t] == RootsOf(spans[..n + 1], t) && t in order' {
      assert t != s.trace ==> t in groups && t in order;
    }
    forall t | t in order' ensures t in groups' {
      assert t in order || t == s.trace;
    }
  }

  method GroupRoots(spans: seq<Span>) returns (groups: map<string, seq<Span>>, order: seq<string>, count: nat)
    ensures Grouped(spans, groups, order) && count == RootCount(spans, |spans|)
  {
    groups, order, count := map[], [], 0;
    for n := 0 to |spans|
      invariant Grouped(spans[..n], groups, order)
      invariant count == RootCount(spans, n)
    {
      if spans[n].parent.Some? {
        GroupedSkip(spans, n, groups, order);
      } else {
        GroupedAdd(spans, n, groups, order);
        count := count + 1;
        order := WithTrace(groups, order, spans[n].trace);
        groups := WithRoot(groups, spans[n]);
      }
    }
    assert spans[..|spans|] == spans;
  }

  function RootsAs(rs: seq<Span>): seq<Finding> {
    seq(|rs|, i requires 0 <= i < |rs| => Finding(MultipleRoots, rs[i].id))
  }

  /** Every root of each of the first `n` traces that has more than one. */
  function SurplusRoots(spans: seq<Span>, order: seq<string>, n: nat): seq<Finding>
    requires n <= |order|
  {
    if n == 0 then []
    else
      var rs := RootsOf(spans, order[n - 1]);
      SurplusRoots(spans, order, n - 1) + if |rs| > 1 then RootsAs(rs) else []
  }

  ghost predicate FromTraces(spans: seq<Span>, traces: seq<string>, f: Finding) {
    exists s :: s in spans && s.id == f.id && s.trace in traces && Flagged(spans, MultipleRoots, s)
  }

  lemma RootsAsFacts(spans: seq<Span>, t: string)
    requires DistinctIds(spans) && |RootsOf(spans, t)| > 1
    ensures Distinct(RootsAs(RootsOf(spans, t)))
    ensures forall f :: f in RootsAs(RootsOf(spans, t)) ==> f.kind == MultipleRoots && FromTraces(spans, [t], f)
    ensures forall s :: s in spans && s.parent.None? && s.trace == t ==>
              Finding(MultipleRoots, s.id) in RootsAs(RootsOf(spans, t))
  {
    var rs := RootsOf(spans, t);
    RootsOfDistinct(spans, t);
    forall f | f in RootsAs(rs) ensures f.kind == MultipleRoots && FromTraces(spans, [t], f) {
      var i :| 0 <= i < |rs| && f == RootsAs(rs)[i];
      RootsOfMember(spans, t, rs[i]);
    }
    forall s | s in spans && s.parent.None? && s.trace == t ensures Finding(MultipleRoots, s.id) in RootsAs(rs) {
      RootsOfMember(spans, t, s);
      var i :| 0 <= i < |rs| && rs[i] == s;
      assert RootsAs(rs)[i] == Finding(MultipleRoots, s.id);
    }
  }

  lemma SameIdSameSpan(spans: seq<Span>, a: Span, b: Span)
    requires DistinctIds(spans) && a in spans && b in spans && a.id == b.id
    ensures a == b
  {
  }

  lemma {:induction false} SurplusRootsSound(spans: seq<Span>, order: seq<string>, n: nat, f: Finding)
    requires DistinctIds(spans) && n <= |order| && f in SurplusRoots(spans, order, n)
    ensures f.kind == MultipleRoots && FromTraces(spans, order[..n], f)
  {
    var t, before := order[n - 1], SurplusRoots(spans, order, n - 1);
    assert order[..n] == order[..n - 1] + [t];
    if f in before {
      SurplusRootsSound(spans, order, n - 1, f);
      FromMoreTraces(spans, order[..n - 1], order[..n], f);
    } else {
      RootsAsFacts(spans, t);
      FromMoreTraces(spans, [t], order[..n], f);
    }
  }

  lemma {:induction false} SurplusRootsComplete(spans: seq<Span>, order: seq<string>, n: nat, s: Span)
    requires DistinctIds(spans) && n <= |order|
    requires s in spans && s.trace in order[..n] && Flagged(spans, MultipleRoots, s)
    ensures Finding(MultipleRoots, s.id) in SurplusRoots(spans, order, n)
  {
    if s.trace == order[n - 1] {
      RootsAsFacts(spans, s.trace);
    } else {
      SurplusRootsComplete(spans, order, n - 1, s);
    }
  }

  lemma {:induction false} SurplusRootsDistinct(spans: seq<Span>, order: seq<string>, n: nat)
    requires DistinctIds(spans) && Distinct(order) && n <= |order|
    ensures Distinct(SurplusRoots(spans, order, n))
  {
    if n > 0 {
      SurplusRootsDistinct(spans, order, n - 1);
      var t, before := order[n - 1], SurplusRoots(spans, order, n - 1);
      if |RootsOf(spans, t)| > 1 {
        var found := RootsAs(RootsOf(spans, t));
        RootsAsDistinct(spans, t);
        forall f | f in before ensures f !in found {
          NextTraceIsNew(spans, order, n, f);
        }
        DistinctConcat(before, found);
      }
    }
  }

  lemma RootsAsDistinct(spans: seq<Span>, t: string)
    requires DistinctIds(spans) && |RootsOf(spans, t)| > 1
    ensures Distinct(RootsAs(RootsOf(spans, t)))
  {
    RootsAsFacts(spans, t);
  }

  lemma NextTraceIsNew(spans: seq<Span>, order: seq<string>, n: nat, f: Finding)
    requires DistinctIds(spans) && Distinct(order) && 0 < n <= |order| && |RootsOf(spans, order[n - 1])| > 1
    requires f in SurplusRoots(spans, order, n - 1)
    ensures f !in RootsAs(RootsOf(spans, order[n - 1]))
  {
    SurplusRootsSound(spans, order, n - 1, f);
    SurplusTracesDiffer(spans, order, n, f);
    if f in RootsAs(RootsOf(spans, order[n - 1])) {
      RootsAsFrom(spans, order[n - 1], f);
    }
  }

  lemma RootsAsFrom(spans: seq<Span>, t: string, f: Finding)
    requires DistinctIds(spans) && |RootsOf(spans, t)| > 1 && f in RootsAs(RootsOf(spans, t))
    ensures FromTraces(spans, [t], f)
  {
    RootsAsFacts(spans, t);
  }

  lemma DistinctConcat(a: seq<Finding>, b: seq<Finding>)
    requires Distinct(a) && Distinct(b) && forall f :: f in a ==> f !in b
    ensures Distinct(a + b)
  {
    forall i, j | 0 <= i < |a| && 0 <= j < |b| ensures a[i] != b[j] {
      assert a[i] in a;
    }
  }

  lemma FromMoreTraces(spans: seq<Span>, a: seq<string>, b: seq<string>, f: Finding)
    requires FromTraces(spans, a, f) && forall t :: t in a ==> t in b
    ensures FromTraces(spans, b, f)
  {
  }

  lemma SurplusTracesDiffer(spans: seq<Span>, order: seq<string>, n: nat, f: Finding)
    requires DistinctIds(spans) && Distinct(order) && 0 < n <= |order|
    requires FromTraces(spans, order[..n - 1], f)
    ensures !FromTraces(spans, [order[n - 1]], f)
  {
    var a :| a in spans && a.id == f.id && a.trace in order[..n - 1];
    assert a.trace != order[n - 1];
    forall b | b in spans && b.id == f.id ensures b == a {
      SameIdSameSpan(spans, a, b);
    }
  }

  lemma SurplusRootsExactly(spans: seq<Span>, groups: map<string, seq<Span>>, order: seq<string>)
    requires DistinctIds(spans) && Grouped(spans, groups, order)
    ensures Exactly(spans, [MultipleRoots], SurplusRoots(spans, order, |order|))
  {
    var fs := SurplusRoots(spans, order, |order|);
    assert order[..|order|] == order;
    SurplusRootsDistinct(spans, order, |order|);
    forall f | f in fs ensures f.kind in [MultipleRoots] && Justified(spans, f) {
      SurplusRootsSound(spans, order, |order|, f);
    }
    forall s, k | s in spans && k in [MultipleRoots] && Flagged(spans, k, s) ensures Finding(k, s.id) in fs {
      RootsOfMember(spans, s.trace, s);
      SurplusRootsComplete(spans, order, |order|, s);
    }
  }

  method ReportRoots(rs: seq<Span>) returns (findings: seq<Finding>)
    ensures findings == RootsAs(rs)
  {
    findings := [];
    for i := 0 to |rs|
      invariant findings == RootsAs(rs)[..i]
    {
      findings := findings + [Finding(MultipleRoots, rs[i].id)];
    }
  }

  method RootPass(spans: seq<Span>) returns (findings: seq<Finding>, count: nat)
    requires DistinctIds(spans)
    ensures Exactly(spans, [MultipleRoots], findings) && count == RootCount(spans, |spans|)
  {
    var groups, order;
    groups, order, count := GroupRoots(spans);
    findings := [];
    for n := 0 to |order|
      invariant findings == SurplusRoots(spans, order, n)
    {
      assert order[n] in order;
      var rs := groups[order[n]];
      assert rs == RootsOf(spans, order[n]);
      if |rs| > 1 {
        var found := ReportRoots(rs);
        findings := findings + found;
      }
    }
    SurplusRootsExactly(spans, groups, order);
  }

  // ---------------------------------------------------------------------------
  // The whole detector
  // ---------------------------------------------------------------------------

  method Validate(spans: seq<Span>) returns (r: Option<TraceError>)
    ensures r.None? <==> (forall i :: 0 <= i < |spans| ==> WellFormed(spans[i])) && DistinctIds(spans)
    ensures r.Some? && r.value.Malformed? ==>
              && r.value.index < |spans| && !WellFormed(spans[r.value.index])
              && forall i :: 0 <= i < r.value.index ==> WellFormed(spans[i])
    ensures r.Some? && r.value.Duplicated? ==>
              && (forall i :: 0 <= i < |spans| ==> WellFormed(spans[i]))
              && r.value.index < |spans| && DistinctIds(spans[..r.value.index])
              && exists j :: 0 <= j < r.value.index && spans[j].id == spans[r.value.index].id
  {
    for i := 0 to |spans|
      invariant forall k :: 0 <= k < i ==> WellFormed(spans[k])
    {
      if !WellFormed(spans[i]) {
        return Some(Malformed(i));
      }
    }
    var seen: set<Id> := {};
    for i := 0 to |spans|
      invariant forall x :: x in seen ==> exists k :: 0 <= k < i && spans[k].id == x
      invariant forall k :: 0 <= k < i ==> spans[k].id in seen
      invariant DistinctIds(spans[..i])
    {
      if spans[i].id in seen {
        return Some(Duplicated(i));
      }
      seen := seen + {spans[i].id};
    }
    assert spans[..|spans|] == spans;
    return None;
  }

  const ALL_KINDS := [MultipleRoots] + PARENT_KINDS + [DanglingOpen]

  lemma ExactlyConcat(spans: seq<Span>, ks: seq<Kind>, a: seq<Finding>, ls: seq<Kind>, b: seq<Finding>)
    requires Exactly(spans, ks, a) && Exactly(spans, ls, b) && forall k :: k in ks ==> k !in ls
    ensures Exactly(spans, ks + ls, a + b)
  {
    forall f | f in a + b ensures f.kind in ks + ls && Justified(spans, f) {
      assert f in a || f in b;
    }
    forall s, k | s in spans && k in ks + ls && Flagged(spans, k, s) ensures Finding(k, s.id) in a + b {
      assert k in ks ==> Finding(k, s.id) in a;
      assert k in ls ==> Finding(k, s.id) in b;
    }
    forall i, j | 0 <= i < |a| && 0 <= j < |b| ensures a[i] != b[j] {
      assert a[i] in a && b[j] in b;
    }
  }

  /** Listing the findings in report order loses, adds and repeats none. */
  lemma ExactlySorted(spans: seq<Span>, kinds: seq<Kind>, findings: seq<Finding>)
    requires Exactly(spans, kinds, findings)
    ensures Exactly(spans, kinds, Sort(findings)) && Sorted(Sort(findings))
  {
    SortFacts(findings);
  }

  lemma TwoRootsExist(spans: seq<Span>, t: string, a: Span, b: Span)
    requires a in spans && b in spans && a != b && a.parent.None? && b.parent.None? && a.trace == t == b.trace
    ensures |RootsOf(spans, t)| > 1
  {
    RootsOfMember(spans, t, a);
    RootsOfMember(spans, t, b);
    var rs := RootsOf(spans, t);
    var i :| 0 <= i < |rs| && rs[i] == a;
    var j :| 0 <= j < |rs| && rs[j] == b;
  }

  lemma SurplusIgnoresOrder(spans: seq<Span>, other: seq<Span>, t: string)
    requires DistinctIds(spans) && forall s :: s in spans ==> s in other
    ensures |RootsOf(spans, t)| > 1 ==> |RootsOf(other, t)| > 1
  {
    TwoRoots(spans, t);
    if |RootsOf(spans, t)| > 1 {
      var a, b :| a in spans && b in spans && a != b && a.parent.None? && b.parent.None? && a.trace == t == b.trace;
      TwoRootsExist(other, t, a, b);
    }
  }

  lemma ByIdIgnoresOrder(spans: seq<Span>, other: seq<Span>)
    requires DistinctIds(spans) && DistinctIds(other) && forall s :: s in spans <==> s in other
    ensures ById(spans) == ById(other)
  {
    ByIdFacts(spans);
    ByIdFacts(other);
    forall x | x in ById(spans) ensures x in ById(other) && ById(other)[x] == ById(spans)[x] {
      assert ById(spans)[x] in other;
    }
    forall x | x in ById(other) ensures x in ById(spans) {
      assert ById(other)[x] in spans;
    }
  }

  lemma FlaggedIgnoresOrder(spans: seq<Span>, other: seq<Span>, k: Kind, s: Span)
    requires DistinctIds(spans) && DistinctIds(other) && forall s :: s in spans <==> s in other
    requires Flagged(spans, k, s)
    ensures Flagged(other, k, s)
  {
    ByIdIgnoresOrder(spans, other);
    SurplusIgnoresOrder(spans, other, s.trace);
    if k == DanglingOpen {
      var i :| 0 <= i < |spans| && spans[i].started > s.started;
      assert spans[i] in other;
    }
  }

  /** A report depends on the set of spans alone: input order changes neither findings nor their order. */
  lemma ReportIgnoresOrder(spans: seq<Span>, other: seq<Span>, a: seq<Finding>, b: seq<Finding>)
    requires DistinctIds(spans) && DistinctIds(other) && forall s :: s in spans <==> s in other
    requires Exactly(spans, ALL_KINDS, a) && Sorted(a) && Exactly(other, ALL_KINDS, b) && Sorted(b)
    ensures a == b
  {
    forall f ensures f in a <==> f in b {
      if f in a {
        FoundInOther(spans, other, a, b, f);
      }
      if f in b {
        FoundInOther(other, spans, b, a, f);
      }
    }
    SortedIsUnique(a, b);
  }

  lemma FoundInOther(spans: seq<Span>, other: seq<Span>, a: seq<Finding>, b: seq<Finding>, f: Finding)
    requires DistinctIds(spans) && DistinctIds(other) && forall s :: s in spans <==> s in other
    requires Exactly(spans, ALL_KINDS, a) && Exactly(other, ALL_KINDS, b) && f in a
    ensures f in b
  {
    assert Justified(spans, f);
    var s :| s in spans && s.id == f.id && Flagged(spans, f.kind, s);
    FlaggedIgnoresOrder(spans, other, f.kind, s);
    assert Finding(f.kind, s.id) in b;
  }

  lemma OkMeans(spans: seq<Span>, findings: seq<Finding>)
    requires DistinctIds(spans) && Exactly(spans, ALL_KINDS, findings)
    ensures findings == [] <==>
            forall s :: s in spans ==> IsTree(spans, s.trace) && !Dangling(spans, s)
  {
    StructureMeansTrees(spans);
    if findings == [] {
      forall s, k | s in spans && k in ALL_KINDS ensures !Flagged(spans, k, s) {
        assert Flagged(spans, k, s) ==> Finding(k, s.id) in findings;
      }
      assert Unflagged(spans) by {
        forall s, k | s in spans && k in STRUCTURAL ensures !Flagged(spans, k, s) {
          assert k in ALL_KINDS;
        }
      }
      forall s | s in spans ensures !Dangling(spans, s) {
        assert DanglingOpen in ALL_KINDS && !Flagged(spans, DanglingOpen, s);
      }
    } else {
      var f := findings[0];
      assert f in findings && Justified(spans, f);
      var s :| s in spans && s.id == f.id && Flagged(spans, f.kind, s);
      assert f.kind in STRUCTURAL || f.kind == DanglingOpen;
    }
  }

  /**
   * Findings are exactly the flagged spans, each reported once per kind, in sorted order. The report is ok if and
   * only if the spans of every trace form one rooted tree and no open span started before the
   * latest start.
   */
  method Detect(spans: seq<Span>) returns (r: Result<Report, TraceError>)
    ensures r.Ok? <==>
            && DistinctIds(spans) && (forall s :: s in spans ==> s.id != "" && s.trace != "")
            && (forall s :: s in spans && s.parent.Some? ==> s.parent.value != "")
    ensures r.Ok? ==>
              && Exactly(spans, ALL_KINDS, r.value.findings) && Sorted(r.value.findings)
              && r.value.spanCount == |spans|
              && r.value.rootCount == |set i | 0 <= i < |spans| && spans[i].parent.None?|
              && (r.value.ok <==> forall s :: s in spans ==> IsTree(spans, s.trace) && !Dangling(spans, s))
  {
    var problem := Validate(spans);
    if problem.Some? {
      return Err(problem.value);
    }
    var roots, rootCount := RootPass(spans);
    RootCountIs(spans, |spans|);
    var parents := ParentPass(spans);
    var open := DanglingPass(spans);
    CollectExactly(spans, PARENT_KINDS);
    CollectExactly(spans, [DanglingOpen]);
    ExactlyConcat(spans, [MultipleRoots], roots, PARENT_KINDS, parents);
    ExactlyConcat(spans, [MultipleRoots] + PARENT_KINDS, roots + parents, [DanglingOpen], open);
    ExactlySorted(spans, ALL_KINDS, roots + parents + open);
    var findings := Sort(roots + parents + open);
    OkMeans(spans, findings);
    return Ok(Report(findings == [], |spans|, rootCount, findings));
  }
}
