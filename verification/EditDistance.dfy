/**
 * Edit distance, as two templates compute it: the two-row dynamic program of the key-typo detector
 * and the linear "distance one" scan of the key-stability checker. Both are proved against scripts
 * of single-character edits applied one after another.
 */
module EditDistance {
  import opened Common

  // ---------------------------------------------------------------------------
  // Specification: edit scripts
  // ---------------------------------------------------------------------------

  datatype Edit =
    | Insert(pos: nat, c: char)
    | Delete(pos: nat)
    | Substitute(pos: nat, c: char)

  predicate Fits(s: string, e: Edit) {
    if e.Insert? then e.pos <= |s| else e.pos < |s|
  }

  function ApplyEdit(s: string, e: Edit): string
    requires Fits(s, e)
  {
    match e
    case Insert(p, c) => s[..p] + [c] + s[p..]
    case Delete(p) => s[..p] + s[p + 1..]
    case Substitute(p, c) => s[p := c]
  }

  /** Runs a script from left to right; None when an edit does not fit the string it meets. */
  function ApplyScript(s: string, script: seq<Edit>): Option<string>
    decreases |script|, 1
  {
    if script == [] then Some(s) else ApplyFirst(s, script)
  }

  function ApplyFirst(s: string, script: seq<Edit>): Option<string>
    requires script != []
    decreases |script|, 0
  {
    if Fits(s, script[0]) then ApplyScript(ApplyEdit(s, script[0]), script[1..]) else None
  }

  ghost predicate Turns(a: string, b: string, script: seq<Edit>) {
    ApplyScript(a, script) == Some(b)
  }

  /** `n` is the least length of a script that turns `a` into `b`. */
  ghost predicate IsDistance(a: string, b: string, n: nat) {
    && (exists script :: |script| == n && Turns(a, b, script))
    && (forall script :: Turns(a, b, script) ==> n <= |script|)
  }

  // ---------------------------------------------------------------------------
  // The recurrence behind the table
  // ---------------------------------------------------------------------------

  function Min(x: nat, y: nat): nat {
    if x <= y then x else y
  }

  function Cost(x: char, y: char): nat {
    if x == y then 0 else 1
  }

  /** Cell (i, j) of the table: the distance between the prefixes of those lengths. */
  function Cell(a: string, b: string, i: nat, j: nat): nat
    requires i <= |a| && j <= |b|
    decreases i + j, 1
  {
    if i == 0 then j else if j == 0 then i else Best(a, b, i, j)
  }

  function Best(a: string, b: string, i: nat, j: nat): nat
    requires 0 < i <= |a| && 0 < j <= |b|
    decreases i + j, 0
  {
    Min(Min(Cell(a, b, i, j - 1) + 1, Cell(a, b, i - 1, j) + 1), Cell(a, b, i - 1, j - 1) + Cost(a[i - 1], b[j - 1]))
  }

  function Lev(a: string, b: string): nat {
    Cell(a, b, |a|, |b|)
  }

  lemma BestStep(a: string, b: string, i: nat, j: nat)
    requires 0 < i <= |a| && 0 < j <= |b|
    ensures var m, c := Best(a, b, i, j), Cost(a[i - 1], b[j - 1]);
            && m <= Cell(a, b, i, j - 1) + 1 && m <= Cell(a, b, i - 1, j) + 1 && m <= Cell(a, b, i - 1, j - 1) + c
            && (m == Cell(a, b, i, j - 1) + 1 || m == Cell(a, b, i - 1, j) + 1 || m == Cell(a, b, i - 1, j - 1) + c)
  {
  }

  // ---------------------------------------------------------------------------
  // The recurrence satisfies the metric laws
  // ---------------------------------------------------------------------------

  lemma {:induction false} CellSymmetric(a: string, b: string, i: nat, j: nat)
    requires i <= |a| && j <= |b|
    ensures Cell(a, b, i, j) == Cell(b, a, j, i)
    decreases i + j
  {
    if i != 0 && j != 0 {
      CellSymmetric(a, b, i, j - 1);
      CellSymmetric(a, b, i - 1, j);
      CellSymmetric(a, b, i - 1, j - 1);
    }
  }

  lemma {:induction false} CellBounds(a: string, b: string, i: nat, j: nat)
    requires i <= |a| && j <= |b|
    ensures j - i <= Cell(a, b, i, j) <= i + j
    ensures i - j <= Cell(a, b, i, j)
    decreases i + j
  {
    if i != 0 && j != 0 {
      CellBounds(a, b, i, j - 1);
      CellBounds(a, b, i - 1, j);
      CellBounds(a, b, i - 1, j - 1);
    }
  }

  lemma {:induction false} CellZero(a: string, b: string, i: nat, j: nat)
    requires i <= |a| && j <= |b|
    ensures Cell(a, b, i, j) == 0 <==> a[..i] == b[..j]
    decreases i + j
  {
    if i != 0 && j != 0 {
      CellZero(a, b, i - 1, j - 1);
      assert a[..i] == a[..i - 1] + [a[i - 1]] && b[..j] == b[..j - 1] + [b[j - 1]];
    }
  }

  lemma {:induction false} CellTriangle(a: string, b: string, c: string, i: nat, j: nat, k: nat)
    requires i <= |a| && j <= |b| && k <= |c|
    ensures Cell(a, c, i, k) <= Cell(a, b, i, j) + Cell(b, c, j, k)
    decreases i + j + k
  {
    if i == 0 || j == 0 || k == 0 {
      CellBounds(a, b, i, j);
      CellBounds(b, c, j, k);
      CellBounds(a, c, i, k);
    } else {
      BestStep(a, b, i, j);
      BestStep(b, c, j, k);
      BestStep(a, c, i, k);
      var insertedB := Best(a, b, i, j) == Cell(a, b, i, j - 1) + 1;
      var deletedB := Best(b, c, j, k) == Cell(b, c, j - 1, k) + 1;
      if Best(a, b, i, j) == Cell(a, b, i - 1, j) + 1 {
        CellTriangle(a, b, c, i - 1, j, k);
      } else if Best(b, c, j, k) == Cell(b, c, j, k - 1) + 1 {
        CellTriangle(a, b, c, i, j, k - 1);
      } else {
        CellTriangle(a, b, c, if insertedB then i else i - 1, j - 1, if deletedB then k else k - 1);
      }
    }
  }

  lemma LevZero(a: string, b: string)
    ensures Lev(a, b) == 0 <==> a == b
  {
    CellZero(a, b, |a|, |b|);
    assert a[..|a|] == a && b[..|b|] == b;
  }

  // ---------------------------------------------------------------------------
  // Lev is the least script length
  // ---------------------------------------------------------------------------

  lemma {:induction false} CellPrefix(a: string, b: string, x: string, y: string, i: nat, j: nat)
    requires i <= |a| && j <= |b| && a <= x && b <= y
    ensures Cell(x, y, i, j) == Cell(a, b, i, j)
    decreases i + j
  {
    if i != 0 && j != 0 {
      CellPrefix(a, b, x, y, i, j - 1);
      CellPrefix(a, b, x, y, i - 1, j);
      CellPrefix(a, b, x, y, i - 1, j - 1);
    }
  }

  lemma {:induction false} CellCommonSuffix(a: string, b: string, z: string, n: nat)
    requires n <= |z|
    ensures Cell(a + z, b + z, |a| + n, |b| + n) <= Lev(a, b)
  {
    if n == 0 {
      CellPrefix(a, b, a + z, b + z, |a|, |b|);
    } else {
      CellCommonSuffix(a, b, z, n - 1);
      assert (a + z)[|a| + n - 1] == (b + z)[|b| + n - 1];
    }
  }

  lemma {:induction false} CellCommonPrefix(x: string, a: string, b: string, i: nat, j: nat)
    requires i <= |a| && j <= |b|
    ensures Cell(x + a, x + b, |x| + i, |x| + j) <= Cell(a, b, i, j)
    decreases i + j
  {
    if i == 0 && j == 0 {
      CellZero(x + a, x + b, |x|, |x|);
      assert (x + a)[..|x|] == x == (x + b)[..|x|];
    } else if i == 0 {
      CellCommonPrefix(x, a, b, i, j - 1);
    } else if j == 0 {
      CellCommonPrefix(x, a, b, i - 1, j);
    } else {
      CellCommonPrefix(x, a, b, i - 1, j);
      CellCommonPrefix(x, a, b, i, j - 1);
      CellCommonPrefix(x, a, b, i - 1, j - 1);
    }
  }

  /** Context around two strings does not increase their distance. */
  lemma LevInContext(x: string, a: string, b: string, z: string)
    ensures Lev(x + a + z, x + b + z) <= Lev(a, b)
  {
    CellCommonPrefix(x, a, b, |a|, |b|);
    CellCommonSuffix(x + a, x + b, z, |z|);
  }

  lemma OneEdit(s: string, e: Edit)
    requires Fits(s, e)
    ensures Lev(s, ApplyEdit(s, e)) <= 1
  {
    var x, p := s[..e.pos], e.pos;
    match e {
      case Insert(_, c) =>
        LevInContext(x, [], [c], s[p..]);
        assert s == x + [] + s[p..];
      case Delete(_) =>
        LevInContext(x, [s[p]], [], s[p + 1..]);
        assert s == x + [s[p]] + s[p + 1..] && ApplyEdit(s, e) == x + [] + s[p + 1..];
      case Substitute(_, c) =>
        LevInContext(x, [s[p]], [c], s[p + 1..]);
        assert s == x + [s[p]] + s[p + 1..] && ApplyEdit(s, e) == x + [c] + s[p + 1..];
    }
  }

  lemma TurnsFirst(a: string, b: string, script: seq<Edit>)
    requires Turns(a, b, script) && script != []
    ensures Fits(a, script[0]) && Turns(ApplyEdit(a, script[0]), b, script[1..])
  {
    assert ApplyScript(a, script) == ApplyFirst(a, script);
  }

  lemma TurnsCons(a: string, b: string, script: seq<Edit>)
    requires script != [] && Fits(a, script[0]) && Turns(ApplyEdit(a, script[0]), b, script[1..])
    ensures Turns(a, b, script)
  {
    assert ApplyScript(a, script) == ApplyFirst(a, script);
  }

  lemma {:induction false} ScriptAtLeastLev(a: string, b: string, script: seq<Edit>)
    requires Turns(a, b, script)
    ensures Lev(a, b) <= |script|
    decreases |script|
  {
    if script == [] {
      LevZero(a, b);
    } else {
      TurnsFirst(a, b, script);
      var c := ApplyEdit(a, script[0]);
      ScriptAtLeastLev(c, b, script[1..]);
      OneEdit(a, script[0]);
      CellTriangle(a, c, b, |a|, |c|, |b|);
    }
  }

  lemma {:induction false} TurnsCompose(a: string, b: string, c: string, s: seq<Edit>, t: seq<Edit>)
    requires Turns(a, b, s) && Turns(b, c, t)
    ensures Turns(a, c, s + t)
    decreases |s|
  {
    if s == [] {
      assert s + t == t;
    } else {
      TurnsFirst(a, b, s);
      TurnsCompose(ApplyEdit(a, s[0]), b, c, s[1..], t);
      var all := s + t;
      assert all[0] == s[0] && all[1..] == s[1..] + t;
      TurnsCons(a, c, all);
    }
  }

  /** A script that fits a string fits it with a character appended, and leaves that alone. */
  lemma {:induction false} TurnsAppended(a: string, b: string, script: seq<Edit>, z: char)
    requires Turns(a, b, script)
    ensures Turns(a + [z], b + [z], script)
    decreases |script|
  {
    if script != [] {
      var e := script[0];
      TurnsFirst(a, b, script);
      TurnsAppended(ApplyEdit(a, e), b, script[1..], z);
      assert ApplyEdit(a + [z], e) == ApplyEdit(a, e) + [z];
      TurnsCons(a + [z], b + [z], script);
    }
  }

  lemma OneEditTurns(a: string, e: Edit)
    requires Fits(a, e)
    ensures Turns(a, ApplyEdit(a, e), [e])
  {
    assert [e][1..] == [];
    TurnsCons(a, ApplyEdit(a, e), [e]);
  }

  lemma {:induction false} CellScript(a: string, b: string, i: nat, j: nat) returns (script: seq<Edit>)
    requires i <= |a| && j <= |b|
    ensures Turns(a[..i], b[..j], script) && |script| == Cell(a, b, i, j)
    decreases i + j
  {
    if i == 0 && j == 0 {
      script := [];
    } else if j == 0 || (i != 0 && Cell(a, b, i, j) == Cell(a, b, i - 1, j) + 1) {
      script := CellScript(a, b, i - 1, j);
      script := DeleteFirst(a, i, b[..j], script);
    } else if i == 0 || Cell(a, b, i, j) == Cell(a, b, i, j - 1) + 1 {
      script := CellScript(a, b, i, j - 1);
      script := InsertLast(a[..i], b, j, script);
    } else {
      script := CellScript(a, b, i - 1, j - 1);
      script := CellScriptDiagonal(a, b, i, j, script);
    }
  }

  lemma DeleteFirst(a: string, i: nat, b: string, shorter: seq<Edit>) returns (script: seq<Edit>)
    requires 0 < i <= |a| && Turns(a[..i - 1], b, shorter)
    ensures Turns(a[..i], b, script) && |script| == |shorter| + 1
  {
    var e := Delete(i - 1);
    assert ApplyEdit(a[..i], e) == a[..i - 1];
    OneEditTurns(a[..i], e);
    TurnsCompose(a[..i], a[..i - 1], b, [e], shorter);
    script := [e] + shorter;
  }

  lemma InsertLast(a: string, b: string, j: nat, shorter: seq<Edit>) returns (script: seq<Edit>)
    requires 0 < j <= |b| && Turns(a, b[..j - 1], shorter)
    ensures Turns(a, b[..j], script) && |script| == |shorter| + 1
  {
    var e := Insert(j - 1, b[j - 1]);
    assert ApplyEdit(b[..j - 1], e) == b[..j];
    OneEditTurns(b[..j - 1], e);
    TurnsCompose(a, b[..j - 1], b[..j], shorter, [e]);
    script := shorter + [e];
  }

  lemma CellScriptDiagonal(a: string, b: string, i: nat, j: nat, shorter: seq<Edit>) returns (script: seq<Edit>)
    requires 0 < i <= |a| && 0 < j <= |b| && Turns(a[..i - 1], b[..j - 1], shorter)
    ensures Turns(a[..i], b[..j], script) && |script| == |shorter| + Cost(a[i - 1], b[j - 1])
  {
    var m := b[..j - 1] + [a[i - 1]];
    TurnsAppended(a[..i - 1], b[..j - 1], shorter, a[i - 1]);
    assert a[..i] == a[..i - 1] + [a[i - 1]] && b[..j] == b[..j - 1] + [b[j - 1]];
    script := shorter;
    if a[i - 1] != b[j - 1] {
      var e := Substitute(j - 1, b[j - 1]);
      assert ApplyEdit(m, e) == b[..j];
      OneEditTurns(m, e);
      TurnsCompose(a[..i], m, b[..j], script, [e]);
      script := script + [e];
    }
  }

  lemma LevScript(a: string, b: string) returns (script: seq<Edit>)
    ensures Turns(a, b, script) && |script| == Lev(a, b)
  {
    script := CellScript(a, b, |a|, |b|);
    assert a[..|a|] == a && b[..|b|] == b;
  }

  lemma LevIsDistance(a: string, b: string)
    ensures IsDistance(a, b, Lev(a, b))
  {
    var best := LevScript(a, b);
    forall script | Turns(a, b, script) ensures Lev(a, b) <= |script| {
      ScriptAtLeastLev(a, b, script);
    }
  }

  /** Least script length is a metric on strings. */
  lemma DistanceIsMetric(a: string, b: string, c: string, ab: nat, bc: nat, ac: nat)
    requires IsDistance(a, b, ab) && IsDistance(b, c, bc) && IsDistance(a, c, ac)
    ensures ab == 0 <==> a == b
    ensures IsDistance(b, a, ab)
    ensures ac <= ab + bc
  {
    LevIsDistance(a, b);
    LevIsDistance(b, c);
    LevIsDistance(a, c);
    LevIsDistance(b, a);
    assert ab == Lev(a, b) && bc == Lev(b, c) && ac == Lev(a, c);
    LevZero(a, b);
    CellSymmetric(a, b, |a|, |b|);
    CellTriangle(a, b, c, |a|, |b|, |c|);
  }

  // ---------------------------------------------------------------------------
  // The two-row loop
  // ---------------------------------------------------------------------------

  ghost predicate IsRow(a: string, b: string, i: nat, row: seq<nat>)
    requires i <= |a|
  {
    |row| == |b| + 1 && forall j :: 0 <= j <= |b| ==> row[j] == Cell(a, b, i, j)
  }

  /** One pass of the inner loop. */
  method NextRow(a: string, b: string, i: nat, prev: array<nat>) returns (cur: array<nat>)
    requires 0 < i <= |a| && IsRow(a, b, i - 1, prev[..])
    ensures fresh(cur) && IsRow(a, b, i, cur[..])
  {
    ghost var above := prev[..];
    cur := new nat[|b| + 1];
    cur[0] := i;
    for j := 1 to |b| + 1
      invariant prev[..] == above
      invariant forall k :: 0 <= k < j ==> cur[k] == Cell(a, b, i, k)
    {
      assert prev[j] == above[j] && prev[j - 1] == above[j - 1];
      var cost := if a[i - 1] == b[j - 1] then 0 else 1;
      cur[j] := Min(Min(cur[j - 1] + 1, prev[j] + 1), prev[j - 1] + cost);
      assert cur[j] == Best(a, b, i, j);
    }
  }

  /** The table of the recurrence, kept one row at a time. */
  method Levenshtein(a: string, b: string) returns (d: nat)
    ensures d == Lev(a, b) && IsDistance(a, b, d)
  {
    LevZero(a, b);
    if a == b {
      d := 0;
    } else if a == [] {
      d := |b|;
    } else if b == [] {
      d := |a|;
    } else {
      var prev := new nat[|b| + 1](j => j);
      for i := 1 to |a| + 1
        invariant IsRow(a, b, i - 1, prev[..])
      {
        prev := NextRow(a, b, i, prev);
      }
      d := prev[|b|];
      assert d == prev[..][|b|];
    }
    LevIsDistance(a, b);
  }

  // ---------------------------------------------------------------------------
  // The linear scan for distance one
  // ---------------------------------------------------------------------------

  /** Positions below `n` at which the two strings differ. */
  function Differences(a: string, b: string, n: nat): nat
    requires n <= |a| && n <= |b|
  {
    if n == 0 then 0 else Differences(a, b, n - 1) + Cost(a[n - 1], b[n - 1])
  }

  lemma {:induction false} DifferencesFacts(a: string, b: string, n: nat)
    requires n <= |a| && n <= |b|
    ensures Cell(a, b, n, n) <= Differences(a, b, n)
    ensures Differences(a, b, n) == 0 <==> a[..n] == b[..n]
  {
    if n != 0 {
      DifferencesFacts(a, b, n - 1);
      assert a[..n] == a[..n - 1] + [a[n - 1]] && b[..n] == b[..n - 1] + [b[n - 1]];
    }
  }

  lemma {:induction false} OneSubstitution(a: string, p: nat, c: char, n: nat)
    requires p < |a| && n <= |a|
    ensures Differences(a, a[p := c], n) <= if n <= p then 0 else 1
  {
    if n != 0 {
      OneSubstitution(a, p, c, n - 1);
    }
  }

  /** A string at distance one is one edit away. */
  lemma LevOneEdit(a: string, b: string) returns (e: Edit)
    requires Lev(a, b) == 1
    ensures Fits(a, e) && ApplyEdit(a, e) == b
  {
    var script := LevScript(a, b);
    e := script[0];
    TurnsFirst(a, b, script);
    assert script[1..] == [];
  }

  lemma SameLengthOne(a: string, b: string)
    requires |a| == |b|
    ensures Lev(a, b) == 1 <==> Differences(a, b, |a|) == 1
  {
    LevZero(a, b);
    DifferencesFacts(a, b, |a|);
    assert a[..|a|] == a && b[..|b|] == b;
    if Lev(a, b) == 1 {
      var e := LevOneEdit(a, b);
      OneSubstitution(a, e.pos, e.c, |a|);
    }
  }

  /** `short` is `long` with the character at `p` left out. */
  ghost predicate Omits(short: string, long: string, p: nat) {
    p < |long| && short == long[..p] + long[p + 1..]
  }

  lemma OmitsIndex(short: string, long: string, q: nat, x: nat)
    requires |long| == |short| + 1 && x < |short|
    ensures Omits(short, long, q) ==> short[x] == if x < q then long[x] else long[x + 1]
  {
  }

  lemma OmittedByIndex(short: string, long: string, p: nat)
    requires |long| == |short| + 1 && p <= |short|
    requires forall k :: 0 <= k < p ==> short[k] == long[k]
    requires forall k :: p <= k < |short| ==> short[k] == long[k + 1]
    ensures Omits(short, long, p)
  {
    var rest := long[..p] + long[p + 1..];
    forall k | 0 <= k < |short| ensures short[k] == rest[k] {
      assert k >= p ==> rest[k] == long[k + 1];
    }
  }

  lemma OneLongerOne(short: string, long: string)
    requires |long| == |short| + 1
    ensures Lev(short, long) == 1 <==> exists p: nat :: Omits(short, long, p)
  {
    LevZero(short, long);
    if Lev(short, long) == 1 {
      var e := LevOneEdit(short, long);
      assert Omits(short, long, e.pos);
    }
    if p: nat :| Omits(short, long, p) {
      assert ApplyEdit(short, Insert(p, long[p])) == long;
      OneEdit(short, Insert(p, long[p]));
    }
  }

  method CountDifferences(a: string, b: string) returns (n: nat)
    requires |a| == |b|
    ensures n == Differences(a, b, |a|)
  {
    n := 0;
    for i := 0 to |a|
      invariant n == Differences(a, b, i)
    {
      if a[i] != b[i] {
        n := n + 1;
      }
    }
  }

  /** Whether `long` is `short` with one character inserted. */
  method OneInsertion(short: string, long: string) returns (r: bool)
    requires |long| == |short| + 1
    ensures r <==> exists p: nat :: Omits(short, long, p)
  {
    var i, j, skipped := 0, 0, false;
    ghost var p := 0;
    while i < |short| && j < |long|
      invariant 0 <= i <= |short|
      invariant j == if skipped then i + 1 else i
      invariant !skipped ==> forall k :: 0 <= k < i ==> short[k] == long[k]
      invariant skipped ==> p <= i && p < |short| && short[p] != long[p]
      invariant skipped ==> forall k :: 0 <= k < p ==> short[k] == long[k]
      invariant skipped ==> forall k :: p <= k < i ==> short[k] == long[k + 1]
      decreases |long| - j
    {
      if short[i] == long[j] {
        i, j := i + 1, j + 1;
      } else {
        if skipped {
          forall q: nat ensures !Omits(short, long, q) {
            OmitsIndex(short, long, q, p);
            OmitsIndex(short, long, q, i);
          }
          return false;
        }
        skipped, p := true, i;
        j := j + 1;
      }
    }
    OmittedByIndex(short, long, if skipped then p else |short|);
    return true;
  }

  /** True exactly for strings at edit distance one, as the table computes it. */
  method DistanceOne(a: string, b: string) returns (r: bool)
    ensures r <==> Lev(a, b) == 1
    ensures r <==> IsDistance(a, b, 1)
  {
    CellBounds(a, b, |a|, |b|);
    LevZero(a, b);
    CellSymmetric(a, b, |a|, |b|);
    LevIsDistance(a, b);
    if a == b {
      return false;
    }
    if |a| - |b| > 1 || |b| - |a| > 1 {
      return false;
    }
    if |a| == |b| {
      SameLengthOne(a, b);
      var diffs := CountDifferences(a, b);
      return diffs == 1;
    }
    var short, long := if |a| < |b| then a else b, if |a| < |b| then b else a;
    OneLongerOne(short, long);
    r := OneInsertion(short, long);
  }
}
