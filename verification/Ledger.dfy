/** Model of the soft-fence cost ledger, in exact arithmetic: charges, warn rungs and refunds. */
module CostLedger {
  import opened Common

  type CallId = string

  const TOLERANCE := 0.000000000001

  datatype Ledger = Ledger(
    budget: real, rungs: seq<real>, spent: real, warned: set<real>, committed: map<CallId, real>, refunded: set<CallId>)

  datatype Verdict =
    | Fine(spentAfter: real, fraction: real, headroom: real)
    | Warn(spentAfter: real, fraction: real, headroom: real, rung: real, next: Option<real>)
    | HardStop(spentAfter: real, fraction: real, headroom: real)

  datatype ChargeError = EmptyCallId | NegativeAmount | DuplicateCallId

  datatype RefundStatus =
    | AlreadyRefunded(spentAfter: real)
    | Unknown
    | Refunded(amount: real, spentAfter: real, fraction: real, rearmed: set<real>)

  datatype ConfigError = BudgetNotPositive | NoRungs | RungsNotAscending | RungOutOfRange

  ghost predicate Ascending(rungs: seq<real>) {
    forall i, j :: 0 <= i < j < |rungs| ==> rungs[i] <= rungs[j]
  }

  ghost predicate ValidConfig(budget: real, rungs: seq<real>) {
    && budget > 0.0 && rungs != [] && Ascending(rungs)
    && rungs[0] > 0.0 && rungs[|rungs| - 1] < 1.0
  }

  // ---------------------------------------------------------------------------
  // One operation
  // ---------------------------------------------------------------------------

  function Fraction(l: Ledger): real
    requires l.budget > 0.0
  {
    l.spent / l.budget
  }

  function Max(x: real, y: real): real {
    if x >= y then x else y
  }

  /** Rungs at or below `f` that were not warned about yet, in order. */
  function Crossed(rungs: seq<real>, warned: set<real>, f: real): seq<real> {
    if rungs == [] then []
    else
      var before, r := Crossed(rungs[..|rungs| - 1], warned, f), rungs[|rungs| - 1];
      if f >= r && r !in warned then before + [r] else before
  }

  /** The first rung above `r`, if any. */
  function NextAbove(rungs: seq<real>, r: real): Option<real> {
    if rungs == [] then None else if rungs[0] > r then Some(rungs[0]) else NextAbove(rungs[1..], r)
  }

  function Below(rungs: seq<real>, r: real): set<real> {
    set x | x in rungs && x <= r
  }

  function Charge(l: Ledger, id: CallId, amount: real): (Ledger, Result<Verdict, ChargeError>)
    requires l.budget > 0.0
  {
    if id == "" then (l, Err(EmptyCallId))
    else if amount < 0.0 then (l, Err(NegativeAmount))
    else if id in l.committed || id in l.refunded then (l, Err(DuplicateCallId))
    else if l.spent + amount > l.budget + TOLERANCE then
      (l, Ok(HardStop(l.spent, Fraction(l), Max(0.0, l.budget - l.spent))))
    else
      var l' := l.(spent := l.spent + amount, committed := l.committed[id := amount]);
      var f := Fraction(l');
      var crossed := Crossed(l.rungs, l.warned, f);
      if crossed == [] then (l', Ok(Fine(l'.spent, f, l'.budget - l'.spent)))
      else
        var rung := crossed[|crossed| - 1];
        (l'.(warned := l.warned + Below(l.rungs, rung)),
         Ok(Warn(l'.spent, f, l'.budget - l'.spent, rung, NextAbove(l.rungs, rung))))
  }

  function Refund(l: Ledger, id: CallId): (Ledger, RefundStatus)
    requires l.budget > 0.0
  {
    if id in l.refunded then (l, AlreadyRefunded(l.spent))
    else if id !in l.committed then (l, Unknown)
    else
      var left := Max(0.0, l.spent - l.committed[id]);
      var l' := l.(spent := left, committed := l.committed - {id}, refunded := l.refunded + {id});
      var f := Fraction(l');
      var rearmed := set r | r in l.warned && f < r;
      (l'.(warned := l.warned - rearmed), Refunded(l.committed[id], l'.spent, f, rearmed))
  }

  // ---------------------------------------------------------------------------
  // Sums over the committed map
  // ---------------------------------------------------------------------------

  ghost function Total(m: map<CallId, real>): real {
    if m == map[] then 0.0
    else
      var k :| k in m;
      m[k] + Total(m - {k})
  }

  lemma {:induction false} TotalRemove(m: map<CallId, real>, k: CallId)
    requires k in m
    ensures Total(m) == m[k] + Total(m - {k})
    decreases m
  {
    var x :| x in m && Total(m) == m[x] + Total(m - {x});
    if x != k {
      TotalRemove(m - {x}, k);
      TotalRemove(m - {k}, x);
      assert m - {x} - {k} == m - {k} - {x};
    }
  }

  lemma TotalAdd(m: map<CallId, real>, k: CallId, v: real)
    requires k !in m
    ensures Total(m[k := v]) == Total(m) + v
  {
    TotalRemove(m[k := v], k);
    assert m[k := v] - {k} == m;
  }

  lemma {:induction false} TotalNonNegative(m: map<CallId, real>)
    requires forall k :: k in m ==> m[k] >= 0.0
    ensures Total(m) >= 0.0
    decreases m
  {
    if m != map[] {
      var k :| k in m;
      TotalRemove(m, k);
      TotalNonNegative(m - {k});
    }
  }

  lemma DivMonotone(x: real, y: real, b: real)
    requires x <= y && b > 0.0
    ensures x / b <= y / b
  {
    assert (y / b) * b == y && (x / b) * b == x;
    assert (y / b - x / b) * b == y - x;
  }

  // ---------------------------------------------------------------------------
  // The invariant
  // ---------------------------------------------------------------------------

  ghost predicate Inv(l: Ledger) {
    && ValidConfig(l.budget, l.rungs)
    && l.spent == Total(l.committed) && 0.0 <= l.spent <= l.budget + TOLERANCE
    && (forall k :: k in l.committed ==> l.committed[k] >= 0.0)
    && l.warned == Below(l.rungs, Fraction(l))
    && l.committed.Keys !! l.refunded
  }

  lemma {:induction false} CrossedFacts(rungs: seq<real>, warned: set<real>, f: real)
    requires Ascending(rungs)
    ensures var c := Crossed(rungs, warned, f);
            && (forall r :: r in c <==> r in rungs && f >= r && r !in warned)
            && (c != [] ==> forall r :: r in c ==> r <= c[|c| - 1])
  {
    if rungs != [] {
      CrossedFacts(rungs[..|rungs| - 1], warned, f);
      assert rungs == rungs[..|rungs| - 1] + [rungs[|rungs| - 1]];
    }
  }

  /** A charge that is let through. */
  predicate Accepted(l: Ledger, id: CallId, amount: real) {
    id != "" && amount >= 0.0 && id !in l.committed && id !in l.refunded && l.spent + amount <= l.budget + TOLERANCE
  }

  lemma ChargeKeepsInv(l: Ledger, id: CallId, amount: real)
    requires Inv(l)
    ensures Inv(Charge(l, id, amount).0)
  {
    if Accepted(l, id, amount) {
      TotalAdd(l.committed, id, amount);
      DivMonotone(l.spent, l.spent + amount, l.budget);
      WarnedAfterCharge(l, (l.spent + amount) / l.budget);
    }
  }

  /** Marking every rung up to the highest crossed one leaves exactly the rungs at or below `f`. */
  lemma WarnedAfterCharge(l: Ledger, f: real)
    requires Ascending(l.rungs) && l.budget > 0.0 && l.warned == Below(l.rungs, Fraction(l)) && Fraction(l) <= f
    ensures var c := Crossed(l.rungs, l.warned, f);
            Below(l.rungs, f) == if c == [] then l.warned else l.warned + Below(l.rungs, c[|c| - 1])
  {
    CrossedFacts(l.rungs, l.warned, f);
    var c := Crossed(l.rungs, l.warned, f);
    forall r | r in Below(l.rungs, f) && r !in l.warned ensures r in c {
    }
    if c != [] {
      assert c[|c| - 1] in c;
    }
  }

  lemma RefundKeepsInv(l: Ledger, id: CallId)
    requires Inv(l)
    ensures Inv(Refund(l, id).0)
  {
    if id !in l.refunded && id in l.committed {
      TotalRemove(l.committed, id);
      TotalNonNegative(l.committed - {id});
      DivMonotone(l.spent - l.committed[id], l.spent, l.budget);
      var l' := Refund(l, id).0;
      assert l'.spent == l.spent - l.committed[id];
      assert l'.warned == Below(l.rungs, Fraction(l'));
    }
  }

  // ---------------------------------------------------------------------------
  // Whole runs
  // ---------------------------------------------------------------------------

  datatype Op = DoCharge(id: CallId, amount: real) | DoRefund(id: CallId)

  function Step(l: Ledger, op: Op): (l': Ledger)
    requires l.budget > 0.0
    ensures l'.budget == l.budget && l'.rungs == l.rungs
  {
    match op
    case DoCharge(id, amount) => Charge(l, id, amount).0
    case DoRefund(id) => Refund(l, id).0
  }

  function Fresh(budget: real, rungs: seq<real>): Ledger {
    Ledger(budget, rungs, 0.0, {}, map[], {})
  }

  /** The ledger after the first `n` operations. */
  function After(budget: real, rungs: seq<real>, ops: seq<Op>, n: nat): (l: Ledger)
    requires budget > 0.0 && n <= |ops|
    ensures l.budget == budget && l.rungs == rungs
  {
    if n == 0 then Fresh(budget, rungs) else Step(After(budget, rungs, ops, n - 1), ops[n - 1])
  }

  /** In every reachable ledger the spent total is the committed sum, the warned rungs are those reached. */
  lemma {:induction false} ReachableInv(budget: real, rungs: seq<real>, ops: seq<Op>, n: nat)
    requires ValidConfig(budget, rungs) && n <= |ops|
    ensures Inv(After(budget, rungs, ops, n))
    ensures var l := After(budget, rungs, ops, n);
            && l.spent == Total(l.committed) <= budget + 0.000000000001
            && forall r :: r in l.warned <==> r in rungs && r <= l.spent / budget
  {
    if n == 0 {
      assert Below(rungs, 0.0) == {};
      assert 0.0 / budget == 0.0;
    } else {
      ReachableInv(budget, rungs, ops, n - 1);
      var l := After(budget, rungs, ops, n - 1);
      match ops[n - 1] {
        case DoCharge(id, amount) => ChargeKeepsInv(l, id, amount);
        case DoRefund(id) => RefundKeepsInv(l, id);
      }
    }
  }

  /** Total and warned rungs depend on the committed map alone, not on the route that led to it. */
  lemma HistoryIndependent(budget: real, rungs: seq<real>, ops: seq<Op>, n: nat, ops': seq<Op>, n': nat)
    requires ValidConfig(budget, rungs) && n <= |ops| && n' <= |ops'|
    requires After(budget, rungs, ops, n).committed == After(budget, rungs, ops', n').committed
    ensures After(budget, rungs, ops, n).spent == After(budget, rungs, ops', n').spent
    ensures After(budget, rungs, ops, n).warned == After(budget, rungs, ops', n').warned
  {
    ReachableInv(budget, rungs, ops, n);
    ReachableInv(budget, rungs, ops', n');
  }

  // ---------------------------------------------------------------------------
  // A later refund undoes a charge
  // ---------------------------------------------------------------------------

  /** The ledger at the end of a run. */
  function Final(budget: real, rungs: seq<real>, ops: seq<Op>): (l: Ledger)
    requires budget > 0.0
    ensures l.budget == budget && l.rungs == rungs
  {
    After(budget, rungs, ops, |ops|)
  }

  lemma {:induction false} AfterPrefix(budget: real, rungs: seq<real>, ops: seq<Op>, more: seq<Op>, n: nat)
    requires budget > 0.0 && n <= |ops|
    ensures After(budget, rungs, ops + more, n) == After(budget, rungs, ops, n)
  {
    if n > 0 {
      AfterPrefix(budget, rungs, ops, more, n - 1);
    }
  }

  lemma FinalSnoc(budget: real, rungs: seq<real>, ops: seq<Op>, op: Op)
    requires budget > 0.0
    ensures Final(budget, rungs, ops + [op]) == Step(Final(budget, rungs, ops), op)
  {
    AfterPrefix(budget, rungs, ops, [op], |ops|);
  }

  /** `l` and `m` differ by one charge, `id` for `amount`, that is outstanding in `l` alone. */
  ghost predicate Outstanding(l: Ledger, m: Ledger, id: CallId, amount: real) {
    && Inv(l) && Inv(m) && l.budget == m.budget && l.rungs == m.rungs && l.refunded == m.refunded
    && id !in m.committed && id !in m.refunded && amount >= 0.0
    && l.committed == m.committed[id := amount]
  }

  lemma OutstandingSpent(l: Ledger, m: Ledger, id: CallId, amount: real)
    requires Outstanding(l, m, id, amount)
    ensures l.spent == m.spent + amount
  {
    TotalAdd(m.committed, id, amount);
  }

  lemma ChargeStartsOutstanding(m: Ledger, id: CallId, amount: real)
    requires Inv(m) && Accepted(m, id, amount)
    ensures Outstanding(Charge(m, id, amount).0, m, id, amount)
  {
    ChargeKeepsInv(m, id, amount);
  }

  /** A charge that `m` lets through does not reuse `id` and leaves room for the outstanding amount. */
  predicate LeavesRoom(m: Ledger, op: Op, id: CallId, amount: real) {
    op.DoCharge? && Accepted(m, op.id, op.amount) ==>
      op.id != id && m.spent + amount + op.amount <= m.budget + TOLERANCE
  }

  lemma ChargeEffect(l: Ledger, id: CallId, amount: real)
    requires l.budget > 0.0
    ensures var l' := Charge(l, id, amount).0;
            && l'.budget == l.budget && l'.rungs == l.rungs && l'.refunded == l.refunded
            && l'.committed == if Accepted(l, id, amount) then l.committed[id := amount] else l.committed
  {
  }

  lemma RefundEffect(l: Ledger, id: CallId)
    requires l.budget > 0.0
    ensures var l', known := Refund(l, id).0, id !in l.refunded && id in l.committed;
            && l'.budget == l.budget && l'.rungs == l.rungs
            && l'.committed == (if known then l.committed - {id} else l.committed)
            && l'.refunded == if known then l.refunded + {id} else l.refunded
  {
  }

  lemma ChargeKeepsOutstanding(l: Ledger, m: Ledger, x: CallId, a: real, id: CallId, amount: real)
    requires Outstanding(l, m, id, amount) && LeavesRoom(m, DoCharge(x, a), id, amount)
    ensures Outstanding(Charge(l, x, a).0, Charge(m, x, a).0, id, amount)
  {
    ChargeKeepsInv(l, x, a);
    ChargeKeepsInv(m, x, a);
    ChargeEffect(l, x, a);
    ChargeEffect(m, x, a);
    AcceptedAlike(l, m, x, a, id, amount);
    if x != id {
      UpdatesCommute(m.committed, x, a, id, amount);
    }
  }

  lemma AcceptedAlike(l: Ledger, m: Ledger, x: CallId, a: real, id: CallId, amount: real)
    requires Outstanding(l, m, id, amount) && LeavesRoom(m, DoCharge(x, a), id, amount)
    ensures Accepted(l, x, a) <==> Accepted(m, x, a)
    ensures Accepted(m, x, a) ==> x != id
  {
    OutstandingSpent(l, m, id, amount);
  }

  lemma UpdatesCommute(m: map<CallId, real>, x: CallId, a: real, y: CallId, b: real)
    requires x != y
    ensures m[x := a][y := b] == m[y := b][x := a]
  {
  }

  lemma RefundKeepsOutstanding(l: Ledger, m: Ledger, x: CallId, id: CallId, amount: real)
    requires Outstanding(l, m, id, amount) && x != id
    ensures Outstanding(Refund(l, x).0, Refund(m, x).0, id, amount)
  {
    RefundKeepsInv(l, x);
    RefundKeepsInv(m, x);
    RefundEffect(l, x);
    RefundEffect(m, x);
    assert m.committed[id := amount] - {x} == (m.committed - {x})[id := amount];
  }

  lemma StepKeepsOutstanding(l: Ledger, m: Ledger, op: Op, id: CallId, amount: real)
    requires Outstanding(l, m, id, amount) && op != DoRefund(id) && LeavesRoom(m, op, id, amount)
    ensures Outstanding(Step(l, op), Step(m, op), id, amount)
  {
    match op {
      case DoCharge(x, a) => ChargeKeepsOutstanding(l, m, x, a, id, amount);
      case DoRefund(x) => RefundKeepsOutstanding(l, m, x, id, amount);
    }
  }

  /** Refunding the outstanding charge leaves the other ledger, with the id refunded; once is enough. */
  lemma RefundSettles(l: Ledger, m: Ledger, id: CallId, amount: real)
    requires Outstanding(l, m, id, amount)
    ensures Refund(l, id).0 == m.(refunded := m.refunded + {id})
    ensures Refund(l, id).1.Refunded? && Refund(l, id).1.amount == amount
    ensures Refund(Refund(l, id).0, id) == (Refund(l, id).0, AlreadyRefunded(m.spent))
  {
    RefundKeepsInv(l, id);
    var back := Refund(l, id).0;
    assert back.committed == m.committed;
  }

  /** Where the outstanding charge takes the room of another one, no refund brings that one back. */
  lemma NoRoomNeverSettles(l: Ledger, m: Ledger, op: Op, id: CallId, amount: real)
    requires Outstanding(l, m, id, amount) && !LeavesRoom(m, op, id, amount)
    ensures Refund(Step(l, op), id).0.committed != Step(m, op).committed
  {
    OutstandingSpent(l, m, id, amount);
    assert Step(l, op) == l;
    assert op.id in Step(m, op).committed && op.id !in Refund(l, id).0.committed;
  }

  /** Every charge among the first `j` of `later`, where let through without the extra charge, leaves room for it. */
  ghost predicate RoomThroughout(
    budget: real, rungs: seq<real>, before: seq<Op>, later: seq<Op>, j: nat, id: CallId, amount: real)
    requires budget > 0.0 && j <= |later|
  {
    forall k :: 0 <= k < j ==> LeavesRoom(Final(budget, rungs, before + later[..k]), later[k], id, amount)
  }

  lemma {:induction false} StaysOutstanding(
    budget: real, rungs: seq<real>, before: seq<Op>, later: seq<Op>, j: nat, id: CallId, amount: real)
    requires ValidConfig(budget, rungs) && Accepted(Final(budget, rungs, before), id, amount)
    requires DoRefund(id) !in later && j <= |later| && RoomThroughout(budget, rungs, before, later, j, id, amount)
    ensures Outstanding(Final(budget, rungs, before + [DoCharge(id, amount)] + later[..j]),
                        Final(budget, rungs, before + later[..j]), id, amount)
  {
    var charged := before + [DoCharge(id, amount)];
    if j == 0 {
      ReachableInv(budget, rungs, before, |before|);
      ChargeStartsOutstanding(Final(budget, rungs, before), id, amount);
      FinalSnoc(budget, rungs, before, DoCharge(id, amount));
      assert charged + later[..0] == charged && before + later[..0] == before;
    } else {
      var op := later[j - 1];
      StaysOutstanding(budget, rungs, before, later, j - 1, id, amount);
      StepKeepsOutstanding(Final(budget, rungs, charged + later[..j - 1]),
                           Final(budget, rungs, before + later[..j - 1]), op, id, amount);
      SplitLast(budget, rungs, charged, later, j);
      SplitLast(budget, rungs, before, later, j);
    }
  }

  lemma SplitLast(budget: real, rungs: seq<real>, before: seq<Op>, later: seq<Op>, j: nat)
    requires budget > 0.0 && 0 < j <= |later|
    ensures Final(budget, rungs, before + later[..j])
            == Step(Final(budget, rungs, before + later[..j - 1]), later[j - 1])
  {
    FinalSnoc(budget, rungs, before + later[..j - 1], later[j - 1]);
    assert before + later[..j] == before + later[..j - 1] + [later[j - 1]];
  }

  /** The run with the charge and, after `j` further operations, its refund ends as if neither had happened. */
  ghost predicate UndoneAfter(
    budget: real, rungs: seq<real>, before: seq<Op>, later: seq<Op>, j: nat, id: CallId, amount: real)
    requires budget > 0.0 && j <= |later|
  {
    var without := Final(budget, rungs, before + later[..j]);
    Final(budget, rungs, before + [DoCharge(id, amount)] + later[..j] + [DoRefund(id)])
    == without.(refunded := without.refunded + {id})
  }

  lemma RoomUndoes(
    budget: real, rungs: seq<real>, before: seq<Op>, later: seq<Op>, j: nat, id: CallId, amount: real)
    requires ValidConfig(budget, rungs) && Accepted(Final(budget, rungs, before), id, amount)
    requires DoRefund(id) !in later && j <= |later| && RoomThroughout(budget, rungs, before, later, j, id, amount)
    ensures UndoneAfter(budget, rungs, before, later, j, id, amount)
  {
    StaysOutstanding(budget, rungs, before, later, j, id, amount);
    var charged := before + [DoCharge(id, amount)] + later[..j];
    FinalSnoc(budget, rungs, charged, DoRefund(id));
    RefundSettles(Final(budget, rungs, charged), Final(budget, rungs, before + later[..j]), id, amount);
  }

  lemma NoRoomNotUndone(
    budget: real, rungs: seq<real>, before: seq<Op>, later: seq<Op>, j: nat, id: CallId, amount: real)
    requires ValidConfig(budget, rungs) && Accepted(Final(budget, rungs, before), id, amount)
    requires DoRefund(id) !in later && j < |later| && RoomThroughout(budget, rungs, before, later, j, id, amount)
    requires !LeavesRoom(Final(budget, rungs, before + later[..j]), later[j], id, amount)
    ensures !UndoneAfter(budget, rungs, before, later, j + 1, id, amount)
  {
    var charged := before + [DoCharge(id, amount)];
    StaysOutstanding(budget, rungs, before, later, j, id, amount);
    NoRoomNeverSettles(Final(budget, rungs, charged + later[..j]), Final(budget, rungs, before + later[..j]),
                       later[j], id, amount);
    SplitLast(budget, rungs, charged, later, j + 1);
    SplitLast(budget, rungs, before, later, j + 1);
    FinalSnoc(budget, rungs, charged + later[..j + 1], DoRefund(id));
  }

  /**
   * A later refund undoes a charge, whatever charges and refunds of other calls come between them, if
   * and only if each charge that would be let through without it still fits beside it (and does not
   * reuse its id). The condition looks at the run without the charge alone. The equivalence speaks of
   * a refund at every point, since a charge turned away in between may be made good by a retry.
   */
  lemma RefundUndoesCharge(budget: real, rungs: seq<real>, before: seq<Op>, later: seq<Op>, id: CallId, amount: real)
    requires ValidConfig(budget, rungs) && Accepted(Final(budget, rungs, before), id, amount)
    requires DoRefund(id) !in later
    ensures (forall j :: 0 <= j <= |later| ==> UndoneAfter(budget, rungs, before, later, j, id, amount))
            <==> RoomThroughout(budget, rungs, before, later, |later|, id, amount)
  {
    if RoomThroughout(budget, rungs, before, later, |later|, id, amount) {
      forall j | 0 <= j <= |later| ensures UndoneAfter(budget, rungs, before, later, j, id, amount) {
        RoomUndoes(budget, rungs, before, later, j, id, amount);
      }
    } else {
      var j := FirstWithoutRoom(budget, rungs, before, later, |later|, id, amount);
      NoRoomNotUndone(budget, rungs, before, later, j, id, amount);
    }
  }

  /** A charge that crowds another one out is not undone: with a budget of 1, 0.6 for "a" and then 0.6 for "b". */
  lemma CrowdedOutStaysOut()
    ensures ValidConfig(1.0, [0.5]) && Accepted(Final(1.0, [0.5], []), "a", 0.6)
    ensures !UndoneAfter(1.0, [0.5], [], [DoCharge("b", 0.6)], 1, "a", 0.6)
  {
    var rungs, later := [0.5], [DoCharge("b", 0.6)];
    assert [] + later[..0] == [];
    assert Final(1.0, rungs, []) == Fresh(1.0, rungs);
    NoRoomNotUndone(1.0, rungs, [], later, 0, "a", 0.6);
  }

  lemma {:induction false} FirstWithoutRoom(
    budget: real, rungs: seq<real>, before: seq<Op>, later: seq<Op>, n: nat, id: CallId, amount: real) returns (j: nat)
    requires budget > 0.0 && n <= |later| && !RoomThroughout(budget, rungs, before, later, n, id, amount)
    ensures j < n && RoomThroughout(budget, rungs, before, later, j, id, amount)
    ensures !LeavesRoom(Final(budget, rungs, before + later[..j]), later[j], id, amount)
  {
    if RoomThroughout(budget, rungs, before, later, n - 1, id, amount) {
      j := n - 1;
    } else {
      j := FirstWithoutRoom(budget, rungs, before, later, n - 1, id, amount);
    }
  }

  /**
   * A charge warns exactly when it lifts the spent fraction over a rung, and then names the highest
   * rung reached and the first one above it.
   */
  lemma WarnsOnCrossing(l: Ledger, id: CallId, amount: real)
    requires Inv(l) && Accepted(l, id, amount)
    ensures var (l', v) := Charge(l, id, amount);
            && v.Ok? && !v.value.HardStop?
            && v.value.spentAfter == l'.spent == l.spent + amount && v.value.headroom == l.budget - l'.spent
            && v.value.fraction == l'.spent / l.budget
            && (v.value.Warn? <==> exists r :: r in l.rungs && l.spent / l.budget < r <= l'.spent / l.budget)
            && (v.value.Warn? ==>
                  && v.value.rung in l.rungs && l.spent / l.budget < v.value.rung <= l'.spent / l.budget
                  && (forall r :: r in l.rungs && r <= l'.spent / l.budget ==> r <= v.value.rung)
                  && v.value.next == NextAbove(l.rungs, v.value.rung))
  {
    var f := (l.spent + amount) / l.budget;
    CrossedFacts(l.rungs, l.warned, f);
    DivMonotone(l.spent, l.spent + amount, l.budget);
    var c := Crossed(l.rungs, l.warned, f);
    if c != [] {
      assert c[|c| - 1] in c;
    }
    forall r | r in l.rungs && Fraction(l) < r <= f ensures r in c {
    }
  }

  // ---------------------------------------------------------------------------
  // Which charges of a run are let through
  // ---------------------------------------------------------------------------

  /** Operation `k` of the run is a charge of `id` that adds to the spent total. */
  predicate SpendsAt(budget: real, rungs: seq<real>, ops: seq<Op>, k: nat, id: CallId)
    requires budget > 0.0 && k < |ops|
  {
    && ops[k].DoCharge? && ops[k].id == id
    && var v := Charge(After(budget, rungs, ops, k), id, ops[k].amount).1;
       v.Ok? && !v.value.HardStop?
  }

  /** Some charge among the first `n` operations spent under `id`. */
  ghost predicate SpentBefore(budget: real, rungs: seq<real>, ops: seq<Op>, n: nat, id: CallId)
    requires budget > 0.0 && n <= |ops|
  {
    exists k :: 0 <= k < n && SpendsAt(budget, rungs, ops, k, id)
  }

  predicate Knows(l: Ledger, id: CallId) {
    id in l.committed || id in l.refunded
  }

  lemma SpentOneMore(budget: real, rungs: seq<real>, ops: seq<Op>, n: nat, id: CallId)
    requires budget > 0.0 && n < |ops|
    ensures SpentBefore(budget, rungs, ops, n + 1, id)
            <==> SpentBefore(budget, rungs, ops, n, id) || SpendsAt(budget, rungs, ops, n, id)
  {
  }

  lemma KnownOneMore(budget: real, rungs: seq<real>, ops: seq<Op>, n: nat, id: CallId)
    requires budget > 0.0 && n < |ops|
    ensures Knows(After(budget, rungs, ops, n + 1), id)
            <==> Knows(After(budget, rungs, ops, n), id) || SpendsAt(budget, rungs, ops, n, id)
  {
  }

  /** The ledger knows an id exactly when an earlier charge of the run spent under it. */
  lemma {:induction false} KnownIds(budget: real, rungs: seq<real>, ops: seq<Op>, n: nat, id: CallId)
    requires budget > 0.0 && n <= |ops|
    ensures Knows(After(budget, rungs, ops, n), id) <==> SpentBefore(budget, rungs, ops, n, id)
  {
    if n > 0 {
      KnownIds(budget, rungs, ops, n - 1, id);
      KnownOneMore(budget, rungs, ops, n - 1, id);
      SpentOneMore(budget, rungs, ops, n - 1, id);
    }
  }

  /**
   * Over any run: a charge spends exactly when it is well formed, no earlier charge of the run spent
   * under its id, refunded since or not, and it fits beside what is outstanding. In particular no id
   * spends twice. A charge that does not spend leaves the ledger as it was, and the answer says why: a
   * malformed or repeated call is refused as such, and a hard stop reports what is spent and what is left.
   */
  lemma SpendsOnceIfItFits(budget: real, rungs: seq<real>, ops: seq<Op>, n: nat)
    requires ValidConfig(budget, rungs) && n < |ops| && ops[n].DoCharge?
    ensures var l, id, amount := After(budget, rungs, ops, n), ops[n].id, ops[n].amount;
            && (SpendsAt(budget, rungs, ops, n, id) <==>
                  && id != "" && amount >= 0.0
                  && !SpentBefore(budget, rungs, ops, n, id)
                  && Total(l.committed) + amount <= budget + 0.000000000001)
            && (!SpendsAt(budget, rungs, ops, n, id) ==>
                  && After(budget, rungs, ops, n + 1) == l
                  && Charge(l, id, amount).1 ==
                     if id == "" then Err(EmptyCallId)
                     else if amount < 0.0 then Err(NegativeAmount)
                     else if SpentBefore(budget, rungs, ops, n, id) then Err(DuplicateCallId)
                     else Ok(HardStop(Total(l.committed), Total(l.committed) / budget,
                                      if Total(l.committed) >= budget then 0.0 else budget - Total(l.committed))))
  {
    ReachableInv(budget, rungs, ops, n);
    KnownIds(budget, rungs, ops, n, ops[n].id);
  }

  /** A refund re-arms exactly the rungs that the spent fraction drops below. */
  lemma RefundRearms(l: Ledger, id: CallId)
    requires Inv(l) && id in l.committed
    ensures var (l', r) := Refund(l, id);
            && r.Refunded? && r.amount == l.committed[id] && r.spentAfter == l'.spent == l.spent - l.committed[id]
            && r.fraction == l'.spent / l.budget
            && (forall x :: x in r.rearmed <==> x in l.rungs && l'.spent / l.budget < x <= l.spent / l.budget)
            && l'.warned == l.warned - r.rearmed
            && l'.committed == l.committed - {id} && l'.refunded == l.refunded + {id}
  {
    TotalRemove(l.committed, id);
    TotalNonNegative(l.committed - {id});
  }

  /** Operation `k` of the run is a refund of `id` that gave an amount back. */
  predicate RefundsAt(budget: real, rungs: seq<real>, ops: seq<Op>, k: nat, id: CallId)
    requires budget > 0.0 && k < |ops|
  {
    ops[k] == DoRefund(id) && Refund(After(budget, rungs, ops, k), id).1.Refunded?
  }

  /** Some refund among the first `n` operations gave `id` back. */
  ghost predicate ReturnedBefore(budget: real, rungs: seq<real>, ops: seq<Op>, n: nat, id: CallId)
    requires budget > 0.0 && n <= |ops|
  {
    exists k :: 0 <= k < n && RefundsAt(budget, rungs, ops, k, id)
  }

  lemma ReturnedOneMore(budget: real, rungs: seq<real>, ops: seq<Op>, n: nat, id: CallId)
    requires budget > 0.0 && n < |ops|
    ensures ReturnedBefore(budget, rungs, ops, n + 1, id)
            <==> ReturnedBefore(budget, rungs, ops, n, id) || RefundsAt(budget, rungs, ops, n, id)
    ensures id in After(budget, rungs, ops, n + 1).refunded
            <==> id in After(budget, rungs, ops, n).refunded || RefundsAt(budget, rungs, ops, n, id)
  {
  }

  lemma {:induction false} RefundedIds(budget: real, rungs: seq<real>, ops: seq<Op>, n: nat, id: CallId)
    requires budget > 0.0 && n <= |ops|
    ensures id in After(budget, rungs, ops, n).refunded <==> ReturnedBefore(budget, rungs, ops, n, id)
  {
    if n > 0 {
      RefundedIds(budget, rungs, ops, n - 1, id);
      ReturnedOneMore(budget, rungs, ops, n - 1, id);
    }
  }

  /**
   * Over any run: a refund is told that the id is unknown exactly when no earlier charge spent under it,
   * and that it was refunded already exactly when an earlier refund gave it back; in both cases the ledger
   * stays as it was. Otherwise, and so at most once for each id, it gives the amount back.
   */
  lemma RefundsOnceIfSpent(budget: real, rungs: seq<real>, ops: seq<Op>, n: nat)
    requires ValidConfig(budget, rungs) && n < |ops| && ops[n].DoRefund?
    ensures var l, id := After(budget, rungs, ops, n), ops[n].id;
            var spent := SpentBefore(budget, rungs, ops, n, id);
            var returned := ReturnedBefore(budget, rungs, ops, n, id);
            var answer := Refund(l, id).1;
            && (answer.Unknown? <==> !spent)
            && (answer.AlreadyRefunded? <==> returned)
            && (returned ==> spent && answer.spentAfter == Total(l.committed))
            && (answer.Refunded? <==> spent && !returned)
            && (!answer.Refunded? ==> After(budget, rungs, ops, n + 1) == l)
  {
    ReachableInv(budget, rungs, ops, n);
    KnownIds(budget, rungs, ops, n, ops[n].id);
    RefundedIds(budget, rungs, ops, n, ops[n].id);
  }

  lemma {:induction false} NextAboveFacts(rungs: seq<real>, r: real)
    requires Ascending(rungs)
    ensures var n := NextAbove(rungs, r);
            && (n.None? <==> forall x :: x in rungs ==> x <= r)
            && (n.Some? ==> n.value in rungs && n.value > r && forall x :: x in rungs && x > r ==> n.value <= x)
  {
    if rungs != [] {
      assert rungs == [rungs[0]] + rungs[1..] && rungs[0] in rungs;
      NextAboveFacts(rungs[1..], r);
      var n := NextAbove(rungs, r);
      if n.Some? {
        assert n.value in rungs;
      } else {
        forall x | x in rungs ensures x <= r {
          assert x == rungs[0] || x in rungs[1..];
        }
      }
    }
  }

  /** Operation `k` of the run is a charge whose verdict warns of rung `r`. */
  predicate WarnsAt(budget: real, rungs: seq<real>, ops: seq<Op>, k: nat, r: real)
    requires budget > 0.0 && k < |ops|
  {
    && ops[k].DoCharge?
    && var v := Charge(After(budget, rungs, ops, k), ops[k].id, ops[k].amount).1;
       v.Ok? && v.value.Warn? && v.value.rung == r
  }

  /** Operation `k` is a refund after which the spent fraction is below `r`. */
  predicate RefundsBelow(budget: real, rungs: seq<real>, ops: seq<Op>, k: nat, r: real)
    requires budget > 0.0 && k < |ops|
  {
    && ops[k].DoRefund?
    && Refund(After(budget, rungs, ops, k), ops[k].id).1.Refunded?
    && After(budget, rungs, ops, k + 1).spent / budget < r
  }

  lemma {:induction false} UnwarnedNeedsRefund(
    budget: real, rungs: seq<real>, ops: seq<Op>, i: nat, j: nat, r: real) returns (k: nat)
    requires ValidConfig(budget, rungs) && i <= j <= |ops|
    requires r in After(budget, rungs, ops, i).warned && r !in After(budget, rungs, ops, j).warned
    ensures i <= k < j && RefundsBelow(budget, rungs, ops, k, r)
    decreases j - i
  {
    if r in After(budget, rungs, ops, j - 1).warned {
      k := j - 1;
    } else {
      k := UnwarnedNeedsRefund(budget, rungs, ops, i, j - 1, r);
    }
  }

  /** Two warnings that name the same rung have a refund to below that rung between them. */
  lemma RewarnNeedsRefund(budget: real, rungs: seq<real>, ops: seq<Op>, i: nat, j: nat, r: real)
    requires ValidConfig(budget, rungs) && i < j < |ops|
    requires WarnsAt(budget, rungs, ops, i, r) && WarnsAt(budget, rungs, ops, j, r)
    ensures exists k :: i < k < j && RefundsBelow(budget, rungs, ops, k, r)
  {
    ReachableInv(budget, rungs, ops, i);
    ReachableInv(budget, rungs, ops, j);
    NamedRungIsNew(After(budget, rungs, ops, i), ops[i].id, ops[i].amount);
    NamedRungIsNew(After(budget, rungs, ops, j), ops[j].id, ops[j].amount);
    var k := UnwarnedNeedsRefund(budget, rungs, ops, i + 1, j, r);
  }

  lemma SixtyPercentWarns(l: Ledger, id: CallId)
    requires l.budget == 1.0 && l.rungs == [0.6] && l.spent == 0.0 && l.warned == {}
    requires id != "" && id !in l.committed && id !in l.refunded
    ensures var (l', v) := Charge(l, id, 0.6);
            && l'.spent == 0.6 && l'.committed == l.committed[id := 0.6] && l'.warned == {0.6}
            && l'.refunded == l.refunded && l'.budget == 1.0 && l'.rungs == [0.6]
            && v.Ok? && v.value.Warn? && v.value.rung == 0.6
  {
    OneRungCrossed(0.6, (l.spent + 0.6) / l.budget);
    assert Below([0.6], 0.6) == {0.6};
  }

  lemma OneRungCrossed(r: real, f: real)
    requires f >= r
    ensures Crossed([r], {}, f) == [r]
  {
    var rungs := [r];
    assert rungs[..|rungs| - 1] == [];
    assert Crossed([], {}, f) == [];
  }

  lemma FullRefundRearms(l: Ledger, id: CallId)
    requires l.budget == 1.0 && l.spent == 0.6 && l.warned == {0.6} && l.committed == map[id := 0.6]
              && id !in l.refunded
    ensures var (l', v) := Refund(l, id);
            && l'.spent == 0.0 && l'.committed == map[] && l'.refunded == l.refunded + {id} && l'.warned == {}
            && l'.budget == 1.0 && l'.rungs == l.rungs && v.Refunded?
  {
    assert l.committed - {id} == map[];
  }

  /** The same rung is warned about twice when a refund re-arms it: by the first and the third operation here. */
  lemma SameRungWarnsTwice()
    ensures var ops := [DoCharge("a", 0.6), DoRefund("a"), DoCharge("b", 0.6)];
            && ValidConfig(1.0, [0.6])
            && WarnsAt(1.0, [0.6], ops, 0, 0.6) && RefundsBelow(1.0, [0.6], ops, 1, 0.6)
            && WarnsAt(1.0, [0.6], ops, 2, 0.6)
  {
    var rungs, ops := [0.6], [DoCharge("a", 0.6), DoRefund("a"), DoCharge("b", 0.6)];
    SixtyPercentWarns(After(1.0, rungs, ops, 0), "a");
    assert After(1.0, rungs, ops, 1) == Charge(After(1.0, rungs, ops, 0), "a", 0.6).0;
    FullRefundRearms(After(1.0, rungs, ops, 1), "a");
    assert After(1.0, rungs, ops, 2) == Refund(After(1.0, rungs, ops, 1), "a").0;
    SixtyPercentWarns(After(1.0, rungs, ops, 2), "b");
  }

  lemma NamedRungIsNew(l: Ledger, id: CallId, amount: real)
    requires Inv(l) && Charge(l, id, amount).1.Ok? && Charge(l, id, amount).1.value.Warn?
    ensures Charge(l, id, amount).1.value.rung !in l.warned
    ensures Charge(l, id, amount).1.value.rung in Charge(l, id, amount).0.warned
  {
    CrossedFacts(l.rungs, l.warned, (l.spent + amount) / l.budget);
    var c := Crossed(l.rungs, l.warned, (l.spent + amount) / l.budget);
    assert c[|c| - 1] in c;
  }

  // ---------------------------------------------------------------------------
  // The object
  // ---------------------------------------------------------------------------

  /** The checks made when a ledger is constructed. */
  method CheckConfig(budget: real, rungs: seq<real>) returns (r: Option<ConfigError>)
    ensures r.None? <==> ValidConfig(budget, rungs)
    ensures r == Some(BudgetNotPositive) <==> budget <= 0.0
    ensures r == Some(NoRungs) <==> budget > 0.0 && rungs == []
    ensures r == Some(RungsNotAscending) <==> budget > 0.0 && rungs != [] && !Ascending(rungs)
  {
    if budget <= 0.0 {
      return Some(BudgetNotPositive);
    }
    if rungs == [] {
      return Some(NoRungs);
    }
    for i := 1 to |rungs|
      invariant forall a, b :: 0 <= a < b < i ==> rungs[a] <= rungs[b]
    {
      if rungs[i - 1] > rungs[i] {
        return Some(RungsNotAscending);
      }
    }
    if rungs[0] <= 0.0 || rungs[|rungs| - 1] >= 1.0 {
      return Some(RungOutOfRange);
    }
    return None;
  }

  class Book {
    const budget: real
    const rungs: seq<real>
    var spent: real
    var warned: set<real>
    var committed: map<CallId, real>
    var refunded: set<CallId>

    ghost function Model(): Ledger
      reads this
    {
      Ledger(budget, rungs, spent, warned, committed, refunded)
    }

    ghost predicate Valid()
      reads this
    {
      Inv(Model())
    }

    constructor (budget: real, rungs: seq<real>)
      requires ValidConfig(budget, rungs)
      ensures Valid() && Model() == Fresh(budget, rungs)
    {
      this.budget, this.rungs := budget, rungs;
      spent, warned, committed, refunded := 0.0, {}, map[], {};
      new;
      ReachableInv(budget, rungs, [], 0);
    }

    /** Marks every rung at or below `rung` as warned. */
    method MarkWarned(rung: real)
      modifies this`warned
      ensures warned == old(warned) + Below(rungs, rung)
    {
      for i := 0 to |rungs|
        invariant warned == old(warned) + Below(rungs[..i], rung)
      {
        assert rungs[..i + 1] == rungs[..i] + [rungs[i]];
        if rungs[i] <= rung {
          warned := warned + {rungs[i]};
        }
      }
      assert rungs[..|rungs|] == rungs;
    }

    method Spend(id: CallId, amount: real) returns (r: Result<Verdict, ChargeError>)
      requires Valid()
      modifies this
      ensures (Model(), r) == Charge(old(Model()), id, amount)
      ensures Valid()
    {
      ChargeKeepsInv(Model(), id, amount);
      if id == "" {
        return Err(EmptyCallId);
      }
      if amount < 0.0 {
        return Err(NegativeAmount);
      }
      if id in committed || id in refunded {
        return Err(DuplicateCallId);
      }
      var projected := spent + amount;
      if projected > budget + TOLERANCE {
        return Ok(HardStop(spent, spent / budget, Max(0.0, budget - spent)));
      }
      spent := projected;
      committed := committed[id := amount];
      var fraction := spent / budget;
      var crossed := Crossed(rungs, warned, fraction);
      if crossed == [] {
        return Ok(Fine(spent, fraction, budget - spent));
      }
      var rung := crossed[|crossed| - 1];
      MarkWarned(rung);
      return Ok(Warn(spent, fraction, budget - spent, rung, NextAbove(rungs, rung)));
    }

    method GiveBack(id: CallId) returns (r: RefundStatus)
      requires Valid()
      modifies this
      ensures (Model(), r) == Refund(old(Model()), id)
      ensures Valid()
    {
      RefundKeepsInv(Model(), id);
      if id in refunded {
        return AlreadyRefunded(spent);
      }
      if id !in committed {
        return Unknown;
      }
      var amount := committed[id];
      committed := committed - {id};
      refunded := refunded + {id};
      spent := Max(0.0, spent - amount);
      var fraction := spent / budget;
      var rearmed := set x | x in warned && fraction < x;
      warned := warned - rearmed;
      return Refunded(amount, spent, fraction, rearmed);
    }
  }
}
