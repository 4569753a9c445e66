/**
 * Model of the conversation turn pruner: head and tail bands, the elision marker, and the two
 * ceilings that drop oldest eligible turns.
 */
module TurnPruner {
  import opened Common
  import opened OldestFirst

  datatype Turn = Turn(role: string, content: string, pinned: bool, tokens: Option<int>)

  /** `count` is the token counter in effect, the caller's or the default one. */
  datatype Policy = Policy(
    keepFirst: int, keepLast: int, maxTurns: Option<int>, maxTokens: Option<int>,
    count: Turn -> int, marker: Option<string>)

  datatype PruneResult = PruneResult(
    kept: seq<Turn>, dropped: seq<Turn>, markerInserted: bool, keptTokens: int, droppedTokens: int)

  datatype PolicyError = NegativeBand | NegativeMaxTurns | NegativeMaxTokens

  type Test = Turn -> bool

  // ---------------------------------------------------------------------------
  // Which turns may go
  // ---------------------------------------------------------------------------

  function IsSystem(): Test {
    (t: Turn) => t.role == "system"
  }

  function IsConvo(): Test {
    (t: Turn) => t.role != "system"
  }

  function IsPinned(): Test {
    (t: Turn) => t.pinned
  }

  function IsUnpinned(): Test {
    (t: Turn) => !t.pinned
  }

  /** Turns the turn ceiling may drop. */
  function Droppable(): Test {
    (t: Turn) => !t.pinned && t.role != "system"
  }

  /** Turns the token ceiling may drop: a turn whose content is the marker text is spared as well. */
  function Expendable(marker: Option<string>): Test {
    (t: Turn) => !t.pinned && t.role != "system" && !(marker.Some? && t.content == marker.value)
  }

  // ---------------------------------------------------------------------------
  // Bands and marker
  // ---------------------------------------------------------------------------

  function Min(x: int, y: int): int {
    if x <= y then x else y
  }

  function HeadSize(policy: Policy, n: nat): nat
    requires policy.keepFirst >= 0
  {
    Min(policy.keepFirst, n)
  }

  function TailSize(policy: Policy, n: nat): (k: nat)
    requires policy.keepFirst >= 0 && policy.keepLast >= 0
    ensures HeadSize(policy, n) + k <= n
  {
    Min(policy.keepLast, n - HeadSize(policy, n))
  }

  /** What the bands keep of the conversation: head, pinned middle turns, tail. */
  function Banded(policy: Policy, convo: seq<Turn>): seq<Turn>
    requires policy.keepFirst >= 0 && policy.keepLast >= 0
  {
    var n := |convo|;
    var h, t := HeadSize(policy, n), TailSize(policy, n);
    if h + t >= n then convo
    else convo[..h] + Filter(convo[h..n - t], IsPinned()) + convo[n - t..]
  }

  function MiddleDropped(policy: Policy, convo: seq<Turn>): seq<Turn>
    requires policy.keepFirst >= 0 && policy.keepLast >= 0
  {
    var n := |convo|;
    var h, t := HeadSize(policy, n), TailSize(policy, n);
    if h + t >= n then [] else Filter(convo[h..n - t], IsUnpinned())
  }

  predicate MarkerDue(policy: Policy, convo: seq<Turn>)
    requires policy.keepFirst >= 0 && policy.keepLast >= 0
  {
    MiddleDropped(policy, convo) != [] && policy.marker.Some? && policy.marker.value != ""
  }

  function MarkerTurn(text: string): Turn {
    Turn("system", text, false, None)
  }

  /** Where the marker goes: after the head and as many turns as are pinned beyond it. */
  function SplitAt(policy: Policy, convo: seq<Turn>): nat
    requires policy.keepFirst >= 0 && policy.keepLast >= 0
  {
    var h := HeadSize(policy, |convo|);
    h + |Filter(if h <= |Banded(policy, convo)| then Banded(policy, convo)[h..] else [], IsPinned())|
  }

  lemma SplitInRange(policy: Policy, convo: seq<Turn>)
    requires policy.keepFirst >= 0 && policy.keepLast >= 0
    ensures HeadSize(policy, |convo|) <= |Banded(policy, convo)| && SplitAt(policy, convo) <= |Banded(policy, convo)|
  {
    FilterShorter(Banded(policy, convo)[HeadSize(policy, |convo|)..], IsPinned());
  }

  function Marked(policy: Policy, convo: seq<Turn>): seq<Turn>
    requires policy.keepFirst >= 0 && policy.keepLast >= 0
  {
    SplitInRange(policy, convo);
    var b, k := Banded(policy, convo), SplitAt(policy, convo);
    if MarkerDue(policy, convo) then b[..k] + [MarkerTurn(policy.marker.value)] + b[k..] else b
  }

  /** The marker stands directly before the tail exactly when no tail turn is pinned. */
  lemma MarkerBeforeTail(policy: Policy, convo: seq<Turn>)
    requires policy.keepFirst >= 0 && policy.keepLast >= 0 && MarkerDue(policy, convo)
    ensures var n, t := |convo|, TailSize(policy, |convo|);
            SplitAt(policy, convo) == |Banded(policy, convo)| - t <==> forall x :: x in convo[n - t..] ==> !x.pinned
  {
    var n := |convo|;
    var h, t := HeadSize(policy, n), TailSize(policy, n);
    var middle, tail := Filter(convo[h..n - t], IsPinned()), convo[n - t..];
    assert Banded(policy, convo)[h..] == middle + tail;
    FilterConcat(middle, tail, IsPinned());
    forall x | x in middle ensures x.pinned {
      FilterMember(convo[h..n - t], IsPinned(), x);
    }
    FilterAll(middle, IsPinned());
    NoneFiltered(tail, IsPinned());
  }

  lemma MiddleSplits(head: seq<Turn>, middle: seq<Turn>, tail: seq<Turn>)
    ensures multiset(head + Filter(middle, IsPinned()) + tail) + multiset(Filter(middle, IsUnpinned()))
            == multiset(head + middle + tail)
  {
    FilterSplits(middle, IsPinned(), IsUnpinned());
  }

  lemma MiddleThins(head: seq<Turn>, middle: seq<Turn>, tail: seq<Turn>)
    ensures Sub(head + Filter(middle, IsPinned()) + tail, head + middle + tail)
  {
    SubRefl(head);
    SubRefl(tail);
    FilterSub(middle, IsPinned());
    SubConcat(head, Filter(middle, IsPinned()), head, middle);
    SubConcat(head + Filter(middle, IsPinned()), tail, head + middle, tail);
  }

  /** The bands conserve turns and drop only unpinned ones. */
  lemma BandsConserve(policy: Policy, convo: seq<Turn>)
    requires policy.keepFirst >= 0 && policy.keepLast >= 0
    ensures multiset(Banded(policy, convo)) + multiset(MiddleDropped(policy, convo)) == multiset(convo)
    ensures forall t :: t in MiddleDropped(policy, convo) ==> t in convo && !t.pinned
    ensures Sub(Banded(policy, convo), convo)
  {
    var n := |convo|;
    var h, t := HeadSize(policy, n), TailSize(policy, n);
    if h + t >= n {
      SubRefl(convo);
    } else {
      var head, middle, tail := convo[..h], convo[h..n - t], convo[n - t..];
      assert convo == head + middle + tail;
      MiddleSplits(head, middle, tail);
      MiddleThins(head, middle, tail);
      forall x | x in Filter(middle, IsUnpinned()) ensures x in convo && !x.pinned {
        FilterMember(middle, IsUnpinned(), x);
      }
    }
  }

  // ---------------------------------------------------------------------------
  // The turn ceiling
  // ---------------------------------------------------------------------------

  /** Positions of the turns that satisfy `p`, counted from `off`. */
  function Positions(s: seq<Turn>, p: Test, off: nat): (ix: seq<nat>)
    ensures |ix| == |Filter(s, p)|
    ensures forall i :: 0 <= i < |ix| ==> off <= ix[i] < off + |s| && p(s[ix[i] - off])
    ensures forall i, j :: 0 <= i < j < |ix| ==> ix[i] < ix[j]
  {
    if s == [] then []
    else if p(s[0]) then [off] + Positions(s[1..], p, off + 1)
    else Positions(s[1..], p, off + 1)
  }

  function DeleteAt(s: seq<Turn>, i: nat): seq<Turn> {
    if i < |s| then s[..i] + s[i + 1..] else s
  }

  /** Deletion at positions `n..`, from the last down. */
  function DeleteDown(s: seq<Turn>, ix: seq<nat>, n: nat): seq<Turn>
    requires n <= |ix|
    decreases |ix| - n
  {
    if n == |ix| then s else DeleteAt(DeleteDown(s, ix, n + 1), ix[n])
  }

  lemma {:induction false} DeleteDownRest(s: seq<Turn>, x: nat, ix: seq<nat>, n: nat)
    requires n <= |ix|
    ensures DeleteDown(s, [x] + ix, n + 1) == DeleteDown(s, ix, n)
    decreases |ix| - n
  {
    if n < |ix| {
      DeleteDownRest(s, x, ix, n + 1);
      assert ([x] + ix)[n + 1] == ix[n];
    }
  }

  /** Deleting the first `k` eligible positions from the right drops the `k` oldest eligible turns. */
  lemma {:induction false} DeleteDownDrops(pre: seq<Turn>, rest: seq<Turn>, p: Test, k: nat)
    requires k <= |Filter(rest, p)|
    ensures DeleteDown(pre + rest, Positions(rest, p, |pre|)[..k], 0) == pre + DropOldest(rest, p, k)
    decreases |rest|
  {
    if rest != [] && k > 0 {
      var pre' := pre + [rest[0]];
      assert pre + rest == pre' + rest[1..];
      if p(rest[0]) {
        var ix := Positions(rest[1..], p, |pre'|)[..k - 1];
        DeleteDownDrops(pre', rest[1..], p, k - 1);
        assert Positions(rest, p, |pre|)[..k] == [|pre|] + ix;
        DeleteDownRest(pre + rest, |pre|, ix, 0);
        var left := pre' + DropOldest(rest[1..], p, k - 1);
        assert left[..|pre|] == pre && left[|pre| + 1..] == DropOldest(rest[1..], p, k - 1);
      } else {
        DeleteDownDrops(pre', rest[1..], p, k);
      }
    }
  }

  lemma {:induction false} DeleteDownPrefix(s: seq<Turn>, ix: seq<nat>, n: nat, i: nat)
    requires n <= |ix| && i < |s|
    requires forall a :: n <= a < |ix| ==> i < ix[a] < |s|
    requires forall a, b :: n <= a < b < |ix| ==> ix[a] < ix[b]
    ensures i < |DeleteDown(s, ix, n)| && DeleteDown(s, ix, n)[i] == s[i]
    decreases |ix| - n
  {
    if n < |ix| {
      DeleteDownPrefix(s, ix, n + 1, i);
    }
  }

  /** The turns at positions `n..`, from the last position down. */
  function PickDown(s: seq<Turn>, ix: seq<nat>, n: nat): seq<Turn>
    requires n <= |ix| && forall a :: 0 <= a < |ix| ==> ix[a] < |s|
    decreases |ix| - n
  {
    if n == |ix| then [] else PickDown(s, ix, n + 1) + [s[ix[n]]]
  }

  function Backwards(s: seq<Turn>): seq<Turn> {
    if s == [] then [] else Backwards(s[1..]) + [s[0]]
  }

  lemma {:induction false} BackwardsSame(s: seq<Turn>)
    ensures multiset(Backwards(s)) == multiset(s)
  {
    if s != [] {
      BackwardsSame(s[1..]);
      assert s == [s[0]] + s[1..];
    }
  }

  lemma {:induction false} PickDownRest(s: seq<Turn>, x: nat, ix: seq<nat>, n: nat)
    requires n <= |ix| && x < |s| && forall a :: 0 <= a < |ix| ==> ix[a] < |s|
    ensures PickDown(s, [x] + ix, n + 1) == PickDown(s, ix, n)
    decreases |ix| - n
  {
    if n < |ix| {
      PickDownRest(s, x, ix, n + 1);
      assert ([x] + ix)[n + 1] == ix[n];
    }
  }

  /** Picking the first `k` eligible positions from the right gives the `k` oldest eligible turns backwards. */
  lemma {:induction false} PickDownOldest(pre: seq<Turn>, rest: seq<Turn>, p: Test, k: nat)
    requires k <= |Filter(rest, p)|
    ensures PickDown(pre + rest, Positions(rest, p, |pre|)[..k], 0) == Backwards(Oldest(rest, p, k))
    decreases |rest|
  {
    if rest != [] && k > 0 {
      var pre' := pre + [rest[0]];
      assert pre + rest == pre' + rest[1..];
      if p(rest[0]) {
        var ix := Positions(rest[1..], p, |pre'|)[..k - 1];
        PickDownOldest(pre', rest[1..], p, k - 1);
        assert Positions(rest, p, |pre|)[..k] == [|pre|] + ix;
        PickDownRest(pre + rest, |pre|, ix, 0);
      } else {
        PickDownOldest(pre', rest[1..], p, k);
      }
    }
  }

  /** How many turns the ceiling asks to drop, capped by how many may be dropped. */
  function TurnExcess(system: seq<Turn>, convo: seq<Turn>, max: Option<int>): nat {
    if max.Some? && |system| + |convo| > max.value
    then Min(|system| + |convo| - max.value, |Filter(convo, Droppable())|)
    else 0
  }

  /** The next position to delete still holds the turn it held at the start. */
  lemma DeleteNext(convo: seq<Turn>, toDrop: seq<nat>, n: nat, kept: seq<Turn>)
    requires 0 < n <= |toDrop| && kept == DeleteDown(convo, toDrop, n)
    requires forall a :: 0 <= a < |toDrop| ==> toDrop[a] < |convo|
    requires forall a, b :: 0 <= a < b < |toDrop| ==> toDrop[a] < toDrop[b]
    ensures var i := toDrop[n - 1];
            && i < |kept| && kept[i] == convo[i]
            && kept[..i] + kept[i + 1..] == DeleteDown(convo, toDrop, n - 1)
  {
    DeleteDownPrefix(convo, toDrop, n, toDrop[n - 1]);
  }

  /** The deletion loop, highest position first. */
  method DeletePositions(convo: seq<Turn>, toDrop: seq<nat>) returns (kept: seq<Turn>, dropped: seq<Turn>)
    requires forall a :: 0 <= a < |toDrop| ==> toDrop[a] < |convo|
    requires forall a, b :: 0 <= a < b < |toDrop| ==> toDrop[a] < toDrop[b]
    ensures kept == DeleteDown(convo, toDrop, 0) && dropped == PickDown(convo, toDrop, 0)
  {
    kept, dropped := convo, [];
    var n := |toDrop|;
    while n > 0
      invariant 0 <= n <= |toDrop|
      invariant kept == DeleteDown(convo, toDrop, n) && dropped == PickDown(convo, toDrop, n)
    {
      var i := toDrop[n - 1];
      DeleteNext(convo, toDrop, n, kept);
      dropped := dropped + [kept[i]];
      kept := kept[..i] + kept[i + 1..];
      n := n - 1;
    }
  }

  lemma OldestGone(convo: seq<Turn>, k: nat)
    ensures var kept, dropped := DropOldest(convo, Droppable(), k), Backwards(Oldest(convo, Droppable(), k));
            multiset(kept) + multiset(dropped) == multiset(convo) && forall t :: t in dropped ==> Droppable()(t)
  {
    var dropped := Backwards(Oldest(convo, Droppable(), k));
    DropConserves(convo, Droppable(), k);
    BackwardsSame(Oldest(convo, Droppable(), k));
    OldestAllowed(convo, Droppable(), k);
    forall t | t in dropped ensures Droppable()(t) {
      assert t in multiset(dropped);
    }
  }

  method TurnCeiling(system: seq<Turn>, convo: seq<Turn>, max: Option<int>)
    returns (kept: seq<Turn>, dropped: seq<Turn>)
    requires max.Some? ==> max.value >= 0
    ensures kept == DropOldest(convo, Droppable(), TurnExcess(system, convo, max))
    ensures dropped == Backwards(Oldest(convo, Droppable(), TurnExcess(system, convo, max)))
    ensures multiset(kept) + multiset(dropped) == multiset(convo)
    ensures forall t :: t in dropped ==> Droppable()(t)
  {
    kept, dropped := convo, [];
    if max.Some? && |system| + |convo| > max.value {
      var excess := |system| + |convo| - max.value;
      var eligible := Positions(convo, Droppable(), 0);
      var toDrop := if excess <= |eligible| then eligible[..excess] else eligible;
      assert toDrop == eligible[..TurnExcess(system, convo, max)];
      kept, dropped := DeletePositions(convo, toDrop);
      assert [] + convo == convo && [] + kept == kept;
      DeleteDownDrops([], convo, Droppable(), TurnExcess(system, convo, max));
      PickDownOldest([], convo, Droppable(), TurnExcess(system, convo, max));
    }
    OldestGone(convo, TurnExcess(system, convo, max));
  }

  // ---------------------------------------------------------------------------
  // The token ceiling
  // ---------------------------------------------------------------------------

  /** Tokens of the whole list when `system` stands before the conversation part. */
  function Load(system: seq<Turn>, count: Turn -> int): seq<Turn> -> int {
    (convo: seq<Turn>) => Tokens(system + convo, count)
  }

  method TokenCeiling(system: seq<Turn>, convo: seq<Turn>, policy: Policy, cap: int)
    returns (kept: seq<Turn>, dropped: seq<Turn>, ghost k: nat)
    ensures Shortest(convo, Expendable(policy.marker), Load(system, policy.count), cap, k)
    ensures kept == DropOldest(convo, Expendable(policy.marker), k)
              && dropped == Oldest(convo, Expendable(policy.marker), k)
  {
    ghost var p := Expendable(policy.marker);
    kept, dropped, k := convo, [], 0;
    while Load(system, policy.count)(kept) > cap
      invariant k <= |Filter(convo, p)|
      invariant kept == DropOldest(convo, p, k) && dropped == Oldest(convo, p, k)
      invariant forall j :: 0 <= j < k ==> Load(system, policy.count)(DropOldest(convo, p, j)) > cap
      decreases |kept|
    {
      var target := FindExpendable(kept, policy.marker);
      if target.None? {
        NoneLeft(convo, p, k);
        break;
      }
      var i := target.value;
      NextDrop(convo, p, k, i);
      dropped := dropped + [kept[i]];
      kept := kept[..i] + kept[i + 1..];
      k := k + 1;
    }
  }

  /** The oldest turn the token ceiling may drop. */
  method FindExpendable(kept: seq<Turn>, marker: Option<string>) returns (target: Option<nat>)
    ensures target.None? ==> forall t :: t in kept ==> !Expendable(marker)(t)
    ensures target.Some? ==>
              && target.value < |kept| && Expendable(marker)(kept[target.value])
              && forall j :: 0 <= j < target.value ==> !Expendable(marker)(kept[j])
  {
    for i := 0 to |kept|
      invariant forall j :: 0 <= j < i ==> !Expendable(marker)(kept[j])
    {
      var t := kept[i];
      if t.pinned || t.role == "system" {
        continue;
      }
      if marker.Some? && t.content == marker.value {
        continue;
      }
      return Some(i);
    }
    return None;
  }

  // ---------------------------------------------------------------------------
  // The whole pruner
  // ---------------------------------------------------------------------------

  function CheckPolicy(policy: Policy): Option<PolicyError> {
    if policy.keepFirst < 0 || policy.keepLast < 0 then Some(NegativeBand)
    else if policy.maxTurns.Some? && policy.maxTurns.value < 0 then Some(NegativeMaxTurns)
    else if policy.maxTokens.Some? && policy.maxTokens.value < 0 then Some(NegativeMaxTokens)
    else None
  }

  /** The conversation after the bands, the marker and the turn ceiling. */
  function Capped(policy: Policy, turns: seq<Turn>): seq<Turn>
    requires policy.keepFirst >= 0 && policy.keepLast >= 0
  {
    var system, marked := Filter(turns, IsSystem()), Marked(policy, Filter(turns, IsConvo()));
    DropOldest(marked, Droppable(), TurnExcess(system, marked, policy.maxTurns))
  }

  /** What the turn ceiling drops, oldest first. */
  function OverCeiling(policy: Policy, turns: seq<Turn>): seq<Turn>
    requires policy.keepFirst >= 0 && policy.keepLast >= 0
  {
    var system, marked := Filter(turns, IsSystem()), Marked(policy, Filter(turns, IsConvo()));
    Oldest(marked, Droppable(), TurnExcess(system, marked, policy.maxTurns))
  }

  /** How a result relates to the input: the token ceiling dropped the shortest run that could do. */
  ghost predicate Explains(policy: Policy, turns: seq<Turn>, r: PruneResult, k: nat)
    requires policy.keepFirst >= 0 && policy.keepLast >= 0
  {
    var system, p := Filter(turns, IsSystem()), Expendable(policy.marker);
    && r.kept == system + DropOldest(Capped(policy, turns), p, k)
    && r.dropped == MiddleDropped(policy, Filter(turns, IsConvo())) + Backwards(OverCeiling(policy, turns))
                    + Oldest(Capped(policy, turns), p, k)
    && (policy.maxTokens.None? ==> k == 0)
    && (policy.maxTokens.Some? ==>
          Shortest(Capped(policy, turns), p, Load(system, policy.count), policy.maxTokens.value, k))
  }

  function Inserted(policy: Policy, turns: seq<Turn>): seq<Turn>
    requires policy.keepFirst >= 0 && policy.keepLast >= 0
  {
    if MarkerDue(policy, Filter(turns, IsConvo())) then [MarkerTurn(policy.marker.value)] else []
  }

  lemma MarkedConserves(policy: Policy, turns: seq<Turn>)
    requires policy.keepFirst >= 0 && policy.keepLast >= 0
    ensures var convo := Filter(turns, IsConvo());
            multiset(Marked(policy, convo)) + multiset(MiddleDropped(policy, convo))
            == multiset(convo) + multiset(Inserted(policy, turns))
  {
    var convo := Filter(turns, IsConvo());
    BandsConserve(policy, convo);
    SplitInRange(policy, convo);
    if MarkerDue(policy, convo) {
      var b, k, m := Banded(policy, convo), SplitAt(policy, convo), MarkerTurn(policy.marker.value);
      InsertConserves(b, k, m);
      assert Marked(policy, convo) == b[..k] + [m] + b[k..];
    }
  }

  /** Turns are conserved across the three places that drop some. */
  lemma PiecesConserve(
    turns: seq<Turn>, inserted: seq<Turn>, system: seq<Turn>, convo: seq<Turn>, marked: seq<Turn>,
    middle: seq<Turn>, capped: seq<Turn>, over: seq<Turn>, rest: seq<Turn>, further: seq<Turn>)
    requires multiset(system) + multiset(convo) == multiset(turns)
    requires multiset(marked) + multiset(middle) == multiset(convo) + multiset(inserted)
    requires multiset(capped) + multiset(over) == multiset(marked)
    requires multiset(rest) + multiset(further) == multiset(capped)
    ensures multiset(system + rest) + multiset(middle + over + further) == multiset(turns) + multiset(inserted)
  {
    calc {
      multiset(turns) + multiset(inserted);
      multiset(system) + (multiset(convo) + multiset(inserted));
      multiset(system) + (multiset(marked) + multiset(middle));
      multiset(system) + ((multiset(rest) + multiset(further)) + multiset(over)) + multiset(middle);
      multiset(system + rest) + multiset(middle + over + further);
    }
  }

  method Prune(turns: seq<Turn>, policy: Policy) returns (r: Result<PruneResult, PolicyError>)
    ensures r.Ok? <==> && policy.keepFirst >= 0 && policy.keepLast >= 0
                       && (policy.maxTurns.Some? ==> policy.maxTurns.value >= 0)
                       && (policy.maxTokens.Some? ==> policy.maxTokens.value >= 0)
    ensures r == Err(NegativeBand) <==> policy.keepFirst < 0 || policy.keepLast < 0
    ensures r == Err(NegativeMaxTurns) ==> policy.maxTurns.Some? && policy.maxTurns.value < 0
    ensures r == Err(NegativeMaxTokens) ==> policy.maxTurns.Some? ==> policy.maxTurns.value >= 0
    ensures r.Ok? ==>
              && multiset(r.value.kept) + multiset(r.value.dropped)
                  == multiset(turns) + multiset(Inserted(policy, turns))
              && (forall t :: t in r.value.dropped ==> Droppable()(t))
              && (r.value.markerInserted <==> Inserted(policy, turns) != [])
              && (exists k: nat :: Explains(policy, turns, r.value, k))
              && r.value.keptTokens == Tokens(r.value.kept, policy.count)
              && r.value.droppedTokens == Tokens(r.value.dropped, policy.count)
  {
    var problem := CheckPolicy(policy);
    if problem.Some? {
      return Err(problem.value);
    }
    var system, convo := Filter(turns, IsSystem()), Filter(turns, IsConvo());
    FilterSplits(turns, IsSystem(), IsConvo());
    MarkedConserves(policy, turns);
    MiddleIsDroppable(policy, turns);
    var middle, marked := MiddleDropped(policy, convo), Marked(policy, convo);
    var capped, over := TurnCeiling(system, marked, policy.maxTurns);
    var rest, further, k := TokenStage(system, capped, policy);
    var kept, dropped := system + rest, middle + over + further;
    PiecesConserve(turns, Inserted(policy, turns), system, convo, marked, middle, capped, over, rest, further);
    var keptTokens, droppedTokens := Tokens(kept, policy.count), Tokens(dropped, policy.count);
    r := Ok(PruneResult(kept, dropped, MarkerDue(policy, convo), keptTokens, droppedTokens));
    assert Explains(policy, turns, r.value, k);
  }

  lemma MiddleIsDroppable(policy: Policy, turns: seq<Turn>)
    requires policy.keepFirst >= 0 && policy.keepLast >= 0
    ensures forall t :: t in MiddleDropped(policy, Filter(turns, IsConvo())) ==> Droppable()(t)
  {
    var convo := Filter(turns, IsConvo());
    BandsConserve(policy, convo);
    forall t | t in MiddleDropped(policy, convo) ensures Droppable()(t) {
      FilterMember(turns, IsConvo(), t);
    }
  }

  /** The token ceiling, when the policy sets one. */
  method TokenStage(system: seq<Turn>, capped: seq<Turn>, policy: Policy)
    returns (rest: seq<Turn>, further: seq<Turn>, ghost k: nat)
    ensures rest == DropOldest(capped, Expendable(policy.marker), k)
    ensures further == Oldest(capped, Expendable(policy.marker), k)
    ensures policy.maxTokens.None? ==> k == 0
    ensures policy.maxTokens.Some? ==>
              Shortest(capped, Expendable(policy.marker), Load(system, policy.count), policy.maxTokens.value, k)
    ensures multiset(rest) + multiset(further) == multiset(capped)
    ensures forall t :: t in further ==> Droppable()(t)
  {
    rest, further, k := capped, [], 0;
    if policy.maxTokens.Some? {
      rest, further, k := TokenCeiling(system, capped, policy, policy.maxTokens.value);
      DropConserves(capped, Expendable(policy.marker), k);
      OldestAllowed(capped, Expendable(policy.marker), k);
    }
  }

  // ---------------------------------------------------------------------------
  // What survives, and in what order
  // ---------------------------------------------------------------------------

  lemma BandedIsConvo(policy: Policy, turns: seq<Turn>, t: Turn)
    requires policy.keepFirst >= 0 && policy.keepLast >= 0 && t in Banded(policy, Filter(turns, IsConvo()))
    ensures t.role != "system"
  {
    var convo := Filter(turns, IsConvo());
    BandsConserve(policy, convo);
    SubMember(Banded(policy, convo), convo, t);
    FilterMember(turns, IsConvo(), t);
  }

  lemma ConvoFiltered(b: seq<Turn>)
    requires forall t :: t in b ==> t.role != "system"
    ensures Filter(b, IsConvo()) == b && Filter(b, IsSystem()) == []
  {
    FilterAll(b, IsConvo());
    NoneFiltered(b, IsSystem());
  }

  lemma MarkerFiltered(b: seq<Turn>, k: nat, m: Turn)
    requires k <= |b| && m.role == "system" && forall t :: t in b ==> t.role != "system"
    ensures Filter(b[..k] + [m] + b[k..], IsConvo()) == b && Filter(b[..k] + [m] + b[k..], IsSystem()) == [m]
  {
    ConvoFiltered(b);
    FilterSkipsInserted(b, k, m, IsConvo());
    FilterFindsInserted(b, k, m, IsSystem());
  }

  lemma MarkedFiltered(policy: Policy, turns: seq<Turn>)
    requires policy.keepFirst >= 0 && policy.keepLast >= 0
    ensures var marked := Marked(policy, Filter(turns, IsConvo()));
            && Filter(marked, IsConvo()) == Banded(policy, Filter(turns, IsConvo()))
            && Filter(marked, IsSystem()) == Inserted(policy, turns)
  {
    var convo := Filter(turns, IsConvo());
    forall t | t in Banded(policy, convo) ensures t.role != "system" {
      BandedIsConvo(policy, turns, t);
    }
    SplitInRange(policy, convo);
    ConvoFiltered(Banded(policy, convo));
    if MarkerDue(policy, convo) {
      MarkerFiltered(Banded(policy, convo), SplitAt(policy, convo), MarkerTurn(policy.marker.value));
    }
  }

  /**
   * The kept list is the system turns followed by a conversation part. In that part the marker, if
   * inserted, is the only system turn, and the other turns stand in their original order.
   */
  lemma KeptInOrder(policy: Policy, turns: seq<Turn>, r: PruneResult, k: nat)
    requires policy.keepFirst >= 0 && policy.keepLast >= 0 && Explains(policy, turns, r, k)
    ensures var rest := DropOldest(Capped(policy, turns), Expendable(policy.marker), k);
            && r.kept == Filter(turns, IsSystem()) + rest
            && Sub(Filter(rest, IsConvo()), Filter(turns, IsConvo()))
            && Filter(rest, IsSystem()) == Inserted(policy, turns)
  {
    var convo := Filter(turns, IsConvo());
    var system, marked, p := Filter(turns, IsSystem()), Marked(policy, convo), Expendable(policy.marker);
    var n := TurnExcess(system, marked, policy.maxTurns);
    MarkedFiltered(policy, turns);
    FilterOfDrop(marked, Droppable(), IsConvo(), n);
    FilterOfDrop(Capped(policy, turns), p, IsConvo(), k);
    FilterUntouched(marked, Droppable(), IsSystem(), n);
    FilterUntouched(Capped(policy, turns), p, IsSystem(), k);
    var banded := Banded(policy, convo);
    DropSub(banded, Droppable(), n);
    DropSub(DropOldest(banded, Droppable(), n), p, k);
    BandsConserve(policy, convo);
    SubTrans(DropOldest(DropOldest(banded, Droppable(), n), p, k), DropOldest(banded, Droppable(), n), banded);
    SubTrans(DropOldest(DropOldest(banded, Droppable(), n), p, k), banded, convo);
  }

  /** Within the token cap, or nothing left that the ceiling may drop. */
  lemma TokenCapMet(policy: Policy, turns: seq<Turn>, r: PruneResult, k: nat)
    requires policy.keepFirst >= 0 && policy.keepLast >= 0 && Explains(policy, turns, r, k) && policy.maxTokens.Some?
    ensures || Tokens(r.kept, policy.count) <= policy.maxTokens.value
            || forall t :: t in r.kept ==> !Expendable(policy.marker)(t)
  {
    var c, p := Capped(policy, turns), Expendable(policy.marker);
    DropLeaves(c, p, k);
    NoneFiltered(DropOldest(c, p, k), p);
    forall t | t in Filter(turns, IsSystem()) ensures !p(t) {
      FilterMember(turns, IsSystem(), t);
    }
  }

  lemma DropLength(s: seq<Turn>, p: Test, k: nat)
    ensures |DropOldest(s, p, k)| == |s| - if k <= |Filter(s, p)| then k else |Filter(s, p)|
  {
    DropConserves(s, p, k);
    OldestAllowed(s, p, k);
    assert |multiset(DropOldest(s, p, k)) + multiset(Oldest(s, p, k))| == |multiset(s)|;
  }

  /** The turn ceiling alone: within the cap, or no turn left that it may drop. */
  lemma CappedWithinCeiling(policy: Policy, turns: seq<Turn>)
    requires policy.keepFirst >= 0 && policy.keepLast >= 0 && policy.maxTurns.Some?
    ensures var capped := Capped(policy, turns);
            || |Filter(turns, IsSystem())| + |capped| <= policy.maxTurns.value
            || forall t :: t in capped ==> !Droppable()(t)
  {
    var system, marked := Filter(turns, IsSystem()), Marked(policy, Filter(turns, IsConvo()));
    var n := TurnExcess(system, marked, policy.maxTurns);
    DropLength(marked, Droppable(), n);
    DropLeaves(marked, Droppable(), n);
    NoneFiltered(Capped(policy, turns), Droppable());
  }

  /** Within the turn cap, or nothing left that the ceiling may drop. */
  lemma TurnCapMet(policy: Policy, turns: seq<Turn>, r: PruneResult, k: nat)
    requires policy.keepFirst >= 0 && policy.keepLast >= 0 && Explains(policy, turns, r, k) && policy.maxTurns.Some?
    ensures |r.kept| <= policy.maxTurns.value || forall t :: t in r.kept ==> !Droppable()(t)
  {
    var c, p := Capped(policy, turns), Expendable(policy.marker);
    CappedWithinCeiling(policy, turns);
    DropLength(c, p, k);
    DropSub(c, p, k);
    if forall t :: t in c ==> !Droppable()(t) {
      forall t | t in r.kept ensures !Droppable()(t) {
        FilterMember(turns, IsSystem(), t);
        if t in DropOldest(c, p, k) {
          SubMember(DropOldest(c, p, k), c, t);
        }
      }
    }
  }
}
