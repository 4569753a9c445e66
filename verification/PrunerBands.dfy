/**
 * What the bands, the marker and the turn ceiling of the pruner keep, in terms of the policy's own
 * numbers and of positions in the conversation.
 */
module PrunerBands {
  import opened Common
  import opened OldestFirst
  import opened TurnPruner

  // ---------------------------------------------------------------------------
  // The bands
  // ---------------------------------------------------------------------------

  /** `part` is the turns of `whole` that are pinned (or not), each as often, in order. */
  ghost predicate PartOf(part: seq<Turn>, whole: seq<Turn>, pinned: bool) {
    && Sub(part, whole)
    && (forall t :: t in part ==> t.pinned == pinned)
    && (forall t :: t in whole && t.pinned == pinned ==> multiset(part)[t] == multiset(whole)[t])
  }

  lemma {:induction false} FilterCounts(s: seq<Turn>, p: Test, t: Turn)
    requires p(t)
    ensures multiset(Filter(s, p))[t] == multiset(s)[t]
  {
    if s != [] {
      FilterCounts(s[1..], p, t);
      assert s == [s[0]] + s[1..];
    }
  }

  lemma FilterIsPart(s: seq<Turn>)
    ensures PartOf(Filter(s, IsPinned()), s, true) && PartOf(Filter(s, IsUnpinned()), s, false)
  {
    FilterSub(s, IsPinned());
    FilterSub(s, IsUnpinned());
    forall t ensures t in Filter(s, IsPinned()) ==> t.pinned {
      FilterMember(s, IsPinned(), t);
    }
    forall t ensures t in Filter(s, IsUnpinned()) ==> !t.pinned {
      FilterMember(s, IsUnpinned(), t);
    }
    forall t | t in s && t.pinned ensures multiset(Filter(s, IsPinned()))[t] == multiset(s)[t] {
      FilterCounts(s, IsPinned(), t);
    }
    forall t | t in s && !t.pinned ensures multiset(Filter(s, IsUnpinned()))[t] == multiset(s)[t] {
      FilterCounts(s, IsUnpinned(), t);
    }
  }

  /**
   * A conversation of at most `keep_first + keep_last` turns is kept whole. Of a longer one the first
   * `keep_first` and the last `keep_last` turns are kept, and between them exactly the pinned ones; the
   * unpinned ones between them are dropped.
   */
  lemma BandsKeep(policy: Policy, convo: seq<Turn>)
    requires policy.keepFirst >= 0 && policy.keepLast >= 0
    ensures |convo| <= policy.keepFirst + policy.keepLast ==>
              Banded(policy, convo) == convo && MiddleDropped(policy, convo) == []
    ensures |convo| > policy.keepFirst + policy.keepLast ==> KeepsEnds(policy, convo)
  {
    if |convo| > policy.keepFirst + policy.keepLast {
      BandsOfLong(policy, convo);
      FilterIsPart(convo[policy.keepFirst..|convo| - policy.keepLast]);
    }
  }

  /** The first and the last turns, with the pinned ones of those between, and the others dropped. */
  ghost predicate KeepsEnds(policy: Policy, convo: seq<Turn>)
    requires policy.keepFirst >= 0 && policy.keepLast >= 0 && |convo| > policy.keepFirst + policy.keepLast
  {
    var end := |convo| - policy.keepLast;
    var middle := convo[policy.keepFirst..end];
    && PartOf(MiddleDropped(policy, convo), middle, false)
    && exists between :: PartOf(between, middle, true)
                      && Banded(policy, convo) == convo[..policy.keepFirst] + between + convo[end..]
  }

  lemma BandsOfLong(policy: Policy, convo: seq<Turn>)
    requires policy.keepFirst >= 0 && policy.keepLast >= 0 && |convo| > policy.keepFirst + policy.keepLast
    ensures var end := |convo| - policy.keepLast;
            var middle := convo[policy.keepFirst..end];
            && Banded(policy, convo) == convo[..policy.keepFirst] + Filter(middle, IsPinned()) + convo[end..]
            && MiddleDropped(policy, convo) == Filter(middle, IsUnpinned())
            && HeadSize(policy, |convo|) == policy.keepFirst
  {
  }

  // ---------------------------------------------------------------------------
  // The marker
  // ---------------------------------------------------------------------------

  /** The marker is due when the bands drop some turn and the policy has a marker text. */
  lemma MarkerDueMeans(policy: Policy, convo: seq<Turn>)
    requires policy.keepFirst >= 0 && policy.keepLast >= 0
    ensures MarkerDue(policy, convo) <==>
            && policy.marker.Some? && policy.marker.value != ""
            && exists i :: policy.keepFirst <= i < |convo| - policy.keepLast && !convo[i].pinned
  {
    var n, first, last := |convo|, policy.keepFirst, policy.keepLast;
    if n > first + last {
      SomeUnpinned(convo, first, n - last);
    }
  }

  lemma SomeUnpinned(convo: seq<Turn>, a: nat, b: nat)
    requires a <= b <= |convo|
    ensures Filter(convo[a..b], IsUnpinned()) != [] <==> exists i :: a <= i < b && !convo[i].pinned
  {
    var middle := convo[a..b];
    NoneFiltered(middle, IsUnpinned());
    if t :| t in middle && !t.pinned {
      var i :| 0 <= i < |middle| && middle[i] == t;
      assert convo[a + i] == t;
    }
    if i :| a <= i < b && !convo[i].pinned {
      assert middle[i - a] == convo[i];
    }
  }

  /** The marker goes `keep_first` turns from the start, and further by every pinned turn after those. */
  lemma MarkerPosition(policy: Policy, convo: seq<Turn>)
    requires policy.keepFirst >= 0 && policy.keepLast >= 0 && MarkerDue(policy, convo)
    ensures policy.keepFirst <= |convo|
    ensures var b := Banded(policy, convo);
            var at := policy.keepFirst + |Filter(convo[policy.keepFirst..], IsPinned())|;
            && at <= |b|
            && Marked(policy, convo) == b[..at] + [Turn("system", policy.marker.value, false, None)] + b[at..]
  {
    SplitInRange(policy, convo);
    assert |convo| > policy.keepFirst + policy.keepLast;
    SplitIsPinnedCount(policy, convo);
  }

  lemma SplitIsPinnedCount(policy: Policy, convo: seq<Turn>)
    requires policy.keepFirst >= 0 && policy.keepLast >= 0 && |convo| > policy.keepFirst + policy.keepLast
    ensures SplitAt(policy, convo) == policy.keepFirst + |Filter(convo[policy.keepFirst..], IsPinned())|
  {
    var a, b := policy.keepFirst, |convo| - policy.keepLast;
    BandsOfLong(policy, convo);
    PinnedAfterHead(convo, a, b);
    AfterHead(convo[..a], Filter(convo[a..b], IsPinned()), convo[b..]);
  }

  lemma AfterHead(head: seq<Turn>, between: seq<Turn>, tail: seq<Turn>)
    ensures (head + between + tail)[|head|..] == between + tail
  {
  }

  /** Thinning out the middle loses no pinned turn. */
  lemma PinnedAfterHead(convo: seq<Turn>, a: nat, b: nat)
    requires a <= b <= |convo|
    ensures Filter(Filter(convo[a..b], IsPinned()) + convo[b..], IsPinned()) == Filter(convo[a..], IsPinned())
  {
    var middle, tail := convo[a..b], convo[b..];
    var between := Filter(middle, IsPinned());
    FilterConcat(between, tail, IsPinned());
    forall x | x in between ensures x.pinned {
      FilterMember(middle, IsPinned(), x);
    }
    FilterAll(between, IsPinned());
    FilterConcat(middle, tail, IsPinned());
    assert convo[a..] == middle + tail;
  }

  // ---------------------------------------------------------------------------
  // The whole pruner
  // ---------------------------------------------------------------------------

  /** Without ceilings, the result is the system turns followed by the banded conversation and its marker. */
  lemma PruneWithoutCeilings(policy: Policy, turns: seq<Turn>, r: PruneResult, k: nat)
    requires policy.keepFirst >= 0 && policy.keepLast >= 0 && Explains(policy, turns, r, k)
    requires policy.maxTurns.None? && policy.maxTokens.None?
    ensures var convo := Filter(turns, IsConvo());
            && r.kept == Filter(turns, IsSystem()) + Marked(policy, convo)
            && r.dropped == MiddleDropped(policy, convo)
            && (!MarkerDue(policy, convo) ==> r.kept == Filter(turns, IsSystem()) + Banded(policy, convo))
  {
  }

  /**
   * The token ceiling never drops a pinned turn, a system turn or a turn that reads like the marker, and
   * when it gives up over the cap, no other turn is left.
   */
  lemma TokenCeilingSpares(policy: Policy, turns: seq<Turn>, r: PruneResult, k: nat)
    requires policy.keepFirst >= 0 && policy.keepLast >= 0 && Explains(policy, turns, r, k) && policy.maxTokens.Some?
    ensures forall t :: t in Oldest(Capped(policy, turns), Expendable(policy.marker), k) ==>
              !t.pinned && t.role != "system" && Some(t.content) != policy.marker
    ensures Tokens(r.kept, policy.count) > policy.maxTokens.value ==>
              forall t :: t in r.kept ==> t.pinned || t.role == "system" || Some(t.content) == policy.marker
  {
    OldestAllowed(Capped(policy, turns), Expendable(policy.marker), k);
    TokenCapMet(policy, turns, r, k);
  }

  /** The turn ceiling drops nothing below the cap, and never more than it takes to reach the cap. */
  lemma CeilingDropsNoMoreThanNeeded(policy: Policy, turns: seq<Turn>)
    requires policy.keepFirst >= 0 && policy.keepLast >= 0 && policy.maxTurns.Some? && policy.maxTurns.value >= 0
    ensures var system, marked := Filter(turns, IsSystem()), Marked(policy, Filter(turns, IsConvo()));
            var capped := Capped(policy, turns);
            if |system| + |marked| <= policy.maxTurns.value then capped == marked
            else && policy.maxTurns.value <= |system| + |capped|
                 && (policy.maxTurns.value < |system| + |capped| ==> forall t :: t in capped ==> !Droppable()(t))
  {
    var system, marked := Filter(turns, IsSystem()), Marked(policy, Filter(turns, IsConvo()));
    DropLength(marked, Droppable(), TurnExcess(system, marked, policy.maxTurns));
    CappedWithinCeiling(policy, turns);
  }
}
