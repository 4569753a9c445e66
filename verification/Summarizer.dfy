/** Model of the summarizer window: peel the oldest droppable messages and put a summary in their place. */
module SummarizerWindow {
  import opened Common
  import opened OldestFirst

  datatype Message = Message(role: string, content: string, pinned: bool, id: string)

  /** The callables are the caller's: any token counter and any summarizer. */
  datatype Window = Window(
    windowTokens: int, triggerPct: real, targetPct: real, summarize: seq<Message> -> string, counter: string -> int)

  datatype Reason = AlreadyUnderTarget | NothingDroppable | TriggerMet

  datatype Report = Report(
    reason: Reason, tokensBefore: int, tokensAfter: int, droppedIds: seq<string>, insertedAt: Option<nat>)

  predicate ValidWindow(w: Window) {
    0.0 < w.targetPct < w.triggerPct <= 1.0 && w.windowTokens > 0
  }

  function Ceil(x: real): int {
    -(-x).Floor
  }

  function Target(w: Window): int {
    Ceil(w.windowTokens as real * w.targetPct)
  }

  function Trigger(w: Window): int {
    Ceil(w.windowTokens as real * w.triggerPct)
  }

  /** Target and trigger are the least whole numbers of tokens at or above their fractions of the window. */
  lemma LimitsRoundUp(w: Window)
    ensures var x := w.windowTokens as real * w.targetPct; Target(w) as real - 1.0 < x <= Target(w) as real
    ensures var x := w.windowTokens as real * w.triggerPct; Trigger(w) as real - 1.0 < x <= Trigger(w) as real
  {
  }

  function Weight(w: Window): Message -> int {
    (m: Message) => w.counter(m.content)
  }

  function Size(w: Window): seq<Message> -> int {
    (msgs: seq<Message>) => Tokens(msgs, Weight(w))
  }

  function Total(w: Window, msgs: seq<Message>): int {
    Tokens(msgs, Weight(w))
  }

  predicate ShouldCompress(w: Window, msgs: seq<Message>) {
    Total(w, msgs) >= Trigger(w)
  }

  lemma CeilMonotone(x: real, y: real)
    requires x <= y
    ensures Ceil(x) <= Ceil(y)
  {
  }

  function IsDroppable(): Message -> bool {
    (m: Message) => !m.pinned && m.role != "summary"
  }

  /** Pinned messages and earlier summaries. */
  function IsProtected(): Message -> bool {
    (m: Message) => m.pinned || m.role == "summary"
  }

  // ---------------------------------------------------------------------------
  // The peel loop
  // ---------------------------------------------------------------------------

  /** The reserve kept for the summary: a quarter of what it replaces, at least one token. */
  function Reserve(w: Window, peeled: seq<Message>): int {
    if Total(w, peeled) / 4 >= 1 then Total(w, peeled) / 4 else 1
  }

  /** `k` messages peeled so far, each because the rest was over the target; nothing droppable before `i`. */
  ghost predicate Peeling(w: Window, msgs: seq<Message>, target: int, k: nat, i: nat) {
    var kept := DropOldest(msgs, IsDroppable(), k);
    && k <= |Filter(msgs, IsDroppable())| && i <= |kept|
    && (forall j :: 0 <= j < i ==> !IsDroppable()(kept[j]))
    && (forall j :: 0 <= j < k ==> Size(w)(DropOldest(msgs, IsDroppable(), j)) > target)
  }

  lemma PeelOne(w: Window, msgs: seq<Message>, target: int, k: nat, i: nat)
    requires Peeling(w, msgs, target, k, i) && i < |DropOldest(msgs, IsDroppable(), k)|
    requires IsDroppable()(DropOldest(msgs, IsDroppable(), k)[i])
              && Size(w)(DropOldest(msgs, IsDroppable(), k)) > target
    ensures var kept := DropOldest(msgs, IsDroppable(), k);
            && Peeling(w, msgs, target, k + 1, i)
            && DropOldest(msgs, IsDroppable(), k + 1) == kept[..i] + kept[i + 1..]
            && Oldest(msgs, IsDroppable(), k + 1) == Oldest(msgs, IsDroppable(), k) + [kept[i]]
  {
    NextDrop(msgs, IsDroppable(), k, i);
  }

  lemma PeelEnds(w: Window, msgs: seq<Message>, target: int, k: nat, i: nat)
    requires Peeling(w, msgs, target, k, i)
    requires i == |DropOldest(msgs, IsDroppable(), k)| || Size(w)(DropOldest(msgs, IsDroppable(), k)) <= target
    ensures Shortest(msgs, IsDroppable(), Size(w), target, k)
  {
    if Size(w)(DropOldest(msgs, IsDroppable(), k)) > target {
      NoneLeft(msgs, IsDroppable(), k);
    }
  }

  /**
   * Peels oldest droppable messages. The reserve check inside the loop is modelled as written; the
   * contract shows that it never changes how many messages are peeled.
   */
  method Peel(w: Window, msgs: seq<Message>, target: int)
    returns (kept: seq<Message>, peeled: seq<Message>, ghost k: nat)
    ensures Shortest(msgs, IsDroppable(), Size(w), target, k)
    ensures kept == DropOldest(msgs, IsDroppable(), k) && peeled == Oldest(msgs, IsDroppable(), k)
  {
    kept, peeled, k := msgs, [], 0;
    var i := 0;
    while i < |kept| && Size(w)(kept) > target
      invariant Peeling(w, msgs, target, k, i)
      invariant kept == DropOldest(msgs, IsDroppable(), k) && peeled == Oldest(msgs, IsDroppable(), k)
      decreases |kept| - i
    {
      var m := kept[i];
      if m.pinned || m.role == "summary" {
        i := i + 1;
        continue;
      }
      PeelOne(w, msgs, target, k, i);
      peeled := peeled + [m];
      kept := kept[..i] + kept[i + 1..];
      k := k + 1;
      var projected := Size(w)(kept) + Reserve(w, peeled);
      if projected <= target {
        break;
      }
    }
    PeelEnds(w, msgs, target, k, i);
  }

  // ---------------------------------------------------------------------------
  // Inserting the summary
  // ---------------------------------------------------------------------------

  /** Position of the first droppable message, or the end. */
  function InsertionPoint(kept: seq<Message>): (at: nat)
    ensures at <= |kept|
    ensures forall j :: 0 <= j < at ==> IsProtected()(kept[j])
    ensures at < |kept| ==> IsDroppable()(kept[at])
  {
    if kept == [] || IsDroppable()(kept[0]) then 0 else 1 + InsertionPoint(kept[1..])
  }

  function SummaryOf(w: Window, peeled: seq<Message>): Message {
    Message("summary", w.summarize(peeled), false, "summary_of_" + Decimal(|peeled|))
  }

  function WithSummary(kept: seq<Message>, s: Message): seq<Message> {
    kept[..InsertionPoint(kept)] + [s] + kept[InsertionPoint(kept)..]
  }

  method FindInsertionPoint(kept: seq<Message>) returns (at: nat)
    ensures at == InsertionPoint(kept)
  {
    at := 0;
    for idx := 0 to |kept|
      invariant at == idx && InsertionPoint(kept) == idx + InsertionPoint(kept[idx..])
    {
      if !kept[idx].pinned && kept[idx].role != "summary" {
        return idx;
      }
      at := idx + 1;
    }
  }

  function Ids(msgs: seq<Message>): seq<string> {
    seq(|msgs|, i requires 0 <= i < |msgs| => msgs[i].id)
  }

  /** `k` droppable messages, the shortest oldest-first run that will do, became one summary. */
  ghost predicate Compressed(w: Window, msgs: seq<Message>, out: seq<Message>, k: nat) {
    && Shortest(msgs, IsDroppable(), Size(w), Target(w), k)
    && out == WithSummary(DropOldest(msgs, IsDroppable(), k), SummaryOf(w, Oldest(msgs, IsDroppable(), k)))
  }

  /** What a call of compress does, as its report says. */
  function ReasonFor(w: Window, msgs: seq<Message>): Reason {
    if Total(w, msgs) <= Target(w) then AlreadyUnderTarget
    else if Filter(msgs, IsDroppable()) == [] then NothingDroppable
    else TriggerMet
  }

  method Compress(w: Window, msgs: seq<Message>) returns (out: seq<Message>, report: Report, ghost k: nat)
    ensures report.tokensBefore == Total(w, msgs) && report.tokensAfter == Total(w, out)
    ensures report.reason == ReasonFor(w, msgs)
    ensures !report.reason.TriggerMet? ==> out == msgs && report.droppedIds == [] && report.insertedAt.None?
    ensures report.reason.TriggerMet? ==>
              && k > 0 && Compressed(w, msgs, out, k)
              && report.droppedIds == Ids(Oldest(msgs, IsDroppable(), k))
              && report.insertedAt == Some(InsertionPoint(DropOldest(msgs, IsDroppable(), k)))
              && report.insertedAt.value < |out|
              && out[report.insertedAt.value]
                 == Message("summary", w.summarize(Oldest(msgs, IsDroppable(), k)), false, "summary_of_" + Decimal(k))
  {
    k := 0;
    var target, before := Target(w), Total(w, msgs);
    if before <= target {
      return msgs, Report(AlreadyUnderTarget, before, before, [], None), 0;
    }
    var kept, peeled;
    kept, peeled, k := Peel(w, msgs, target);
    OldestAllowed(msgs, IsDroppable(), k);
    if peeled == [] {
      return msgs, Report(NothingDroppable, before, before, [], None), k;
    }
    var at := FindInsertionPoint(kept);
    out := kept[..at] + [SummaryOf(w, peeled)] + kept[at..];
    report := Report(TriggerMet, before, Total(w, out), Ids(peeled), Some(at));
  }

  // ---------------------------------------------------------------------------
  // What compression guarantees
  // ---------------------------------------------------------------------------

  lemma {:induction false} TokensConcat(a: seq<Message>, b: seq<Message>, count: Message -> int)
    ensures Tokens(a + b, count) == Tokens(a, count) + Tokens(b, count)
  {
    if a == [] {
      assert a + b == b;
    } else {
      TokensConcat(a[1..], b, count);
      assert (a + b)[1..] == a[1..] + b;
    }
  }

  lemma SummaryTokens(w: Window, kept: seq<Message>, s: Message)
    ensures Total(w, WithSummary(kept, s)) == Total(w, kept) + w.counter(s.content)
  {
    var at := InsertionPoint(kept);
    assert kept == kept[..at] + kept[at..];
    TokensConcat(kept[..at], kept[at..], Weight(w));
    TokensConcat(kept[..at] + [s], kept[at..], Weight(w));
    TokensConcat(kept[..at], [s], Weight(w));
    assert [s][1..] == [];
    assert Tokens([s], Weight(w)) == w.counter(s.content);
  }

  lemma AllProtected(msgs: seq<Message>, k: nat)
    requires k == |Filter(msgs, IsDroppable())|
    ensures DropOldest(msgs, IsDroppable(), k) == Filter(msgs, IsProtected())
  {
    DropLeaves(msgs, IsDroppable(), k);
    NoneFiltered(DropOldest(msgs, IsDroppable(), k), IsDroppable());
    FilterAll(DropOldest(msgs, IsDroppable(), k), IsProtected());
    FilterUntouched(msgs, IsDroppable(), IsProtected(), k);
  }

  /** After compression the total is at most the target, or the protected messages alone, plus the summary. */
  lemma CompressionBound(w: Window, msgs: seq<Message>, out: seq<Message>, k: nat)
    requires Compressed(w, msgs, out, k)
    ensures var summary := w.counter(w.summarize(Oldest(msgs, IsDroppable(), k)));
            Total(w, out) <= Target(w) + summary || Total(w, out) == Total(w, Filter(msgs, IsProtected())) + summary
  {
    var kept := DropOldest(msgs, IsDroppable(), k);
    SummaryTokens(w, kept, SummaryOf(w, Oldest(msgs, IsDroppable(), k)));
    if k == |Filter(msgs, IsDroppable())| {
      AllProtected(msgs, k);
    }
  }

  /** Protected messages survive in order; the new summary joins them before the first recent message. */
  lemma ProtectedSurvive(w: Window, msgs: seq<Message>, out: seq<Message>, k: nat)
    requires Compressed(w, msgs, out, k)
    ensures var kept := DropOldest(msgs, IsDroppable(), k);
            var at, before := InsertionPoint(kept), Filter(msgs, IsProtected());
            && at <= |before|
            && Filter(out, IsProtected())
               == before[..at] + [SummaryOf(w, Oldest(msgs, IsDroppable(), k))] + before[at..]
  {
    var kept, s := DropOldest(msgs, IsDroppable(), k), SummaryOf(w, Oldest(msgs, IsDroppable(), k));
    var at, p := InsertionPoint(kept), IsProtected();
    FilterUntouched(msgs, IsDroppable(), p, k);
    FilterInserted(kept, at, s, p);
    FilterAll(kept[..at], p);
    var before := Filter(msgs, p);
    assert before[..at] == kept[..at] && before[at..] == Filter(kept[at..], p);
  }

  /** The messages that are neither summarised nor protected keep their order and follow the summary. */
  lemma RecentTailKept(w: Window, msgs: seq<Message>, out: seq<Message>, k: nat)
    requires Compressed(w, msgs, out, k)
    ensures var at := InsertionPoint(DropOldest(msgs, IsDroppable(), k));
            at < |out| && Filter(out[at + 1..], IsDroppable())
                == Filter(DropOldest(msgs, IsDroppable(), k), IsDroppable())
  {
    var kept := DropOldest(msgs, IsDroppable(), k);
    var at := InsertionPoint(kept);
    RemoveInserted(kept, at, SummaryOf(w, Oldest(msgs, IsDroppable(), k)));
    FilterConcat(kept[..at], kept[at..], IsDroppable());
    assert kept == kept[..at] + kept[at..];
    NoneFiltered(kept[..at], IsDroppable());
  }

  /**
   * Every message is in the result, in its original order, or was handed to the summarizer, and the
   * result holds one message more, the summary.
   */
  lemma CompressionConserves(w: Window, msgs: seq<Message>, out: seq<Message>, k: nat)
    requires Compressed(w, msgs, out, k)
    ensures var peeled := Oldest(msgs, IsDroppable(), k);
            var at := InsertionPoint(DropOldest(msgs, IsDroppable(), k));
            && multiset(out) + multiset(peeled) == multiset(msgs) + multiset([SummaryOf(w, peeled)])
            && at < |out| && Sub(out[..at] + out[at + 1..], msgs)
  {
    var kept, peeled := DropOldest(msgs, IsDroppable(), k), Oldest(msgs, IsDroppable(), k);
    var at := InsertionPoint(kept);
    DropConserves(msgs, IsDroppable(), k);
    DropSub(msgs, IsDroppable(), k);
    RemoveInserted(kept, at, SummaryOf(w, peeled));
    InsertedConserves(kept, at, SummaryOf(w, peeled), peeled);
  }

  lemma InsertedConserves(kept: seq<Message>, at: nat, s: Message, peeled: seq<Message>)
    requires at <= |kept|
    ensures multiset(kept[..at] + [s] + kept[at..]) + multiset(peeled)
            == multiset(kept) + multiset(peeled) + multiset([s])
  {
    InsertConserves(kept, at, s);
  }

  lemma RemoveInserted(s: seq<Message>, at: nat, m: Message)
    requires at <= |s|
    ensures var out := s[..at] + [m] + s[at..];
            at < |out| && out[at + 1..] == s[at..] && out[..at] + out[at + 1..] == s
  {
    var out := s[..at] + [m] + s[at..];
    assert out[..at] == s[..at] && out[at + 1..] == s[at..];
  }

  // ---------------------------------------------------------------------------
  // When the trigger leads to action
  // ---------------------------------------------------------------------------

  /**
   * The trigger promises that compression will act. A triggered compression declines exactly when
   * nothing may be dropped, or the total sits on a target that rounding has lifted to the trigger.
   */
  lemma TriggerActs(w: Window, msgs: seq<Message>)
    requires ValidWindow(w) && ShouldCompress(w, msgs)
    ensures !ReasonFor(w, msgs).TriggerMet? <==>
            Total(w, msgs) == Target(w) == Trigger(w) || Filter(msgs, IsDroppable()) == []
  {
    CeilMonotone(w.windowTokens as real * w.targetPct, w.windowTokens as real * w.triggerPct);
  }

  lemma CeilBetween(x: real, n: int)
    requires (n - 1) as real < x <= n as real
    ensures Ceil(x) == n
  {
  }

  function OneEach(): string -> int {
    (text: string) => 1
  }

  /** Rounding can make target and trigger meet: a window of one token, a message of one token. */
  lemma RoundedTriggerDeclines(summarize: seq<Message> -> string)
    ensures var w := Window(1, 0.8, 0.5, summarize, OneEach());
            var msgs := [Message("user", "hi", false, "m")];
            && ValidWindow(w) && ShouldCompress(w, msgs) && Filter(msgs, IsDroppable()) == msgs
            && Target(w) == Trigger(w) && ReasonFor(w, msgs).AlreadyUnderTarget?
  {
    var w := Window(1, 0.8, 0.5, summarize, OneEach());
    var msgs := [Message("user", "hi", false, "m")];
    CeilBetween(0.5, 1);
    CeilBetween(0.8, 1);
    assert w.windowTokens as real * w.targetPct == 0.5 && w.windowTokens as real * w.triggerPct == 0.8;
    assert msgs[1..] == [] && Tokens(msgs[1..], Weight(w)) == 0 && Filter(msgs[1..], IsDroppable()) == [];
    assert Total(w, msgs) == 1;
  }

  /** A window over its trigger that holds only a pinned message is left as it is. */
  lemma PinnedOnlyDeclines(summarize: seq<Message> -> string)
    ensures var w := Window(10, 0.8, 0.5, summarize, (text: string) => 9);
            var msgs := [Message("user", "hi", true, "m")];
            && ValidWindow(w) && ShouldCompress(w, msgs) && Target(w) < Trigger(w) < Total(w, msgs)
            && ReasonFor(w, msgs).NothingDroppable?
  {
    var w := Window(10, 0.8, 0.5, summarize, (text: string) => 9);
    var msgs := [Message("user", "hi", true, "m")];
    CeilBetween(5.0, 5);
    CeilBetween(8.0, 8);
    assert w.windowTokens as real * w.targetPct == 5.0 && w.windowTokens as real * w.triggerPct == 8.0;
    assert msgs[1..] == [] && Tokens(msgs[1..], Weight(w)) == 0 && Filter(msgs[1..], IsDroppable()) == [];
    assert Total(w, msgs) == 9;
  }
}
