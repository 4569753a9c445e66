/**
 * When exactly the right-to-left splice is a faithful redaction. For hits that may overlap in any
 * way, and may be empty, the result a reader would expect keeps every uncovered character and every
 * token; the splice produces it if and only if the hits are compatible.
 */
module RedactionOverlap {
  import opened Common
  import opened PostFilter

  function Max(x: nat, y: nat): nat {
    if x >= y then x else y
  }

  function Min(x: nat, y: nat): nat {
    if x <= y then x else y
  }

  ghost predicate InText(edits: seq<Edit>, size: nat) {
    forall i :: 0 <= i < |edits| ==> edits[i].start <= edits[i].end <= size && edits[i].with != ""
  }

  ghost predicate NoneEmpty(edits: seq<Edit>) {
    forall i :: 0 <= i < |edits| ==> edits[i].start < edits[i].end
  }

  ghost predicate Ordered(edits: seq<Edit>) {
    forall i, j :: 0 <= i < j < |edits| ==> edits[i].start <= edits[j].start
  }

  /** From `pos` on: every character that no span covers and every replacement, in text order. */
  function Ideal(text: string, edits: seq<Edit>, n: nat, pos: nat): string
    requires InText(edits, |text|) && n <= |edits| && pos <= |text|
    decreases |edits| - n, 1
  {
    if n == |edits| then text[pos..] else IdealAt(text, edits, n, pos)
  }

  function IdealAt(text: string, edits: seq<Edit>, n: nat, pos: nat): string
    requires InText(edits, |text|) && n < |edits| && pos <= |text|
    decreases |edits| - n, 0
  {
    text[pos..Max(pos, edits[n].start)] + edits[n].with + Ideal(text, edits, n + 1, Max(pos, edits[n].end))
  }

  // ---------------------------------------------------------------------------
  // Disjoint spans
  // ---------------------------------------------------------------------------

  lemma {:induction false} RenderIsIdeal(text: string, edits: seq<Edit>, n: nat, pos: nat)
    requires Disjoint(edits, |text|) && InText(edits, |text|) && n <= |edits| && pos <= |text|
    requires n < |edits| ==> pos <= edits[n].start
    ensures Render(text, edits, n, pos) == Ideal(text, edits, n, pos)
    decreases |edits| - n
  {
    if n < |edits| {
      RenderIsIdeal(text, edits, n + 1, edits[n].end);
      assert Render(text, edits, n, pos) == RenderAt(text, edits, n, pos);
      assert Ideal(text, edits, n, pos) == IdealAt(text, edits, n, pos);
    }
  }

  // ---------------------------------------------------------------------------
  // Non-empty spans: an overlap shows in the length
  // ---------------------------------------------------------------------------

  function IdealLength(size: nat, edits: seq<Edit>, n: nat, pos: nat): nat
    requires InText(edits, size) && n <= |edits| && pos <= size
    decreases |edits| - n
  {
    if n == |edits| then size - pos
    else Max(pos, edits[n].start) - pos + |edits[n].with| + IdealLength(size, edits, n + 1, Max(pos, edits[n].end))
  }

  function SpliceLength(size: nat, edits: seq<Edit>, n: nat): nat
    requires n <= |edits|
    decreases |edits| - n
  {
    if n == |edits| then size
    else
      var rest := SpliceLength(size, edits, n + 1);
      Min(edits[n].start, rest) + |edits[n].with| + rest - Min(edits[n].end, rest)
  }

  lemma {:induction false} IdealHasLength(text: string, edits: seq<Edit>, n: nat, pos: nat)
    requires InText(edits, |text|) && n <= |edits| && pos <= |text|
    ensures |Ideal(text, edits, n, pos)| == IdealLength(|text|, edits, n, pos)
    decreases |edits| - n
  {
    if n < |edits| {
      IdealHasLength(text, edits, n + 1, Max(pos, edits[n].end));
      assert Ideal(text, edits, n, pos) == IdealAt(text, edits, n, pos);
    }
  }

  lemma {:induction false} SpliceHasLength(text: string, edits: seq<Edit>, n: nat)
    requires n <= |edits|
    ensures |SpliceFrom(text, edits, n)| == SpliceLength(|text|, edits, n)
    decreases |edits| - n
  {
    if n < |edits| {
      SpliceHasLength(text, edits, n + 1);
    }
  }

  /** Starting later can only hide characters, at most one per position skipped. */
  lemma {:induction false} IdealFromLater(size: nat, edits: seq<Edit>, n: nat, pos: nat, later: nat)
    requires InText(edits, size) && n <= |edits| && pos <= later <= size
    ensures IdealLength(size, edits, n, later) <= IdealLength(size, edits, n, pos)
    ensures IdealLength(size, edits, n, pos) <= IdealLength(size, edits, n, later) + (later - pos)
    decreases |edits| - n
  {
    if n < |edits| {
      IdealFromLater(size, edits, n + 1, Max(pos, edits[n].end), Max(later, edits[n].end));
    }
  }

  /** Skipping past the start of a span hides fewer characters than positions: one was covered. */
  lemma IdealPastStart(size: nat, edits: seq<Edit>, n: nat, later: nat)
    requires InText(edits, size) && NoneEmpty(edits) && n < |edits| && edits[n].start < later <= size
    ensures IdealLength(size, edits, n, edits[n].start) < IdealLength(size, edits, n, later) + (later - edits[n].start)
    ensures IdealLength(size, edits, n, later) > 0
  {
    IdealFromLater(size, edits, n + 1, edits[n].end, Max(later, edits[n].end));
  }

  lemma {:induction false} SpliceReachesStart(size: nat, edits: seq<Edit>, n: nat)
    requires InText(edits, size) && Ordered(edits) && n <= |edits|
    ensures SpliceLength(size, edits, n) >= if n < |edits| then edits[n].start else size
    decreases |edits| - n
  {
    if n < |edits| {
      SpliceReachesStart(size, edits, n + 1);
    }
  }

  /** Each span ends before the next one starts. */
  ghost predicate Chained(edits: seq<Edit>, n: nat) {
    forall i :: n <= i < |edits| - 1 ==> edits[i].end <= edits[i + 1].start
  }

  /** The splice is never longer than the ideal, and as long only when no span reaches the next. */
  lemma {:induction false} SpliceIsShorter(size: nat, edits: seq<Edit>, n: nat)
    requires InText(edits, size) && NoneEmpty(edits) && Ordered(edits) && n < |edits|
    ensures SpliceLength(size, edits, n) <= edits[n].start + IdealLength(size, edits, n, edits[n].start)
    ensures SpliceLength(size, edits, n) == edits[n].start + IdealLength(size, edits, n, edits[n].start) ==>
              Chained(edits, n)
    decreases |edits| - n
  {
    SpliceReachesStart(size, edits, n + 1);
    if n + 1 < |edits| {
      SpliceIsShorter(size, edits, n + 1);
      if edits[n].end > edits[n + 1].start {
        IdealPastStart(size, edits, n + 1, edits[n].end);
      }
    }
  }

  lemma {:induction false} ChainedApart(edits: seq<Edit>, size: nat, i: nat, j: nat)
    requires InText(edits, size) && Chained(edits, 0) && i < j < |edits|
    ensures edits[i].end <= edits[j].start
    decreases j
  {
    assert edits[j - 1].end <= edits[j - 1 + 1].start;
    if i < j - 1 {
      ChainedApart(edits, size, i, j - 1);
    }
  }

  lemma LengthShowsOverlap(text: string, edits: seq<Edit>)
    requires InText(edits, |text|) && NoneEmpty(edits) && Ordered(edits) && edits != []
    requires SpliceFrom(text, edits, 0) == Ideal(text, edits, 0, 0)
    ensures Chained(edits, 0)
  {
    SpliceHasLength(text, edits, 0);
    IdealHasLength(text, edits, 0, 0);
    SpliceIsShorter(|text|, edits, 0);
  }

  // ---------------------------------------------------------------------------
  // Spans that may be empty: a cut token loses its opening mark
  // ---------------------------------------------------------------------------

  /** How often the character that opens a token occurs. */
  function Marks(s: string): nat
    decreases |s|, 1
  {
    if s == [] then 0 else MarksThroughLast(s)
  }

  function MarksThroughLast(s: string): nat
    requires s != []
    decreases |s|, 0
  {
    Marks(Init(s)) + if Last(s) == '<' then 1 else 0
  }

  lemma {:induction false} MarksConcat(a: string, b: string)
    ensures Marks(a + b) == Marks(a) + Marks(b)
  {
    if b == [] {
      assert a + b == a;
    } else {
      MarksConcat(a, Init(b));
      assert Init(a + b) == a + Init(b);
    }
  }

  lemma {:induction false} NoMarks(s: string)
    requires '<' !in s
    ensures Marks(s) == 0
  {
    if s != [] {
      NoMarks(Init(s));
    }
  }

  lemma {:induction false} SomeMark(s: string, i: nat)
    requires i < |s| && s[i] == '<'
    ensures Marks(s) >= 1
  {
    if i < |s| - 1 {
      SomeMark(Init(s), i);
    }
  }

  /** Every replacement opens with the mark and holds no other. */
  ghost predicate Marked(edits: seq<Edit>) {
    forall i :: 0 <= i < |edits| ==> edits[i].with != "" && edits[i].with[0] == '<' && Marks(edits[i].with) == 1
  }

  lemma {:induction false} IdealMarks(text: string, edits: seq<Edit>, n: nat, pos: nat)
    requires InText(edits, |text|) && Marked(edits) && '<' !in text && n <= |edits| && pos <= |text|
    ensures Marks(Ideal(text, edits, n, pos)) == |edits| - n
    decreases |edits| - n
  {
    if n == |edits| {
      NoMarks(text[pos..]);
    } else {
      var gap := text[pos..Max(pos, edits[n].start)];
      var rest := Ideal(text, edits, n + 1, Max(pos, edits[n].end));
      IdealMarks(text, edits, n + 1, Max(pos, edits[n].end));
      NoMarks(gap);
      MarksConcat(gap, edits[n].with);
      MarksConcat(gap + edits[n].with, rest);
      assert Ideal(text, edits, n, pos) == gap + edits[n].with + rest;
    }
  }

  /** Up to the first span the spliced text is the original, and there the first token opens. */
  lemma {:induction false} SpliceOpens(text: string, edits: seq<Edit>, n: nat)
    requires InText(edits, |text|) && Ordered(edits) && n <= |edits|
    ensures var out, from := SpliceFrom(text, edits, n), if n < |edits| then edits[n].start else |text|;
            && |out| >= from && out[..from] == text[..from]
            && (n < |edits| ==> |out| > from && out[from] == edits[n].with[0])
    decreases |edits| - n
  {
    if n < |edits| {
      SpliceOpens(text, edits, n + 1);
      var out, s := SpliceFrom(text, edits, n + 1), edits[n].start;
      var next := if n + 1 < |edits| then edits[n + 1].start else |text|;
      assert out[..s] == out[..next][..s] == text[..s];
    }
  }

  lemma ReplaceMarks(out: string, e: Edit)
    requires e.start <= e.end && e.start <= |out|
    ensures Marks(ReplaceAt(out, e)) + Marks(out[e.start..Min(e.end, |out|)]) == Marks(out) + Marks(e.with)
  {
    var s, t := e.start, Min(e.end, |out|);
    ThreeParts(out, s, t);
    assert ReplaceAt(out, e) == out[..s] + e.with + out[t..];
    MarksOfThree(out[..s], out[s..t], out[t..]);
    MarksOfThree(out[..s], e.with, out[t..]);
  }

  lemma ThreeParts(out: string, s: nat, t: nat)
    requires s <= t <= |out|
    ensures out == out[..s] + out[s..t] + out[t..]
  {
  }

  lemma MarksOfThree(a: string, m: string, z: string)
    ensures Marks(a + m + z) == Marks(a) + Marks(m) + Marks(z)
  {
    MarksConcat(a, m);
    MarksConcat(a + m, z);
  }

  /** One replacement adds a mark, and removes one if it reaches the next token. */
  lemma ReplaceMarksOnce(edits: seq<Edit>, n: nat, out: string)
    requires n < |edits| && Marked(edits) && edits[n].start <= edits[n].end && edits[n].start <= |out|
    requires Marks(out) <= |edits| - n - 1 && (Marks(out) == |edits| - n - 1 ==> Chained(edits, n + 1))
    requires n + 1 < |edits| ==>
               edits[n].start <= edits[n + 1].start < |out| && out[edits[n + 1].start] == '<'
    ensures Marks(ReplaceAt(out, edits[n])) <= |edits| - n
    ensures Marks(ReplaceAt(out, edits[n])) == |edits| - n ==> Chained(edits, n)
  {
    ReplaceMarks(out, edits[n]);
    if n + 1 < |edits| && edits[n].end > edits[n + 1].start {
      CutMark(out, edits[n], edits[n + 1].start);
    }
  }

  /** The splice holds at most one mark per token, and all of them only when no span reaches the next. */
  lemma {:induction false} SpliceMarks(text: string, edits: seq<Edit>, n: nat)
    requires InText(edits, |text|) && Ordered(edits) && Marked(edits) && '<' !in text && n <= |edits|
    ensures Marks(SpliceFrom(text, edits, n)) <= |edits| - n
    ensures Marks(SpliceFrom(text, edits, n)) == |edits| - n ==> Chained(edits, n)
    decreases |edits| - n
  {
    if n == |edits| {
      NoMarks(text);
    } else {
      SpliceMarks(text, edits, n + 1);
      SpliceOpens(text, edits, n + 1);
      ReplaceMarksOnce(edits, n, SpliceFrom(text, edits, n + 1));
    }
  }

  lemma CutMark(out: string, e: Edit, at: nat)
    requires e.start <= at < e.end && at < |out| && out[at] == '<'
    ensures Marks(out[e.start..Min(e.end, |out|)]) >= 1
  {
    var cut := out[e.start..Min(e.end, |out|)];
    assert cut[at - e.start] == out[at];
    SomeMark(cut, at - e.start);
  }

  lemma MarksShowOverlap(text: string, edits: seq<Edit>)
    requires InText(edits, |text|) && Ordered(edits) && Marked(edits) && '<' !in text
    requires SpliceFrom(text, edits, 0) == Ideal(text, edits, 0, 0)
    ensures Chained(edits, 0)
  {
    IdealMarks(text, edits, 0, 0);
    SpliceMarks(text, edits, 0);
  }

  // ---------------------------------------------------------------------------
  // The exact condition
  // ---------------------------------------------------------------------------

  lemma DisjointIsIdeal(text: string, edits: seq<Edit>)
    requires InText(edits, |text|) && Disjoint(edits, |text|)
    ensures SpliceFrom(text, edits, 0) == Ideal(text, edits, 0, 0)
  {
    SpliceIsRender(text, edits, 0, 0);
    RenderIsIdeal(text, edits, 0, 0);
    assert text[..0] == "";
  }

  lemma ChainedIsDisjoint(edits: seq<Edit>, size: nat)
    requires InText(edits, size) && Chained(edits, 0)
    ensures Disjoint(edits, size)
  {
    forall i, j | 0 <= i < j < |edits| ensures edits[i].end <= edits[j].start {
      ChainedApart(edits, size, i, j);
    }
  }

  /**
   * For spans in text order that may overlap: the splice is the ideal text exactly when none reaches
   * into the next, provided no span is empty, or the text holds no character that opens a token.
   */
  lemma SpliceIsIdealIffDisjoint(text: string, edits: seq<Edit>)
    requires InText(edits, |text|) && Ordered(edits)
    requires NoneEmpty(edits) || (Marked(edits) && '<' !in text)
    ensures SpliceFrom(text, edits, 0) == Ideal(text, edits, 0, 0) <==> Disjoint(edits, |text|)
  {
    if Disjoint(edits, |text|) {
      DisjointIsIdeal(text, edits);
    } else if SpliceFrom(text, edits, 0) == Ideal(text, edits, 0, 0) {
      if NoneEmpty(edits) {
        LengthShowsOverlap(text, edits);
      } else {
        MarksShowOverlap(text, edits);
      }
      ChainedIsDisjoint(edits, |text|);
    }
  }

  lemma {:induction false} DecimalHasNoMark(n: nat)
    ensures '<' !in Decimal(n)
  {
    assert '<' !in DIGITS;
    if n >= 10 {
      DecimalHasNoMark(n / 10);
    }
  }

  function TokenTail(c: Category, n: nat): string {
    "REDACT:" + Name(c) + ":" + Decimal(n) + ">"
  }

  lemma TokenIsMarkAndTail(c: Category, n: nat)
    ensures Token(c, n) == ['<'] + TokenTail(c, n)
  {
    assert "<REDACT:" == ['<'] + "REDACT:";
    Regroup(['<'], "REDACT:", Name(c), ":", Decimal(n), ">");
  }

  lemma Regroup(a: string, b: string, c: string, d: string, e: string, f: string)
    ensures a + b + c + d + e + f == a + (b + c + d + e + f)
  {
  }

  lemma TokenTailHasNoMark(c: Category, n: nat)
    ensures '<' !in TokenTail(c, n)
  {
    NameHasNoMark(c);
    DecimalHasNoMark(n);
  }

  lemma OneMark(s: string)
    requires '<' !in s
    ensures Marks(['<'] + s) == 1
  {
    var m := ['<'];
    assert Init(m) == [] && Marks([]) == 0 && Marks(m) == 1;
    NoMarks(s);
    MarksConcat(m, s);
  }

  lemma TokenIsMarked(c: Category, n: nat)
    ensures Token(c, n) != "" && Token(c, n)[0] == '<' && Marks(Token(c, n)) == 1
  {
    TokenIsMarkAndTail(c, n);
    TokenTailHasNoMark(c, n);
    OneMark(TokenTail(c, n));
  }

  lemma NameHasNoMark(c: Category)
    ensures '<' !in Name(c)
  {
  }

  lemma OrderedEditsFacts(text: string, hits: seq<Hit>)
    requires AllLocated(text, hits)
    ensures InText(OrderedEdits(hits), |text|) && Ordered(OrderedEdits(hits)) && Marked(OrderedEdits(hits))
  {
    TextOrderFacts(hits);
    OrderedEditsLocated(text, hits);
    TextOrderNumbered(hits);
    var order, edits := TextOrder(hits), OrderedEdits(hits);
    forall i | 0 <= i < |edits|
      ensures edits[i].with != "" && edits[i].with[0] == '<' && Marks(edits[i].with) == 1
    {
      TokenIsMarked(order[i].category, Numbers(SortUp(RedactHits(hits)))[KeyOf(order[i])]);
    }
  }

  ghost predicate NoEmptyMatch(hits: seq<Hit>) {
    forall h :: h in RedactHits(hits) ==> h.start < h.end
  }

  /**
   * The redacted text of any evaluation holds every uncovered character and every token, in text
   * order, if and only if the redact hits are compatible, provided no redact match is empty, or the
   * text holds no '<'. Compatible hits suffice without that proviso.
   */
  lemma RedactionIsExact(text: string, hits: seq<Hit>)
    requires AllLocated(text, hits)
    ensures InText(OrderedEdits(hits), |text|)
    ensures PairwiseCompatible(RedactHits(hits)) ==> Redacted(text, hits) == Ideal(text, OrderedEdits(hits), 0, 0)
    ensures NoEmptyMatch(hits) || '<' !in text ==>
              (Redacted(text, hits) == Ideal(text, OrderedEdits(hits), 0, 0) <==> PairwiseCompatible(RedactHits(hits)))
  {
    OrderedEditsFacts(text, hits);
    RedactedIsSpliced(text, hits);
    DisjointMeansCompatible(text, hits);
    if PairwiseCompatible(RedactHits(hits)) {
      DisjointIsIdeal(text, OrderedEdits(hits));
    }
    if NoEmptyMatch(hits) {
      NoEmptyEdits(text, hits);
    }
    if NoEmptyMatch(hits) || '<' !in text {
      SpliceIsIdealIffDisjoint(text, OrderedEdits(hits));
    }
  }

  lemma NoEmptyEdits(text: string, hits: seq<Hit>)
    requires AllLocated(text, hits) && NoEmptyMatch(hits)
    ensures NoneEmpty(OrderedEdits(hits))
  {
    OrderedEditsLocated(text, hits);
    var order := TextOrder(hits);
    forall i | 0 <= i < |order| ensures order[i].start < order[i].end {
      TextOrderMember(hits, order[i]);
    }
  }

  /** Two spans that share no character. */
  predicate Apart(a: Hit, b: Hit) {
    a.end <= b.start || b.end <= a.start
  }

  /** For non-empty matches, compatible means sharing no character. */
  lemma CompatibleIsApart(hits: seq<Hit>)
    requires forall i :: 0 <= i < |hits| ==> hits[i].start < hits[i].end
    ensures PairwiseCompatible(hits) <==> forall i, j :: 0 <= i < j < |hits| ==> Apart(hits[i], hits[j])
  {
  }

  // ---------------------------------------------------------------------------
  // An empty match where another one starts
  // ---------------------------------------------------------------------------

  lemma TwoSorted(a: Hit, b: Hit)
    requires a.action.Redact? && b.action.Redact? && a.start == b.start
    ensures var both := [a, b];
            RedactHits(both) == SortUp(both) == SortDown(both) == both && Reversed(both) == [b, a]
  {
    var one, both := [a], [a, b];
    assert Init(both) == one && Last(both) == b && Init(one) == [] && Last(one) == a;
    assert one + [b] == both;
    assert RedactHits(one) == one && RedactHits(both) == both;
    assert SortUp([]) == [] && SortUp(one) == one;
    assert InsertUp(one, b) == both && InsertDown(one, b) == both;
    assert SortDown([]) == [] && SortDown(one) == one;
    assert Reversed(one) == one && [b] + one == [b, a];
  }

  /** Two redact hits that start together: the one found first is replaced first. */
  lemma StartingTogether(text: string, a: Hit, b: Hit)
    requires a.action.Redact? && b.action.Redact? && a.start == b.start && Located(text, a) && Located(text, b)
    ensures AllLocated(text, [a, b])
    ensures var e := OrderedEdits([a, b]);
            && |e| == 2 && e[0].start == b.start && e[0].end == b.end && e[1].start == a.start && e[1].end == a.end
            && Redacted(text, [a, b]) == ReplaceAt(ReplaceAt(text, e[1]), e[0])
  {
    var both := [a, b];
    TwoSorted(a, b);
    assert TextOrder(both) == [b, a];
    OrderedEditsLocated(text, both);
    RedactedIsSpliced(text, both);
    SpliceOfTwo(text, OrderedEdits(both));
  }

  lemma SpliceOfTwo(text: string, edits: seq<Edit>)
    requires |edits| == 2
    ensures SpliceFrom(text, edits, 0) == ReplaceAt(ReplaceAt(text, edits[1]), edits[0])
  {
    assert SpliceFrom(text, edits, 2) == text;
    assert SpliceFrom(text, edits, 1) == ReplaceAt(text, edits[1]);
  }

  lemma InsertThenCut(text: string, insert: Edit, cut: Edit)
    requires insert.start == insert.end == cut.start <= cut.end <= |text|
    ensures cut.end - cut.start <= |insert.with| ==>
              ReplaceAt(ReplaceAt(text, insert), cut)
              == text[..cut.start] + cut.with + insert.with[cut.end - cut.start..] + text[cut.start..]
  {
    var out, p := ReplaceAt(text, insert), cut.start;
    assert out == text[..p] + insert.with + text[p..];
    if cut.end - p <= |insert.with| {
      assert out[..p] == text[..p] && out[cut.end..] == insert.with[cut.end - p..] + text[p..];
    }
  }

  /**
   * An empty match, and a non-empty match found later that starts at the same place: they share no
   * character, yet the token of the empty match loses as many characters as the other match has, and
   * the text of that match leaks.
   */
  lemma EmptyMatchIsCut(text: string, empty: Hit, other: Hit)
    requires empty.action.Redact? && other.action.Redact? && Located(text, empty) && Located(text, other)
    requires empty.start == empty.end == other.start < other.end
    ensures Apart(empty, other) && !Compatible(empty, other)
    ensures var e, n := OrderedEdits([empty, other]), other.end - other.start;
            |e| == 2 && (n <= |e[1].with| ==>
              Redacted(text, [empty, other]) == text[..other.start] + e[0].with + e[1].with[n..] + text[other.start..])
  {
    StartingTogether(text, empty, other);
    InsertThenCut(text, OrderedEdits([empty, other])[1], OrderedEdits([empty, other])[0]);
  }

  /** At the start of a text, an empty match and then a match of the first character: the whole text leaks. */
  lemma EmptyMatchAtStart(text: string, empty: Hit, first: Hit)
    requires empty.action.Redact? && first.action.Redact? && Located(text, empty) && Located(text, first)
    requires empty.start == empty.end == first.start == 0 && first.end == 1
    ensures AllLocated(text, [empty, first]) && Apart(empty, first) && !Compatible(empty, first)
    ensures var e := OrderedEdits([empty, first]);
            && |e| == 2 && e[1].with != "" && e[1].with[0] == '<'
            && Redacted(text, [empty, first]) == e[0].with + e[1].with[1..] + text
  {
    StartingTogether(text, empty, first);
    OrderedEditsFacts(text, [empty, first]);
    EmptyMatchIsCut(text, empty, first);
    var e := OrderedEdits([empty, first]);
    CutAtStart(text, e[0].with, e[1].with[1..]);
  }

  lemma CutAtStart(text: string, a: string, b: string)
    ensures text[..0] + a + b + text[0..] == a + b + text
  {
  }

  /** Such hits exist: "ab", with an empty e-mail match and then a phone match of "a". */
  lemma EmptyMatchLeaks() returns (empty: Hit, first: Hit)
    ensures empty == Hit("mail", PiiEmail, Redact, 0, 0, "") && first == Hit("phone", PiiPhone, Redact, 0, 1, "a")
    ensures var e := OrderedEdits([empty, first]);
            && Apart(empty, first) && |e| == 2 && e[1].with != ""
            && Redacted("ab", [empty, first]) == e[0].with + e[1].with[1..] + "ab"
  {
    empty, first := Hit("mail", PiiEmail, Redact, 0, 0, ""), Hit("phone", PiiPhone, Redact, 0, 1, "a");
    var text := "ab";
    assert text[0..0] == "" && text[0..1] == "a";
    EmptyMatchAtStart(text, empty, first);
  }

  lemma IdealStep(text: string, edits: seq<Edit>, n: nat, pos: nat)
    requires InText(edits, |text|) && n < |edits| && pos <= |text|
    ensures Ideal(text, edits, n, pos) ==
            text[pos..Max(pos, edits[n].start)] + edits[n].with + Ideal(text, edits, n + 1, Max(pos, edits[n].end))
  {
    assert Ideal(text, edits, n, pos) == IdealAt(text, edits, n, pos);
  }

  /** A span over the whole text and an empty one at its start, with replacements in the same order. */
  lemma IdealOfTwo(text: string, edits: seq<Edit>)
    requires InText(edits, |text|) && |edits| == 2
    requires edits[0].start == edits[1].start == edits[1].end == 0 && edits[0].end == |text|
    ensures Ideal(text, edits, 0, 0) == edits[0].with + edits[1].with
  {
    IdealStep(text, edits, 0, 0);
    IdealStep(text, edits, 1, |text|);
    EmptyPieces(text, edits[0].with, edits[1].with);
    assert Ideal(text, edits, 2, |text|) == text[|text|..];
  }

  lemma EmptyPieces(text: string, a: string, b: string)
    ensures text[0..0] + a + (text[|text|..|text|] + b + text[|text|..]) == a + b
  {
  }

  lemma FirstNumberIsOne(a: Hit, b: Hit)
    ensures KeyOf(a) in Numbers([a, b]) && Numbers([a, b])[KeyOf(a)] == 1
  {
    var one, both := [a], [a, b];
    assert Init(both) == one && Init(one) == [];
    assert InCategory(map[], a.category) == {};
    assert Numbers(one) == map[KeyOf(a) := 1];
  }

  lemma FirstToken(text: string, a: Hit, b: Hit)
    requires a.action.Redact? && b.action.Redact? && a.start == b.start && Located(text, a) && Located(text, b)
    ensures |OrderedEdits([a, b])| == 2 && OrderedEdits([a, b])[1].with == Token(a.category, 1)
  {
    StartingTogether(text, a, b);
    TwoSorted(a, b);
    FirstNumberIsOne(a, b);
    assert TextOrder([a, b])[1] == a;
  }

  lemma CompletedCut(text: string, edits: seq<Edit>)
    requires InText(edits, |text|) && |edits| == 2 && edits[1].with == text
    requires edits[0].start == edits[1].start == edits[1].end == 0 && edits[0].end == |text|
    ensures ReplaceAt(ReplaceAt(text, edits[1]), edits[0]) == Ideal(text, edits, 0, 0)
  {
    IdealOfTwo(text, edits);
    InsertThenCut(text, edits[1], edits[0]);
    assert text[..0] + edits[0].with + text[|text|..] + text[0..] == edits[0].with + text;
  }

  /**
   * The proviso of the exact condition is needed: where the text itself reads like a token, a cut
   * token may be completed by what leaks.
   */
  lemma TokenLikeTextHidesCut(text: string, empty: Hit, all: Hit)
    requires empty.action.Redact? && all.action.Redact? && Located(text, empty) && Located(text, all)
    requires text == Token(empty.category, 1)
    requires empty.start == empty.end == all.start == 0 < all.end == |text|
    ensures AllLocated(text, [empty, all]) && !Compatible(empty, all)
    ensures InText(OrderedEdits([empty, all]), |text|)
    ensures Redacted(text, [empty, all]) == Ideal(text, OrderedEdits([empty, all]), 0, 0)
  {
    StartingTogether(text, empty, all);
    FirstToken(text, empty, all);
    OrderedEditsFacts(text, [empty, all]);
    CompletedCut(text, OrderedEdits([empty, all]));
  }
}
