/**
 * Model of the content-safety post-filter: severity choice, stable redaction tokens and the
 * right-to-left splice. Regular-expression matching is an arbitrary function from rules to spans.
 */
module PostFilter {
  import opened Common

  /** The closed category enum. */
  datatype Category =
    | SelfHarm | ViolenceThreat | SexualMinor | HateTargeted | SecretsLeak | PiiEmail | PiiPhone | PrivateKey

  datatype Action = Allow | Redact | Review | Block

  datatype Rule = Rule(tag: string, pattern: string, category: Category, action: Action)

  datatype Hit = Hit(tag: string, category: Category, action: Action, start: nat, end: nat, matched: string)

  datatype Decision = Decision(
    action: Action, tripped: set<Category>, hits: seq<Hit>, text: string, chosen: Option<string>)

  /** Spans the pattern of a rule matches in the text. */
  type Finder = Rule -> seq<(nat, nat)>

  function Severity(a: Action): nat {
    match a
    case Allow => 0
    case Redact => 1
    case Review => 2
    case Block => 3
  }

  // ---------------------------------------------------------------------------
  // Hits and the winning action
  // ---------------------------------------------------------------------------

  /** Matches lie inside the text. */
  ghost predicate Finds(find: Finder, text: string, rules: seq<Rule>) {
    forall r :: r in rules ==> forall i :: 0 <= i < |find(r)| ==> find(r)[i].0 <= find(r)[i].1 <= |text|
  }

  function RuleHits(text: string, r: Rule, spans: seq<(nat, nat)>): seq<Hit>
    requires forall i :: 0 <= i < |spans| ==> spans[i].0 <= spans[i].1 <= |text|
  {
    seq(|spans|, i requires 0 <= i < |spans| =>
      Hit(r.tag, r.category, r.action, spans[i].0, spans[i].1, text[spans[i].0..spans[i].1]))
  }

  function HitsOf(text: string, rules: seq<Rule>, find: Finder): seq<Hit>
    requires Finds(find, text, rules)
  {
    if rules == [] then [] else HitsOf(text, Init(rules), find) + RuleHits(text, Last(rules), find(Last(rules)))
  }

  /** The most severe action among the hits. */
  function Winning(hits: seq<Hit>): Action {
    if hits == [] then Allow
    else if Severity(Last(hits).action) > Severity(Winning(Init(hits))) then Last(hits).action
    else Winning(Init(hits))
  }

  lemma {:induction false} WinningIsMostSevere(hits: seq<Hit>)
    ensures forall h :: h in hits ==> Severity(h.action) <= Severity(Winning(hits))
    ensures hits != [] ==> exists h :: h in hits && h.action == Winning(hits)
  {
    if hits != [] {
      WinningIsMostSevere(Init(hits));
      assert hits == Init(hits) + [Last(hits)];
      assert Last(hits) in hits;
      if Init(hits) == [] {
        assert Winning(hits) == Last(hits).action;
      } else {
        var h :| h in Init(hits) && h.action == Winning(Init(hits));
        assert h in hits;
      }
    }
  }

  /** The action is block, review, redact or allow: the first of these that some hit asks for. */
  ghost predicate FirstAskedFor(hits: seq<Hit>, a: Action) {
    var block := exists h :: h in hits && h.action.Block?;
    var review := exists h :: h in hits && h.action.Review?;
    var redact := exists h :: h in hits && h.action.Redact?;
    && (a.Block? <==> block)
    && (a.Review? <==> !block && review)
    && (a.Redact? <==> !block && !review && redact)
    && (a.Allow? <==> !block && !review && !redact)
  }

  lemma {:induction false} WinningIsFirstAskedFor(hits: seq<Hit>)
    ensures FirstAskedFor(hits, Winning(hits))
  {
    if hits != [] {
      WinningIsFirstAskedFor(Init(hits));
      assert forall h :: h in hits <==> h in Init(hits) || h == Last(hits) by {
        assert hits == Init(hits) + [Last(hits)];
      }
    }
  }

  function Tripped(hits: seq<Hit>): set<Category> {
    set h | h in hits :: h.category
  }

  lemma {:induction false} HitsMember(text: string, rules: seq<Rule>, find: Finder, h: Hit)
    requires Finds(find, text, rules)
    ensures h in HitsOf(text, rules, find) <==> exists r :: r in rules && h in RuleHits(text, r, find(r))
  {
    if rules != [] {
      HitsMember(text, Init(rules), find, h);
      assert rules == Init(rules) + [Last(rules)];
    }
  }

  /** Reordering (or repeating) rules changes neither the action nor the tripped categories. */
  lemma ActionIgnoresRuleOrder(text: string, rules: seq<Rule>, reordered: seq<Rule>, find: Finder)
    requires Finds(find, text, rules) && forall r :: r in rules <==> r in reordered
    ensures Finds(find, text, reordered)
    ensures Winning(HitsOf(text, rules, find)) == Winning(HitsOf(text, reordered, find))
    ensures Tripped(HitsOf(text, rules, find)) == Tripped(HitsOf(text, reordered, find))
  {
    var a, b := HitsOf(text, rules, find), HitsOf(text, reordered, find);
    forall h ensures h in a <==> h in b {
      HitsMember(text, rules, find, h);
      HitsMember(text, reordered, find, h);
    }
    SameHitsSameWinner(a, b);
    assert Tripped(a) == Tripped(b);
  }

  /** A rule with action allow trips its category like any other; only the action stays allow. */
  lemma AllowRulesTrip(text: string, r: Rule, find: Finder)
    requires Finds(find, text, [r]) && r.action.Allow? && find(r) != []
    ensures var hits := HitsOf(text, [r], find);
            |hits| == |find(r)| && Tripped(hits) == {r.category} && Winning(hits) == Allow
  {
    var rules := [r];
    assert Init(rules) == [] && Last(rules) == r;
    var hits := HitsOf(text, rules, find);
    assert Finds(find, text, []) && HitsOf(text, [], find) == [];
    assert hits == [] + RuleHits(text, r, find(r));
    assert hits[0] in hits && hits[0].category == r.category;
    WinningIsMostSevere(hits);
  }

  lemma SameHitsSameWinner(a: seq<Hit>, b: seq<Hit>)
    requires forall h :: h in a <==> h in b
    ensures Winning(a) == Winning(b)
  {
    WinningIsMostSevere(a);
    WinningIsMostSevere(b);
    assert |a| > 0 ==> a[0] in b;
    assert |b| > 0 ==> b[0] in a;
  }

  // ---------------------------------------------------------------------------
  // Tokens
  // ---------------------------------------------------------------------------

  function Name(c: Category): string {
    match c
    case SelfHarm => "SELF_HARM"
    case ViolenceThreat => "VIOLENCE_THREAT"
    case SexualMinor => "SEXUAL_MINOR"
    case HateTargeted => "HATE_TARGETED"
    case SecretsLeak => "SECRETS_LEAK"
    case PiiEmail => "PII_EMAIL"
    case PiiPhone => "PII_PHONE"
    case PrivateKey => "PRIVATE_KEY"
  }

  function Token(c: Category, n: nat): string {
    "<REDACT:" + Name(c) + ":" + Decimal(n) + ">"
  }

  lemma {:induction false} DecimalInjective(m: nat, n: nat)
    requires Decimal(m) == Decimal(n)
    ensures m == n
  {
    assert forall i, j :: 0 <= i < j < 10 ==> DIGITS[i] != DIGITS[j];
    var dm, dn := Decimal(m), Decimal(n);
    assert dm[|dm| - 1] == DIGITS[m % 10] && dn[|dn| - 1] == DIGITS[n % 10];
    DecimalLength(m);
    DecimalLength(n);
    if m >= 10 && n >= 10 {
      assert dm[..|dm| - 1] == Decimal(m / 10) && dn[..|dn| - 1] == Decimal(n / 10);
      DecimalInjective(m / 10, n / 10);
    }
  }

  lemma DecimalLength(n: nat)
    ensures |Decimal(n)| >= 1 && (|Decimal(n)| == 1 <==> n < 10)
  {
  }

  lemma NameFacts(c: Category)
    ensures ':' !in Name(c) && |Name(c)| >= 9
  {
  }

  lemma NameInjective(c: Category, d: Category)
    requires Name(c) == Name(d)
    ensures c == d
  {
    assert |Name(c)| == |Name(d)| && Name(c)[2] == Name(d)[2] && Name(c)[4] == Name(d)[4];
  }

  lemma SplitAtColon(a: string, x: string, b: string, y: string)
    requires ':' !in a && ':' !in b && a + ":" + x == b + ":" + y
    ensures a == b && x == y
  {
    var s, t := a + ":" + x, b + ":" + y;
    assert s[|a|] == ':' && t[|b|] == ':';
    assert forall i :: 0 <= i < |a| ==> s[i] == a[i];
    assert forall i :: 0 <= i < |b| ==> t[i] == b[i];
    assert |a| == |b|;
    assert a == s[..|a|] && b == t[..|b|];
    assert x == s[|a| + 1..] && y == t[|b| + 1..];
  }

  /** A token is a fixed opening, the category name, a colon and the rest. */
  lemma TokenShape(c: Category, n: nat)
    ensures Token(c, n)[8..] == Name(c) + ":" + (Decimal(n) + ">")
  {
    RegroupToken("<REDACT:", Name(c), Decimal(n), ">");
  }

  lemma RegroupToken(a: string, b: string, c: string, d: string)
    ensures (a + b + ":" + c + d)[|a|..] == b + ":" + (c + d)
  {
    assert a + b + ":" + c + d == a + (b + ":" + (c + d));
  }

  lemma TokenInjective(c: Category, m: nat, d: Category, n: nat)
    requires Token(c, m) == Token(d, n)
    ensures c == d && m == n
  {
    NameFacts(c);
    NameFacts(d);
    TokenShape(c, m);
    TokenShape(d, n);
    SplitAtColon(Name(c), Decimal(m) + ">", Name(d), Decimal(n) + ">");
    NameInjective(c, d);
    DropLast(Decimal(m), Decimal(n), '>');
    DecimalInjective(m, n);
  }

  lemma DropLast(a: string, b: string, c: char)
    requires a + [c] == b + [c]
    ensures a == b
  {
    assert a == (a + [c])[..|a|] && b == (b + [c])[..|b|];
  }

  type Key = (Category, string)

  function KeyOf(h: Hit): Key {
    (h.category, h.matched)
  }

  function InCategory(m: map<Key, nat>, c: Category): set<Key> {
    set k | k in m && k.0 == c
  }

  /** Numbers per category, given out to distinct matched values in order of appearance. */
  function Numbers(hits: seq<Hit>): map<Key, nat> {
    if hits == [] then map[]
    else
      var m, k := Numbers(Init(hits)), KeyOf(Last(hits));
      if k in m then m else m[k := |InCategory(m, k.0)| + 1]
  }

  lemma {:induction false} NumbersFacts(hits: seq<Hit>)
    ensures forall h :: h in hits ==> KeyOf(h) in Numbers(hits)
    ensures forall k :: k in Numbers(hits) ==> 1 <= Numbers(hits)[k] <= |InCategory(Numbers(hits), k.0)|
    ensures forall j, k :: j in Numbers(hits) && k in Numbers(hits) && j.0 == k.0 ==>
              (Numbers(hits)[j] == Numbers(hits)[k] ==> j == k)
  {
    if hits != [] {
      NumbersFacts(Init(hits));
      assert hits == Init(hits) + [Last(hits)];
      var m, k := Numbers(Init(hits)), KeyOf(Last(hits));
      if k !in m {
        NumbersGrow(m, k);
      }
    }
  }

  lemma NumbersGrow(m: map<Key, nat>, k: Key)
    requires k !in m
    ensures var m' := m[k := |InCategory(m, k.0)| + 1];
            && |InCategory(m', k.0)| == |InCategory(m, k.0)| + 1
            && forall c :: c != k.0 ==> InCategory(m', c) == InCategory(m, c)
  {
    var m' := m[k := |InCategory(m, k.0)| + 1];
    assert InCategory(m', k.0) == InCategory(m, k.0) + {k};
  }

  function TokenOf(numbers: map<Key, nat>, h: Hit): string
    requires KeyOf(h) in numbers
  {
    Token(h.category, numbers[KeyOf(h)])
  }

  /** Two redacted hits share a token exactly when they share category and matched value. */
  lemma TokensIdentifyValues(hits: seq<Hit>, a: Hit, b: Hit)
    requires a in hits && b in hits
    ensures KeyOf(a) in Numbers(hits) && KeyOf(b) in Numbers(hits)
    ensures TokenOf(Numbers(hits), a) == TokenOf(Numbers(hits), b) <==>
              a.category == b.category && a.matched == b.matched
  {
    NumbersFacts(hits);
    var m := Numbers(hits);
    if TokenOf(m, a) == TokenOf(m, b) {
      TokenInjective(a.category, m[KeyOf(a)], b.category, m[KeyOf(b)]);
    }
  }

  // ---------------------------------------------------------------------------
  // Splicing
  // ---------------------------------------------------------------------------

  datatype Edit = Edit(start: nat, end: nat, with: string)

  /** Spans in ascending order, possibly empty, none reaching into the next. */
  ghost predicate Disjoint(edits: seq<Edit>, n: nat) {
    && (forall i :: 0 <= i < |edits| ==> edits[i].start <= edits[i].end <= n)
    && (forall i, j :: 0 <= i < j < |edits| ==> edits[i].end <= edits[j].start)
  }

  /** One in-place replacement; a slice past the end is empty, as in the source language. */
  function ReplaceAt(out: string, e: Edit): string {
    out[..if e.start <= |out| then e.start else |out|] + e.with + out[if e.end <= |out| then e.end else |out|..]
  }

  /** Replacements `n..` applied from the last down. */
  function SpliceFrom(text: string, edits: seq<Edit>, n: nat): string
    requires n <= |edits|
    decreases |edits| - n
  {
    if n == |edits| then text else ReplaceAt(SpliceFrom(text, edits, n + 1), edits[n])
  }

  /** Left-to-right rendering: gap, replacement, gap, replacement, ..., tail. */
  function Render(text: string, edits: seq<Edit>, n: nat, pos: nat): string
    requires Disjoint(edits, |text|) && n <= |edits| && pos <= |text|
    requires n < |edits| ==> pos <= edits[n].start
    decreases |edits| - n, 1
  {
    if n == |edits| then text[pos..] else RenderAt(text, edits, n, pos)
  }

  function RenderAt(text: string, edits: seq<Edit>, n: nat, pos: nat): string
    requires Disjoint(edits, |text|) && n < |edits| && pos <= edits[n].start
    decreases |edits| - n, 0
  {
    text[pos..edits[n].start] + edits[n].with + Render(text, edits, n + 1, edits[n].end)
  }

  lemma {:induction false} SpliceIsRender(text: string, edits: seq<Edit>, n: nat, pos: nat)
    requires Disjoint(edits, |text|) && n <= |edits| && pos <= |text| && (n < |edits| ==> pos <= edits[n].start)
    ensures SpliceFrom(text, edits, n) == text[..pos] + Render(text, edits, n, pos)
    decreases |edits| - n
  {
    if n == |edits| {
      assert text == text[..pos] + text[pos..];
    } else {
      var e := edits[n];
      SpliceIsRender(text, edits, n + 1, e.end);
      var out := SpliceFrom(text, edits, n + 1);
      assert out[..e.start] == text[..e.start] && out[e.end..] == Render(text, edits, n + 1, e.end);
      assert text[..e.start] == text[..pos] + text[pos..e.start];
    }
  }

  function Cut(out: string, a: nat, b: nat): string {
    if a <= b <= |out| then out[a..b] else ""
  }

  /**
   * Reads the rendered text from `at` on, copying gaps and putting a given value where each
   * replacement stands. It looks at spans and replacements, never at the original text.
   */
  function PutBack(out: string, edits: seq<Edit>, values: seq<string>, n: nat, pos: nat, at: nat): string
    requires n <= |edits| == |values|
    decreases |edits| - n, 1
  {
    if n == |edits| then Cut(out, at, |out|) else PutBackAt(out, edits, values, n, pos, at)
  }

  function PutBackAt(out: string, edits: seq<Edit>, values: seq<string>, n: nat, pos: nat, at: nat): string
    requires n < |edits| == |values|
    decreases |edits| - n, 0
  {
    var e := edits[n];
    var s := if pos <= e.start then at + (e.start - pos) else at;
    Cut(out, at, s) + values[n] + PutBack(out, edits, values, n + 1, e.end, s + |e.with|)
  }

  lemma TailPieces(out: string, at: nat, gap: string, token: string, rest: string)
    requires at <= |out| && out[at..] == gap + token + rest
    ensures at + |gap| + |token| <= |out|
    ensures Cut(out, at, at + |gap|) == gap && out[at + |gap| + |token|..] == rest
  {
    var n := |gap|;
    assert out[at..at + n] == out[at..][..n];
    assert out[at + n + |token|..] == out[at..][n + |token|..];
  }

  lemma ThreeSlices(text: string, a: nat, b: nat, c: nat, gap: string, value: string, rest: string)
    requires a <= b <= c <= |text| && gap == text[a..b] && value == text[b..c] && rest == text[c..]
    ensures gap + value + rest == text[a..]
  {
  }

  /** Each value is what stood in the text where its edit applies. */
  ghost predicate ValuesOf(text: string, edits: seq<Edit>, values: seq<string>) {
    && |edits| == |values|
    && forall i :: 0 <= i < |edits| ==> edits[i].start <= edits[i].end <= |text|
                                        && values[i] == text[edits[i].start..edits[i].end]
  }

  /** Putting the original values back at the rendered positions recovers the text. */
  lemma {:induction false} PutBackUndoesRender(
    text: string, edits: seq<Edit>, values: seq<string>, n: nat, pos: nat, out: string, at: nat)
    requires Disjoint(edits, |text|) && ValuesOf(text, edits, values)
    requires n <= |edits| && pos <= |text| && (n < |edits| ==> pos <= edits[n].start)
    requires at <= |out| && out[at..] == Render(text, edits, n, pos)
    ensures PutBack(out, edits, values, n, pos, at) == text[pos..]
    decreases |edits| - n
  {
    if n < |edits| {
      var next := at + (edits[n].start - pos) + |edits[n].with|;
      NextPiece(text, edits, n, pos, out, at);
      PutBackUndoesRender(text, edits, values, n + 1, edits[n].end, out, next);
      PutBackStep(out, edits, values, n, pos, at);
      ThreeSlices(text, pos, edits[n].start, edits[n].end, Cut(out, at, at + (edits[n].start - pos)), values[n],
                  PutBack(out, edits, values, n + 1, edits[n].end, next));
    }
  }

  /** Past a gap and its replacement the rendered text goes on with the next piece. */
  lemma NextPiece(text: string, edits: seq<Edit>, n: nat, pos: nat, out: string, at: nat)
    requires Disjoint(edits, |text|) && n < |edits| && pos <= edits[n].start
    requires at <= |out| && out[at..] == Render(text, edits, n, pos)
    ensures var s := at + (edits[n].start - pos);
            && s + |edits[n].with| <= |out| && Cut(out, at, s) == text[pos..edits[n].start]
            && out[s + |edits[n].with|..] == Render(text, edits, n + 1, edits[n].end)
  {
    RenderStep(text, edits, n, pos);
    TailPieces(out, at, text[pos..edits[n].start], edits[n].with, Render(text, edits, n + 1, edits[n].end));
  }

  lemma RenderStep(text: string, edits: seq<Edit>, n: nat, pos: nat)
    requires Disjoint(edits, |text|) && n < |edits| && pos <= edits[n].start
    ensures Render(text, edits, n, pos)
            == text[pos..edits[n].start] + edits[n].with + Render(text, edits, n + 1, edits[n].end)
  {
  }

  lemma PutBackStep(out: string, edits: seq<Edit>, values: seq<string>, n: nat, pos: nat, at: nat)
    requires n < |edits| == |values| && pos <= edits[n].start
    ensures var s := at + (edits[n].start - pos);
            PutBack(out, edits, values, n, pos, at)
            == Cut(out, at, s) + values[n] + PutBack(out, edits, values, n + 1, edits[n].end, s + |edits[n].with|)
  {
  }

  // ---------------------------------------------------------------------------
  // From hits in any order to edits in text order
  // ---------------------------------------------------------------------------

  /** Stable insertion, ascending by start. */
  function InsertUp(s: seq<Hit>, h: Hit): seq<Hit> {
    if s == [] || Last(s).start <= h.start then s + [h] else InsertUp(Init(s), h) + [Last(s)]
  }

  function SortUp(s: seq<Hit>): seq<Hit> {
    if s == [] then [] else InsertUp(SortUp(Init(s)), Last(s))
  }

  /** Stable insertion, descending by start. */
  function InsertDown(s: seq<Hit>, h: Hit): seq<Hit> {
    if s == [] || Last(s).start >= h.start then s + [h] else InsertDown(Init(s), h) + [Last(s)]
  }

  function SortDown(s: seq<Hit>): seq<Hit> {
    if s == [] then [] else InsertDown(SortDown(Init(s)), Last(s))
  }

  function Reversed(s: seq<Hit>): seq<Hit> {
    if s == [] then [] else [Last(s)] + Reversed(Init(s))
  }

  lemma {:induction false} InsertUpMember(s: seq<Hit>, h: Hit, x: Hit)
    ensures x in InsertUp(s, h) <==> x in s || x == h
  {
    if s != [] && Last(s).start > h.start {
      InsertUpMember(Init(s), h, x);
      assert s == Init(s) + [Last(s)];
    }
  }

  lemma {:induction false} SortUpMember(s: seq<Hit>, x: Hit)
    ensures x in SortUp(s) <==> x in s
  {
    if s != [] {
      SortUpMember(Init(s), x);
      InsertUpMember(SortUp(Init(s)), Last(s), x);
      assert s == Init(s) + [Last(s)];
    }
  }

  lemma {:induction false} InsertDownMember(s: seq<Hit>, h: Hit, x: Hit)
    ensures x in InsertDown(s, h) <==> x in s || x == h
  {
    if s != [] && Last(s).start < h.start {
      InsertDownMember(Init(s), h, x);
      assert s == Init(s) + [Last(s)];
    }
  }

  lemma {:induction false} SortDownMember(s: seq<Hit>, x: Hit)
    ensures x in SortDown(s) <==> x in s
  {
    if s != [] {
      SortDownMember(Init(s), x);
      InsertDownMember(SortDown(Init(s)), Last(s), x);
      assert s == Init(s) + [Last(s)];
    }
  }

  lemma {:induction false} ReversedMember(s: seq<Hit>, x: Hit)
    ensures x in Reversed(s) <==> x in s
  {
    if s != [] {
      ReversedMember(Init(s), x);
      assert s == Init(s) + [Last(s)];
    }
  }

  lemma {:induction false} ReversedAt(s: seq<Hit>, i: nat)
    requires i < |s|
    ensures |Reversed(s)| == |s| && Reversed(s)[i] == s[|s| - 1 - i]
  {
    if |s| > 1 {
      ReversedAt(Init(s), if i > 0 then i - 1 else 0);
    }
  }

  lemma ReversedLength(s: seq<Hit>)
    ensures |Reversed(s)| == |s|
  {
    if s != [] {
      ReversedAt(s, 0);
    }
  }

  lemma ReversedTwice(s: seq<Hit>)
    ensures Reversed(Reversed(s)) == s
  {
    ReversedLength(s);
    ReversedLength(Reversed(s));
    forall i | 0 <= i < |s| ensures Reversed(Reversed(s))[i] == s[i] {
      ReversedAt(s, |s| - 1 - i);
      ReversedAt(Reversed(s), i);
    }
  }

  // ---------------------------------------------------------------------------
  // Hits the splice keeps apart
  // ---------------------------------------------------------------------------

  /**
   * Of two hits, `a` found before `b`, the splice keeps both tokens whole: neither span reaches into
   * the other, and if they start together the one found later is empty.
   */
  predicate Compatible(a: Hit, b: Hit) {
    if a.start < b.start then a.end <= b.start else b.end <= a.start
  }

  ghost predicate PairwiseCompatible(hits: seq<Hit>) {
    forall i, j :: 0 <= i < j < |hits| ==> Compatible(hits[i], hits[j])
  }

  ghost predicate CompatibleBefore(s: seq<Hit>, h: Hit) {
    forall x :: x in s ==> Compatible(x, h)
  }

  lemma CompatibleSnoc(s: seq<Hit>, h: Hit)
    ensures PairwiseCompatible(s + [h]) <==> PairwiseCompatible(s) && CompatibleBefore(s, h)
  {
    var t := s + [h];
    if PairwiseCompatible(t) {
      forall i, j | 0 <= i < j < |s| ensures Compatible(s[i], s[j]) {
        assert t[i] == s[i] && t[j] == s[j];
      }
      forall x | x in s ensures Compatible(x, h) {
        var i :| 0 <= i < |s| && s[i] == x;
        assert t[i] == x && t[|s|] == h;
      }
    }
  }

  lemma CompatibleBeforeSnoc(s: seq<Hit>, x: Hit, h: Hit)
    ensures CompatibleBefore(s + [x], h) <==> CompatibleBefore(s, h) && Compatible(x, h)
  {
    assert x in s + [x];
    forall y | y in s ensures y in s + [x] {
    }
  }

  /** Hits that start at different places may change places. */
  lemma CompatibleSwap(s: seq<Hit>, x: Hit, h: Hit)
    requires x.start != h.start
    ensures PairwiseCompatible(s + [x] + [h]) <==> PairwiseCompatible(s + [h] + [x])
  {
    CompatibleSnoc(s + [x], h);
    CompatibleSnoc(s + [h], x);
    CompatibleSnoc(s, x);
    CompatibleSnoc(s, h);
    CompatibleBeforeSnoc(s, x, h);
    CompatibleBeforeSnoc(s, h, x);
  }

  lemma CompatibleRegrouped(front: seq<Hit>, s: seq<Hit>, x: Hit)
    requires PairwiseCompatible(front) <==> PairwiseCompatible(s)
    requires forall y :: y in front <==> y in s
    ensures PairwiseCompatible(front + [x]) <==> PairwiseCompatible(s + [x])
  {
    CompatibleSnoc(front, x);
    CompatibleSnoc(s, x);
  }

  lemma {:induction false} InsertUpCompatible(s: seq<Hit>, h: Hit)
    ensures PairwiseCompatible(InsertUp(s, h)) <==> PairwiseCompatible(s + [h])
  {
    if s != [] && Last(s).start > h.start {
      InsertUpCompatible(Init(s), h);
      forall y ensures y in InsertUp(Init(s), h) <==> y in Init(s) + [h] {
        InsertUpMember(Init(s), h, y);
      }
      CompatibleRegrouped(InsertUp(Init(s), h), Init(s) + [h], Last(s));
      CompatibleSwap(Init(s), Last(s), h);
      assert s == Init(s) + [Last(s)];
    }
  }

  lemma {:induction false} InsertDownCompatible(s: seq<Hit>, h: Hit)
    ensures PairwiseCompatible(InsertDown(s, h)) <==> PairwiseCompatible(s + [h])
  {
    if s != [] && Last(s).start < h.start {
      InsertDownCompatible(Init(s), h);
      forall y ensures y in InsertDown(Init(s), h) <==> y in Init(s) + [h] {
        InsertDownMember(Init(s), h, y);
      }
      CompatibleRegrouped(InsertDown(Init(s), h), Init(s) + [h], Last(s));
      CompatibleSwap(Init(s), Last(s), h);
      assert s == Init(s) + [Last(s)];
    }
  }

  lemma SortUpOneMore(s: seq<Hit>, x: Hit)
    requires PairwiseCompatible(SortUp(s)) <==> PairwiseCompatible(s)
    ensures PairwiseCompatible(InsertUp(SortUp(s), x)) <==> PairwiseCompatible(s + [x])
  {
    InsertUpCompatible(SortUp(s), x);
    forall y ensures y in SortUp(s) <==> y in s {
      SortUpMember(s, y);
    }
    CompatibleRegrouped(SortUp(s), s, x);
  }

  lemma {:induction false} SortUpCompatible(s: seq<Hit>)
    ensures PairwiseCompatible(SortUp(s)) <==> PairwiseCompatible(s)
  {
    if s != [] {
      SortUpCompatible(Init(s));
      SortUpOneMore(Init(s), Last(s));
      assert s == Init(s) + [Last(s)];
    }
  }

  lemma SortDownOneMore(s: seq<Hit>, x: Hit)
    requires PairwiseCompatible(SortDown(s)) <==> PairwiseCompatible(s)
    ensures PairwiseCompatible(InsertDown(SortDown(s), x)) <==> PairwiseCompatible(s + [x])
  {
    InsertDownCompatible(SortDown(s), x);
    forall y ensures y in SortDown(s) <==> y in s {
      SortDownMember(s, y);
    }
    CompatibleRegrouped(SortDown(s), s, x);
  }

  lemma {:induction false} SortDownCompatible(s: seq<Hit>)
    ensures PairwiseCompatible(SortDown(s)) <==> PairwiseCompatible(s)
  {
    if s != [] {
      SortDownCompatible(Init(s));
      SortDownOneMore(Init(s), Last(s));
      assert s == Init(s) + [Last(s)];
    }
  }

  ghost predicate Falling(s: seq<Hit>) {
    forall i, j :: 0 <= i < j < |s| ==> s[i].start >= s[j].start
  }

  lemma {:induction false} InsertDownFalling(s: seq<Hit>, h: Hit)
    requires Falling(s)
    ensures Falling(InsertDown(s, h))
  {
    if s != [] && Last(s).start < h.start {
      InsertDownFalling(Init(s), h);
      var front := InsertDown(Init(s), h);
      forall i | 0 <= i < |front| ensures front[i].start >= Last(s).start {
        InsertDownMember(Init(s), h, front[i]);
        if front[i] != h {
          var k :| 0 <= k < |Init(s)| && Init(s)[k] == front[i];
        }
      }
    }
  }

  lemma {:induction false} SortDownFalling(s: seq<Hit>)
    ensures Falling(SortDown(s))
  {
    if s != [] {
      SortDownFalling(Init(s));
      InsertDownFalling(SortDown(Init(s)), Last(s));
    }
  }

  // ---------------------------------------------------------------------------
  // The redaction
  // ---------------------------------------------------------------------------

  function EditOf(numbers: map<Key, nat>, h: Hit): Edit
    requires KeyOf(h) in numbers
  {
    Edit(h.start, h.end, TokenOf(numbers, h))
  }

  function EditsOf(numbers: map<Key, nat>, hits: seq<Hit>): seq<Edit>
    requires forall h :: h in hits ==> KeyOf(h) in numbers
  {
    seq(|hits|, i requires 0 <= i < |hits| => EditOf(numbers, hits[i]))
  }

  /** Replacing the listed hits one after another. */
  function Applied(text: string, numbers: map<Key, nat>, hits: seq<Hit>): string
    requires forall h :: h in hits ==> KeyOf(h) in numbers
  {
    if hits == [] then text else ReplaceAt(Applied(text, numbers, Init(hits)), EditOf(numbers, Last(hits)))
  }

  lemma {:induction false} AppliedReversed(text: string, numbers: map<Key, nat>, hits: seq<Hit>, n: nat)
    requires n <= |hits| && forall h :: h in hits ==> KeyOf(h) in numbers
    ensures forall h :: h in Reversed(hits[n..]) ==> KeyOf(h) in numbers
    ensures Applied(text, numbers, Reversed(hits[n..])) == SpliceFrom(text, EditsOf(numbers, hits), n)
    decreases |hits| - n
  {
    forall h | h in Reversed(hits[n..]) ensures KeyOf(h) in numbers {
      ReversedMember(hits[n..], h);
    }
    if n < |hits| {
      AppliedReversed(text, numbers, hits, n + 1);
      ReversedFirst(hits[n..]);
      assert hits[n..][1..] == hits[n + 1..];
      var r := Reversed(hits[n..]);
      assert Init(r) == Reversed(hits[n + 1..]) && Last(r) == hits[n];
    }
  }

  lemma {:induction false} ReversedFirst(s: seq<Hit>)
    requires s != []
    ensures Reversed(s) == Reversed(s[1..]) + [s[0]]
  {
    if |s| > 1 {
      ReversedFirst(Init(s));
      assert Init(s)[1..] == Init(s[1..]);
    } else {
      assert Init(s) == [] && s[1..] == [];
    }
  }

  function RedactHits(hits: seq<Hit>): seq<Hit> {
    if hits == [] then []
    else if Last(hits).action.Redact? then RedactHits(Init(hits)) + [Last(hits)]
    else RedactHits(Init(hits))
  }

  /** The redacted text: number the sorted hits, then replace from the rightmost start to the left. */
  function Redacted(text: string, hits: seq<Hit>): string {
    var up := SortUp(RedactHits(hits));
    NumbersFacts(up);
    DownMembers(up);
    Applied(text, Numbers(up), SortDown(up))
  }

  lemma DownMembers(s: seq<Hit>)
    ensures forall x :: x in SortDown(s) ==> x in s
  {
    forall x | x in SortDown(s) ensures x in s {
      SortDownMember(s, x);
    }
  }

  /** The redact hits left to right, as the splice meets them from the other end. */
  function TextOrder(hits: seq<Hit>): seq<Hit> {
    Reversed(SortDown(SortUp(RedactHits(hits))))
  }

  lemma TextOrderMember(hits: seq<Hit>, h: Hit)
    ensures h in TextOrder(hits) <==> h in RedactHits(hits)
    ensures h in RedactHits(hits) <==> h in SortUp(RedactHits(hits))
  {
    ReversedMember(SortDown(SortUp(RedactHits(hits))), h);
    SortDownMember(SortUp(RedactHits(hits)), h);
    SortUpMember(RedactHits(hits), h);
  }

  lemma TextOrderNumbered(hits: seq<Hit>)
    ensures forall h :: h in TextOrder(hits) ==> KeyOf(h) in Numbers(SortUp(RedactHits(hits)))
  {
    NumbersFacts(SortUp(RedactHits(hits)));
    forall h | h in TextOrder(hits) ensures KeyOf(h) in Numbers(SortUp(RedactHits(hits))) {
      TextOrderMember(hits, h);
    }
  }

  ghost predicate StartsAscend(order: seq<Hit>) {
    forall i, j :: 0 <= i < j < |order| ==> order[i].start <= order[j].start
  }

  ghost predicate NoneReachesNext(order: seq<Hit>) {
    forall i, j :: 0 <= i < j < |order| ==> order[i].end <= order[j].start
  }

  /** Starts ascend in text order, and no span reaches into the next exactly when the hits are compatible. */
  lemma TextOrderFacts(hits: seq<Hit>)
    ensures StartsAscend(TextOrder(hits))
    ensures NoneReachesNext(TextOrder(hits)) <==> PairwiseCompatible(RedactHits(hits))
  {
    var up := SortUp(RedactHits(hits));
    SortUpCompatible(RedactHits(hits));
    SortDownCompatible(up);
    SortDownFalling(up);
    ReversedOrder(SortDown(up), TextOrder(hits));
  }

  lemma ReversedOrder(down: seq<Hit>, order: seq<Hit>)
    requires Falling(down) && order == Reversed(down)
    ensures StartsAscend(order)
    ensures NoneReachesNext(order) <==> PairwiseCompatible(down)
  {
    var n := |down|;
    ReversedLength(down);
    forall i | 0 <= i < n ensures order[i] == down[n - 1 - i] {
      ReversedAt(down, i);
    }
    if NoneReachesNext(order) {
      forall i, j | 0 <= i < j < n ensures Compatible(down[i], down[j]) {
        assert order[n - 1 - j].end <= order[n - 1 - i].start;
      }
    }
    if PairwiseCompatible(down) {
      forall i, j | 0 <= i < j < n ensures order[i].end <= order[j].start {
        assert Compatible(down[n - 1 - j], down[n - 1 - i]);
      }
    }
  }

  /** The replacements in text order. */
  function OrderedEdits(hits: seq<Hit>): seq<Edit> {
    TextOrderNumbered(hits);
    EditsOf(Numbers(SortUp(RedactHits(hits))), TextOrder(hits))
  }

  /** A match lies in the text; it may be empty. */
  ghost predicate Located(text: string, h: Hit) {
    h.start <= h.end <= |text| && h.matched == text[h.start..h.end]
  }

  ghost predicate AllLocated(text: string, hits: seq<Hit>) {
    forall h :: h in RedactHits(hits) ==> Located(text, h)
  }

  lemma {:induction false} RedactHitsMember(hits: seq<Hit>, h: Hit)
    ensures h in RedactHits(hits) <==> h in hits && h.action.Redact?
  {
    if hits != [] {
      RedactHitsMember(Init(hits), h);
      assert hits == Init(hits) + [Last(hits)];
    }
  }

  /** The hits of an evaluation always lie in the text. */
  lemma FoundHitsAreLocated(text: string, rules: seq<Rule>, find: Finder)
    requires Finds(find, text, rules)
    ensures AllLocated(text, HitsOf(text, rules, find))
  {
    forall h | h in RedactHits(HitsOf(text, rules, find)) ensures Located(text, h) {
      RedactHitsMember(HitsOf(text, rules, find), h);
      HitsMember(text, rules, find, h);
    }
  }

  lemma OrderedEditsLocated(text: string, hits: seq<Hit>)
    requires AllLocated(text, hits)
    ensures |OrderedEdits(hits)| == |TextOrder(hits)|
    ensures forall i :: 0 <= i < |TextOrder(hits)| ==>
              && Located(text, TextOrder(hits)[i])
              && OrderedEdits(hits)[i].start == TextOrder(hits)[i].start
              && OrderedEdits(hits)[i].end == TextOrder(hits)[i].end
  {
    var order := TextOrder(hits);
    forall i | 0 <= i < |order| ensures Located(text, order[i]) {
      TextOrderMember(hits, order[i]);
    }
  }

  /** The edits in text order are disjoint exactly when the hits are compatible. */
  lemma DisjointMeansCompatible(text: string, hits: seq<Hit>)
    requires AllLocated(text, hits)
    ensures Disjoint(OrderedEdits(hits), |text|) <==> PairwiseCompatible(RedactHits(hits))
  {
    TextOrderFacts(hits);
    OrderedEditsLocated(text, hits);
    var order, edits := TextOrder(hits), OrderedEdits(hits);
    if Disjoint(edits, |text|) {
      forall i, j | 0 <= i < j < |order| ensures order[i].end <= order[j].start {
        assert edits[i].end <= edits[j].start;
      }
    }
  }

  /** Whatever the hits, the redaction is the splice of the edits in text order, last one first. */
  lemma RedactedIsSpliced(text: string, hits: seq<Hit>)
    ensures Redacted(text, hits) == SpliceFrom(text, OrderedEdits(hits), 0)
  {
    var up := SortUp(RedactHits(hits));
    NumbersFacts(up);
    DownMembers(up);
    TextOrderNumbered(hits);
    var order := TextOrder(hits);
    AppliedReversed(text, Numbers(up), order, 0);
    assert order[0..] == order;
    ReversedTwice(SortDown(up));
  }

  /**
   * For compatible redact hits, empty matches included, whatever the order of the rules that found
   * them, the right-to-left splice is the left-to-right rendering of gaps and tokens.
   */
  lemma RedactedIsRendered(text: string, hits: seq<Hit>)
    requires AllLocated(text, hits) && PairwiseCompatible(RedactHits(hits))
    ensures Disjoint(OrderedEdits(hits), |text|)
    ensures Redacted(text, hits) == Render(text, OrderedEdits(hits), 0, 0)
  {
    DisjointMeansCompatible(text, hits);
    RedactedIsSpliced(text, hits);
    SpliceIsRender(text, OrderedEdits(hits), 0, 0);
    assert text[..0] == "";
  }

  /** The matched values of the redact hits in text order. */
  function RedactedValues(hits: seq<Hit>): seq<string> {
    var order := TextOrder(hits);
    seq(|order|, i requires 0 <= i < |order| => order[i].matched)
  }

  /** Putting the matched values back where the tokens landed recovers the text. */
  lemma RedactionIsReversible(text: string, hits: seq<Hit>)
    requires AllLocated(text, hits) && PairwiseCompatible(RedactHits(hits))
    ensures |RedactedValues(hits)| == |OrderedEdits(hits)|
    ensures PutBack(Redacted(text, hits), OrderedEdits(hits), RedactedValues(hits), 0, 0, 0) == text
  {
    RedactedIsRendered(text, hits);
    OrderedEditsLocated(text, hits);
    var out := Redacted(text, hits);
    assert out[0..] == out && text[0..] == text;
    assert ValuesOf(text, OrderedEdits(hits), RedactedValues(hits));
    PutBackUndoesRender(text, OrderedEdits(hits), RedactedValues(hits), 0, 0, out, 0);
  }

  /**
   * With two spans, the splice keeps both tokens and the text between them exactly when the left
   * span ends before the right one starts; otherwise the left replacement cuts into the right token.
   */
  lemma OverlapCutsToken(text: string, a: Edit, b: Edit)
    requires a.start <= a.end <= |text| && b.start <= b.end <= |text| && a.start <= b.start && b.with != ""
    ensures ReplaceAt(ReplaceAt(text, b), a)
            == text[..a.start] + a.with + text[a.end..if a.end <= b.start then b.start else a.end]
               + b.with + text[b.end..]
            <==> a.end <= b.start
  {
    var out := ReplaceAt(text, b);
    assert out == text[..b.start] + b.with + text[b.end..];
    if a.end <= b.start {
      assert out[a.end..] == text[a.end..b.start] + b.with + text[b.end..];
      assert out[..a.start] == text[..a.start];
    } else {
      assert |ReplaceAt(out, a)| < a.start + |a.with| + |b.with| + |text| - b.end;
    }
  }

  // ---------------------------------------------------------------------------
  // The engine
  // ---------------------------------------------------------------------------

  /** The first rule, in policy order, with a hit of the winning action. */
  function FirstWinner(rules: seq<Rule>, hits: seq<Hit>, a: Action): Option<string> {
    if rules == [] then None
    else if HasWinningHit(rules[0], hits, a) then Some(rules[0].tag)
    else FirstWinner(rules[1..], hits, a)
  }

  predicate HasWinningHit(r: Rule, hits: seq<Hit>, a: Action) {
    exists h :: h in hits && h.tag == r.tag && h.action == a
  }

  /** The chosen label belongs to the earliest rule with a hit of the winning action. */
  lemma {:induction false} ChosenIsEarliest(rules: seq<Rule>, hits: seq<Hit>, a: Action)
    ensures FirstWinner(rules, hits, a).None? <==> forall r :: r in rules ==> !HasWinningHit(r, hits, a)
    ensures FirstWinner(rules, hits, a).Some? ==>
              exists i :: 0 <= i < |rules| && rules[i].tag == FirstWinner(rules, hits, a).value
                  && HasWinningHit(rules[i], hits, a)
                       && forall j :: 0 <= j < i ==> !HasWinningHit(rules[j], hits, a)
  {
    if rules != [] {
      assert rules == [rules[0]] + rules[1..] && rules[0] in rules;
      ChosenIsEarliest(rules[1..], hits, a);
      if !HasWinningHit(rules[0], hits, a) && FirstWinner(rules[1..], hits, a).Some? {
        var i :| 0 <= i < |rules[1..]| && rules[1..][i].tag == FirstWinner(rules[1..], hits, a).value
                 && HasWinningHit(rules[1..][i], hits, a)
                 && forall j :: 0 <= j < i ==> !HasWinningHit(rules[1..][j], hits, a);
        forall j | 0 <= j < i + 1 ensures !HasWinningHit(rules[j], hits, a) {
          assert j > 0 ==> rules[j] == rules[1..][j - 1];
        }
        assert rules[i + 1] == rules[1..][i];
      }
    }
  }

  method AssignNumbers(hits: seq<Hit>) returns (numbers: map<Key, nat>)
    ensures numbers == Numbers(hits)
  {
    numbers := map[];
    var counter: map<Category, nat> := map[];
    for i := 0 to |hits|
      invariant numbers == Numbers(hits[..i])
      invariant forall c :: (if c in counter then counter[c] else 0) == |InCategory(numbers, c)|
    {
      assert Init(hits[..i + 1]) == hits[..i];
      var k := KeyOf(hits[i]);
      if k !in numbers {
        NumbersGrow(numbers, k);
        var n := (if k.0 in counter then counter[k.0] else 0) + 1;
        counter := counter[k.0 := n];
        numbers := numbers[k := n];
      }
    }
    assert hits[..|hits|] == hits;
  }

  method ReplaceAll(text: string, hits: seq<Hit>) returns (out: string)
    ensures out == Redacted(text, hits)
  {
    var up := SortUp(RedactHits(hits));
    var numbers := AssignNumbers(up);
    NumbersFacts(up);
    DownMembers(up);
    var down := SortDown(up);
    out := text;
    for i := 0 to |down|
      invariant out == Applied(text, numbers, down[..i])
    {
      assert Init(down[..i + 1]) == down[..i];
      out := ReplaceAt(out, EditOf(numbers, down[i]));
    }
    assert down[..|down|] == down;
  }

  method Evaluate(text: string, rules: seq<Rule>, find: Finder) returns (d: Decision)
    requires Finds(find, text, rules)
    ensures d.hits == HitsOf(text, rules, find)
    ensures d.action == Winning(d.hits) && d.tripped == Tripped(d.hits)
    ensures FirstAskedFor(d.hits, d.action)
    ensures d.text != text ==> forall h :: h in d.hits ==> !h.action.Block? && !h.action.Review?
    ensures d.text == if d.action.Redact? then Redacted(text, d.hits) else text
    ensures d.chosen == if d.hits == [] then None else FirstWinner(rules, d.hits, d.action)
  {
    var hits := [];
    for i := 0 to |rules|
      invariant Finds(find, text, rules[..i]) && hits == HitsOf(text, rules[..i], find)
    {
      assert Init(rules[..i + 1]) == rules[..i];
      hits := hits + RuleHits(text, rules[i], find(rules[i]));
    }
    assert rules[..|rules|] == rules;
    WinningIsFirstAskedFor(hits);
    if hits == [] {
      return Decision(Allow, {}, [], text, None);
    }
    var action := Winning(hits);
    var chosen := FirstWinner(rules, hits, action);
    if action == Redact {
      var out := ReplaceAll(text, hits);
      return Decision(Redact, Tripped(hits), hits, out, chosen);
    }
    return Decision(action, Tripped(hits), hits, text, chosen);
  }
}
