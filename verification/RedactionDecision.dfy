/**
 * The post-filter's decision in terms of the policy and its matches alone: which action is taken, which
 * categories trip, which rule is named, and how redaction tokens are numbered along the text.
 */
module RedactionDecision {
  import opened Common
  import opened PostFilter

  // ---------------------------------------------------------------------------
  // Action, categories and the rule that is named
  // ---------------------------------------------------------------------------

  /** Some rule with this action matched. */
  ghost predicate Fires(rules: seq<Rule>, find: Finder, a: Action) {
    exists r :: r in rules && r.action == a && find(r) != []
  }

  /** Every match of every rule is a hit with the rule's data and the matched text, and nothing else is. */
  lemma HitsAreMatches(text: string, rules: seq<Rule>, find: Finder, h: Hit)
    requires Finds(find, text, rules)
    ensures h in HitsOf(text, rules, find) <==>
            exists r, i :: r in rules && 0 <= i < |find(r)| && MatchIs(text, r, find(r)[i], h)
  {
    HitsMember(text, rules, find, h);
    if h in HitsOf(text, rules, find) {
      var r :| r in rules && h in RuleHits(text, r, find(r));
      var i :| 0 <= i < |find(r)| && RuleHits(text, r, find(r))[i] == h;
      assert MatchIs(text, r, find(r)[i], h);
    }
    if r, i :| r in rules && 0 <= i < |find(r)| && MatchIs(text, r, find(r)[i], h) {
      assert RuleHits(text, r, find(r))[i] == h;
    }
  }

  predicate MatchIs(text: string, r: Rule, span: (nat, nat), h: Hit) {
    && h.tag == r.tag && h.category == r.category && h.action == r.action
    && h.start == span.0 <= h.end == span.1 <= |text| && h.matched == text[h.start..h.end]
  }

  /** Hits are listed rule by rule, in policy order. */
  lemma {:induction false} HitsInPolicyOrder(text: string, first: seq<Rule>, later: seq<Rule>, find: Finder)
    requires Finds(find, text, first + later)
    ensures Finds(find, text, first) && Finds(find, text, later)
    ensures HitsOf(text, first + later, find) == HitsOf(text, first, find) + HitsOf(text, later, find)
  {
    forall r | r in first || r in later ensures r in first + later {
    }
    if later == [] {
      assert first + later == first;
    } else {
      var all := first + later;
      assert Init(all) == first + Init(later) && Last(all) == Last(later);
      forall r | r in Init(all) ensures r in all {
      }
      HitsInPolicyOrder(text, first, Init(later), find);
    }
  }

  lemma FiringRuleHits(text: string, rules: seq<Rule>, find: Finder, r: Rule) returns (h: Hit)
    requires Finds(find, text, rules) && r in rules && find(r) != []
    ensures h in HitsOf(text, rules, find) && h.tag == r.tag && h.category == r.category && h.action == r.action
  {
    h := RuleHits(text, r, find(r))[0];
    HitsMember(text, rules, find, h);
  }

  lemma HitFromRule(text: string, rules: seq<Rule>, find: Finder, h: Hit) returns (r: Rule)
    requires Finds(find, text, rules) && h in HitsOf(text, rules, find)
    ensures r in rules && find(r) != [] && h.tag == r.tag && h.category == r.category && h.action == r.action
  {
    HitsMember(text, rules, find, h);
    r :| r in rules && h in RuleHits(text, r, find(r));
  }

  lemma FiresMeansHit(text: string, rules: seq<Rule>, find: Finder, a: Action)
    requires Finds(find, text, rules)
    ensures Fires(rules, find, a) <==> exists h :: h in HitsOf(text, rules, find) && h.action == a
  {
    if Fires(rules, find, a) {
      var r :| r in rules && r.action == a && find(r) != [];
      var _ := FiringRuleHits(text, rules, find, r);
    }
    if h :| h in HitsOf(text, rules, find) && h.action == a {
      var _ := HitFromRule(text, rules, find, h);
    }
  }

  ghost predicate TagsDistinct(rules: seq<Rule>) {
    forall i, j :: 0 <= i < j < |rules| ==> rules[i].tag != rules[j].tag
  }

  /** The i-th rule is the first one that matched and has the action. */
  ghost predicate FirstFiring(rules: seq<Rule>, find: Finder, a: Action, i: nat) {
    && i < |rules| && rules[i].action == a && find(rules[i]) != []
    && forall j :: 0 <= j < i ==> rules[j].action != a || find(rules[j]) == []
  }

  lemma WinningHitMeansFiring(text: string, rules: seq<Rule>, find: Finder, a: Action, i: nat)
    requires Finds(find, text, rules) && TagsDistinct(rules) && i < |rules|
    ensures HasWinningHit(rules[i], HitsOf(text, rules, find), a) <==> rules[i].action == a && find(rules[i]) != []
  {
    var hits := HitsOf(text, rules, find);
    if HasWinningHit(rules[i], hits, a) {
      var h :| h in hits && h.tag == rules[i].tag && h.action == a;
      var r := HitFromRule(text, rules, find, h);
      var j :| 0 <= j < |rules| && rules[j] == r;
      assert i == j;
    }
    if rules[i].action == a && find(rules[i]) != [] {
      var h := FiringRuleHits(text, rules, find, rules[i]);
    }
  }

  /**
   * For every policy with distinct labels: block wins if some block rule matched, else review, else
   * redact, else allow; the categories tripped are those of the rules that matched; and the rule named is
   * the first one in policy order that matched with the winning action, or none if nothing matched.
   */
  lemma DecisionFollowsPolicy(text: string, rules: seq<Rule>, find: Finder)
    requires Finds(find, text, rules) && TagsDistinct(rules)
    ensures var hits := HitsOf(text, rules, find);
            var a := Winning(hits);
            && a == (if Fires(rules, find, Block) then Block else if Fires(rules, find, Review) then Review
                     else if Fires(rules, find, Redact) then Redact else Allow)
            && Tripped(hits) == (set r | r in rules && find(r) != [] :: r.category)
            && (hits == [] <==> forall r :: r in rules ==> find(r) == [])
            && (hits != [] ==> exists i: nat :: FirstFiring(rules, find, a, i)
                                        && FirstWinner(rules, hits, a) == Some(rules[i].tag))
  {
    var hits := HitsOf(text, rules, find);
    WinningIsFirstAskedFor(hits);
    FiresMeansHit(text, rules, find, Block);
    FiresMeansHit(text, rules, find, Review);
    FiresMeansHit(text, rules, find, Redact);
    forall c ensures c in Tripped(hits) <==> c in set r | r in rules && find(r) != [] :: r.category {
      if h :| h in hits && h.category == c {
        var _ := HitFromRule(text, rules, find, h);
      }
      if r :| r in rules && find(r) != [] && r.category == c {
        var _ := FiringRuleHits(text, rules, find, r);
      }
    }
    assert hits != [] ==> hits[0] in hits;
    if hits != [] {
      NamedRule(text, rules, find);
    }
    EmptyWithoutMatches(text, rules, find);
  }

  lemma EmptyWithoutMatches(text: string, rules: seq<Rule>, find: Finder)
    requires Finds(find, text, rules)
    ensures HitsOf(text, rules, find) == [] <==> forall r :: r in rules ==> find(r) == []
  {
    var hits := HitsOf(text, rules, find);
    if hits != [] {
      var _ := HitFromRule(text, rules, find, hits[0]);
    }
    forall r | r in rules && find(r) != [] ensures hits != [] {
      var _ := FiringRuleHits(text, rules, find, r);
    }
  }

  lemma NamedRule(text: string, rules: seq<Rule>, find: Finder)
    requires Finds(find, text, rules) && TagsDistinct(rules) && HitsOf(text, rules, find) != []
    ensures var hits := HitsOf(text, rules, find);
            exists i: nat :: FirstFiring(rules, find, Winning(hits), i)
                     && FirstWinner(rules, hits, Winning(hits)) == Some(rules[i].tag)
  {
    var hits := HitsOf(text, rules, find);
    var a := Winning(hits);
    WinningIsMostSevere(hits);
    var h :| h in hits && h.action == a;
    var r := HitFromRule(text, rules, find, h);
    forall i | 0 <= i < |rules|
      ensures HasWinningHit(rules[i], hits, a) <==> rules[i].action == a && find(rules[i]) != []
    {
      WinningHitMeansFiring(text, rules, find, a, i);
    }
    ChosenIsEarliest(rules, hits, a);
    assert HasWinningHit(r, hits, a);
    var i :| 0 <= i < |rules| && rules[i].tag == FirstWinner(rules, hits, a).value
             && HasWinningHit(rules[i], hits, a) && forall j :: 0 <= j < i ==> !HasWinningHit(rules[j], hits, a);
    assert FirstFiring(rules, find, a, i);
  }

  // ---------------------------------------------------------------------------
  // Numbering along the text
  // ---------------------------------------------------------------------------

  ghost predicate Rising(s: seq<Hit>) {
    forall i, j :: 0 <= i < j < |s| ==> s[i].start <= s[j].start
  }

  lemma {:induction false} InsertUpRising(s: seq<Hit>, h: Hit)
    requires Rising(s)
    ensures Rising(InsertUp(s, h))
  {
    if s != [] && Last(s).start > h.start {
      InsertUpRising(Init(s), h);
      var front := InsertUp(Init(s), h);
      forall i | 0 <= i < |front| ensures front[i].start <= Last(s).start {
        InsertUpMember(Init(s), h, front[i]);
        if front[i] != h {
          var k :| 0 <= k < |Init(s)| && Init(s)[k] == front[i];
        }
      }
    }
  }

  lemma {:induction false} SortUpRising(s: seq<Hit>)
    ensures Rising(SortUp(s))
  {
    if s != [] {
      SortUpRising(Init(s));
      InsertUpRising(SortUp(Init(s)), Last(s));
    }
  }

  lemma {:induction false} NumbersKeys(hits: seq<Hit>, k: Key)
    ensures k in Numbers(hits) <==> exists h :: h in hits && KeyOf(h) == k
  {
    if hits != [] {
      NumbersKeys(Init(hits), k);
      assert hits == Init(hits) + [Last(hits)];
      if KeyOf(Last(hits)) == k {
        assert Last(hits) in hits;
      }
    }
  }

  lemma {:induction false} NumbersStay(hits: seq<Hit>, n: nat, k: Key)
    requires n <= |hits| && k in Numbers(hits[..n])
    ensures k in Numbers(hits) && Numbers(hits)[k] == Numbers(hits[..n])[k]
  {
    if n == |hits| {
      assert hits[..n] == hits;
    } else {
      assert Init(hits)[..n] == hits[..n];
      NumbersStay(Init(hits), n, k);
    }
  }

  /** The value met for the first time at position `p` gets the next number after all met before it. */
  lemma NumberAtFirstSight(hits: seq<Hit>, p: nat, j: Key)
    requires p < |hits| && j in Numbers(hits[..p]) && KeyOf(hits[p]) !in Numbers(hits[..p]) && j.0 == hits[p].category
    ensures j in Numbers(hits) && KeyOf(hits[p]) in Numbers(hits) && Numbers(hits)[j] < Numbers(hits)[KeyOf(hits[p])]
  {
    var before, upTo := hits[..p], hits[..p + 1];
    assert Init(upTo) == before && Last(upTo) == hits[p];
    NumbersFacts(before);
    NumbersStay(hits, p, j);
    NumbersStay(hits, p + 1, KeyOf(hits[p]));
  }

  /**
   * Within a category, tokens are numbered along the text: if some occurrence of one redacted value
   * starts before every occurrence of another, it has the smaller number.
   */
  lemma TokensNumberedLeftToRight(hits: seq<Hit>, a: Hit, b: Hit)
    requires a in hits && b in hits && a.action.Redact? && b.action.Redact? && a.category == b.category
    requires forall x :: x in hits && x.action.Redact? && KeyOf(x) == KeyOf(b) ==> a.start < x.start
    ensures var numbers := Numbers(SortUp(RedactHits(hits)));
            KeyOf(a) in numbers && KeyOf(b) in numbers && numbers[KeyOf(a)] < numbers[KeyOf(b)]
  {
    var up := SortUp(RedactHits(hits));
    SortUpRising(RedactHits(hits));
    forall x ensures x in up <==> x in hits && x.action.Redact? {
      SortUpMember(RedactHits(hits), x);
      RedactHitsMember(hits, x);
    }
    var q :| 0 <= q < |up| && up[q] == a;
    var p := FirstWithKey(up, KeyOf(b));
    assert up[p] in up;
    assert q < p;
    assert up[..p][q] == a;
    NumbersKeys(up[..p], KeyOf(a));
    NumbersKeys(up[..p], KeyOf(b));
    NumberAtFirstSight(up, p, KeyOf(a));
  }

  lemma {:induction false} FirstWithKey(s: seq<Hit>, k: Key) returns (p: nat)
    requires exists h :: h in s && KeyOf(h) == k
    ensures p < |s| && KeyOf(s[p]) == k && forall h :: h in s[..p] ==> KeyOf(h) != k
  {
    if h :| h in Init(s) && KeyOf(h) == k {
      p := FirstWithKey(Init(s), k);
      assert Init(s)[..p] == s[..p];
    } else {
      assert s == Init(s) + [Last(s)];
      p := |s| - 1;
    }
  }
}
