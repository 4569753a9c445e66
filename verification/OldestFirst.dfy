/**
 * Dropping the oldest eligible elements of a list: the theory that the turn pruner and the
 * summarizer window share.
 */
module OldestFirst {

  function Filter<T>(s: seq<T>, p: T -> bool): seq<T> {
    if s == [] then [] else if p(s[0]) then [s[0]] + Filter(s[1..], p) else Filter(s[1..], p)
  }

  /** `s` without its first `k` elements that satisfy `p`. */
  function DropOldest<T>(s: seq<T>, p: T -> bool, k: nat): seq<T> {
    if s == [] || k == 0 then s
    else if p(s[0]) then DropOldest(s[1..], p, k - 1)
    else [s[0]] + DropOldest(s[1..], p, k)
  }

  /** Those elements themselves, oldest first. */
  function Oldest<T>(s: seq<T>, p: T -> bool, k: nat): seq<T> {
    if s == [] || k == 0 then []
    else if p(s[0]) then [s[0]] + Oldest(s[1..], p, k - 1)
    else Oldest(s[1..], p, k)
  }

  /** `s` is an order-preserving subsequence of `l`. */
  ghost predicate Sub<T>(s: seq<T>, l: seq<T>) {
    s == [] || (l != [] && ((s[0] == l[0] && Sub(s[1..], l[1..])) || Sub(s, l[1..])))
  }

  function Tokens<T>(s: seq<T>, count: T -> int): int {
    if s == [] then 0 else count(s[0]) + Tokens(s[1..], count)
  }

  /** The token count of a list is the sum over its elements. */
  lemma {:induction false} TokensAdd<T(!new)>(a: seq<T>, t: T, b: seq<T>, count: T -> int)
    ensures Tokens(a + [t] + b, count) == Tokens(a, count) + count(t) + Tokens(b, count)
    ensures Tokens([], count) == 0
  {
    if a == [] {
      assert a + [t] + b == [t] + b && ([t] + b)[1..] == b;
    } else {
      TokensAdd(a[1..], t, b, count);
      assert (a + [t] + b)[1..] == a[1..] + [t] + b;
    }
  }

  lemma {:induction false} FilterMember<T(!new)>(s: seq<T>, p: T -> bool, t: T)
    ensures t in Filter(s, p) <==> t in s && p(t)
  {
    if s != [] {
      FilterMember(s[1..], p, t);
      assert s == [s[0]] + s[1..];
    }
  }

  lemma {:induction false} FilterSplits<T(!new)>(s: seq<T>, p: T -> bool, q: T -> bool)
    requires forall t :: p(t) <==> !q(t)
    ensures multiset(Filter(s, p)) + multiset(Filter(s, q)) == multiset(s)
  {
    if s != [] {
      FilterSplits(s[1..], p, q);
      assert s == [s[0]] + s[1..];
    }
  }

  lemma {:induction false} FilterSub<T(!new)>(s: seq<T>, p: T -> bool)
    ensures Sub(Filter(s, p), s)
  {
    if s != [] {
      FilterSub(s[1..], p);
      if p(s[0]) {
        assert Filter(s, p)[1..] == Filter(s[1..], p);
      }
    }
  }

  lemma {:induction false} FilterAll<T(!new)>(s: seq<T>, p: T -> bool)
    requires forall t :: t in s ==> p(t)
    ensures Filter(s, p) == s
  {
    if s != [] {
      FilterAll(s[1..], p);
      assert s == [s[0]] + s[1..];
    }
  }

  lemma {:induction false} FilterConcat<T(!new)>(a: seq<T>, b: seq<T>, p: T -> bool)
    ensures Filter(a + b, p) == Filter(a, p) + Filter(b, p)
  {
    if a == [] {
      assert a + b == b;
    } else {
      FilterConcat(a[1..], b, p);
      assert (a + b)[1..] == a[1..] + b;
    }
  }

  lemma {:induction false} SubRefl<T(!new)>(s: seq<T>)
    ensures Sub(s, s)
  {
    if s != [] {
      SubRefl(s[1..]);
    }
  }

  lemma {:induction false} SubTrans<T(!new)>(a: seq<T>, b: seq<T>, c: seq<T>)
    requires Sub(a, b) && Sub(b, c)
    ensures Sub(a, c)
    decreases |c|
  {
    if a != [] {
      if b[0] == c[0] && Sub(b[1..], c[1..]) {
        if a[0] == b[0] && Sub(a[1..], b[1..]) {
          SubTrans(a[1..], b[1..], c[1..]);
        } else {
          SubTrans(a, b[1..], c[1..]);
        }
      } else {
        SubTrans(a, b, c[1..]);
      }
    }
  }

  lemma {:induction false} SubConcat<T(!new)>(a: seq<T>, b: seq<T>, x: seq<T>, y: seq<T>)
    requires Sub(a, x) && Sub(b, y)
    ensures Sub(a + b, x + y)
    decreases |x|
  {
    if x == [] {
      assert a + b == b && x + y == y;
    } else {
      assert (x + y)[1..] == x[1..] + y;
      if a != [] && a[0] == x[0] && Sub(a[1..], x[1..]) {
        SubConcat(a[1..], b, x[1..], y);
        assert (a + b)[1..] == a[1..] + b;
      } else {
        SubConcat(a, b, x[1..], y);
      }
    }
  }

  /** Dropping neither loses nor invents a element. */
  lemma {:induction false} DropConserves<T(!new)>(s: seq<T>, p: T -> bool, k: nat)
    ensures multiset(DropOldest(s, p, k)) + multiset(Oldest(s, p, k)) == multiset(s)
  {
    if s != [] && k > 0 {
      assert s == [s[0]] + s[1..];
      DropConserves(s[1..], p, if p(s[0]) then k - 1 else k);
    }
  }

  lemma {:induction false} OldestAllowed<T(!new)>(s: seq<T>, p: T -> bool, k: nat)
    ensures forall t :: t in Oldest(s, p, k) ==> p(t)
    ensures |Oldest(s, p, k)| == if k <= |Filter(s, p)| then k else |Filter(s, p)|
  {
    if s != [] && k > 0 {
      OldestAllowed(s[1..], p, if p(s[0]) then k - 1 else k);
    }
  }

  /** The elements that stay keep their order. */
  lemma {:induction false} DropSub<T(!new)>(s: seq<T>, p: T -> bool, k: nat)
    ensures Sub(DropOldest(s, p, k), s)
  {
    if s == [] || k == 0 {
      SubRefl(s);
    } else {
      DropSub(s[1..], p, if p(s[0]) then k - 1 else k);
      if !p(s[0]) {
        assert DropOldest(s, p, k)[1..] == DropOldest(s[1..], p, k);
      }
    }
  }

  /** Filtering commutes with dropping when everything dropped passes the filter. */
  lemma {:induction false} FilterOfDrop<T(!new)>(s: seq<T>, p: T -> bool, q: T -> bool, k: nat)
    requires forall t :: p(t) ==> q(t)
    ensures Filter(DropOldest(s, p, k), q) == DropOldest(Filter(s, q), p, k)
  {
    if s != [] && k > 0 {
      if p(s[0]) {
        FilterOfDrop(s[1..], p, q, k - 1);
      } else {
        FilterOfDrop(s[1..], p, q, k);
      }
    }
  }

  lemma {:induction false} DropAgain<T(!new)>(s: seq<T>, p: T -> bool, k: nat)
    ensures DropOldest(DropOldest(s, p, k), p, 1) == DropOldest(s, p, k + 1)
    ensures Oldest(s, p, k) + Oldest(DropOldest(s, p, k), p, 1) == Oldest(s, p, k + 1)
  {
    if s == [] || k == 0 {
      assert Oldest(s, p, 0) == [];
    } else if p(s[0]) {
      DropAgain(s[1..], p, k - 1);
    } else {
      DropAgain(s[1..], p, k);
      assert DropOldest(s, p, k)[1..] == DropOldest(s[1..], p, k);
    }
  }

  /** Once as many elements are dropped as there are eligible ones, none is left. */
  lemma {:induction false} DropLeaves<T(!new)>(s: seq<T>, p: T -> bool, k: nat)
    ensures |Filter(DropOldest(s, p, k), p)| == if k <= |Filter(s, p)| then |Filter(s, p)| - k else 0
  {
    if s != [] && k > 0 {
      DropLeaves(s[1..], p, if p(s[0]) then k - 1 else k);
    }
  }

  lemma {:induction false} FilterShorter<T(!new)>(s: seq<T>, p: T -> bool)
    ensures |Filter(s, p)| <= |s|
  {
    if s != [] {
      FilterShorter(s[1..], p);
    }
  }

  lemma {:induction false} NoneFiltered<T(!new)>(s: seq<T>, p: T -> bool)
    ensures |Filter(s, p)| == 0 <==> forall t :: t in s ==> !p(t)
  {
    if s != [] {
      assert s == [s[0]] + s[1..] && s[0] in s;
      NoneFiltered(s[1..], p);
    }
  }

  lemma {:induction false} FirstIsOldest<T(!new)>(s: seq<T>, p: T -> bool, i: nat)
    requires i < |s| && p(s[i]) && forall j :: 0 <= j < i ==> !p(s[j])
    ensures DropOldest(s, p, 1) == s[..i] + s[i + 1..] && Oldest(s, p, 1) == [s[i]]
  {
    if i == 0 {
      assert s[..0] + s[1..] == s[1..];
      assert DropOldest(s[1..], p, 0) == s[1..] && Oldest(s[1..], p, 0) == [];
    } else {
      FirstIsOldest(s[1..], p, i - 1);
      assert s[..i] + s[i + 1..] == [s[0]] + (s[1..][..i - 1] + s[1..][i..]);
    }
  }

  lemma NoneLeft<T(!new)>(s: seq<T>, p: T -> bool, k: nat)
    requires k <= |Filter(s, p)| && forall t :: t in DropOldest(s, p, k) ==> !p(t)
    ensures k == |Filter(s, p)|
  {
    DropLeaves(s, p, k);
    NoneFiltered(DropOldest(s, p, k), p);
  }

  lemma NextDrop<T(!new)>(s: seq<T>, p: T -> bool, k: nat, i: nat)
    requires var kept := DropOldest(s, p, k);
             i < |kept| && p(kept[i]) && forall j :: 0 <= j < i ==> !p(kept[j])
    ensures var kept := DropOldest(s, p, k);
            && DropOldest(s, p, k + 1) == kept[..i] + kept[i + 1..]
            && Oldest(s, p, k + 1) == Oldest(s, p, k) + [kept[i]]
            && k < |Filter(s, p)|
  {
    var kept := DropOldest(s, p, k);
    FirstIsOldest(kept, p, i);
    DropAgain(s, p, k);
    DropLeaves(s, p, k);
    NoneFiltered(kept, p);
    assert kept[i] in kept;
  }

  lemma {:induction false} SubMember<T(!new)>(s: seq<T>, l: seq<T>, t: T)
    requires Sub(s, l) && t in s
    ensures t in l
    decreases |l|
  {
    assert l == [l[0]] + l[1..] && s == [s[0]] + s[1..];
    if s[0] == l[0] && Sub(s[1..], l[1..]) {
      if t != s[0] {
        SubMember(s[1..], l[1..], t);
      }
    } else {
      SubMember(s, l[1..], t);
    }
  }

  lemma {:induction false} FilterUntouched<T(!new)>(s: seq<T>, p: T -> bool, q: T -> bool, k: nat)
    requires forall t :: p(t) ==> !q(t)
    ensures Filter(DropOldest(s, p, k), q) == Filter(s, q)
  {
    if s != [] && k > 0 {
      FilterUntouched(s[1..], p, q, if p(s[0]) then k - 1 else k);
    }
  }

  lemma InsertConserves<T(!new)>(s: seq<T>, k: nat, t: T)
    requires k <= |s|
    ensures multiset(s[..k] + [t] + s[k..]) == multiset(s) + multiset([t])
  {
    assert s == s[..k] + s[k..];
  }

  lemma FilterInserted<T(!new)>(s: seq<T>, k: nat, t: T, p: T -> bool)
    requires k <= |s|
    ensures Filter(s[..k] + [t] + s[k..], p) == Filter(s[..k], p) + Filter([t], p) + Filter(s[k..], p)
    ensures Filter(s, p) == Filter(s[..k], p) + Filter(s[k..], p)
    ensures Filter([t], p) == if p(t) then [t] else []
  {
    FilterOfThree(s[..k], t, s[k..], p);
    FilterConcat(s[..k], s[k..], p);
    assert s == s[..k] + s[k..];
  }

  lemma FilterOfThree<T(!new)>(a: seq<T>, t: T, b: seq<T>, p: T -> bool)
    ensures Filter(a + [t] + b, p) == Filter(a, p) + Filter([t], p) + Filter(b, p)
    ensures Filter([t], p) == if p(t) then [t] else []
  {
    FilterConcat(a + [t], b, p);
    FilterConcat(a, [t], p);
    assert [t][1..] == [];
  }

  lemma FilterSkipsInserted<T(!new)>(s: seq<T>, k: nat, t: T, p: T -> bool)
    requires k <= |s| && !p(t)
    ensures Filter(s[..k] + [t] + s[k..], p) == Filter(s, p)
  {
    FilterInserted(s, k, t, p);
  }

  lemma FilterFindsInserted<T(!new)>(s: seq<T>, k: nat, t: T, p: T -> bool)
    requires k <= |s| && p(t) && Filter(s, p) == []
    ensures Filter(s[..k] + [t] + s[k..], p) == [t]
  {
    FilterInserted(s, k, t, p);
  }

  /** `k` is the least number of oldest eligible elements whose removal meets the cap, or all of them. */
  ghost predicate Shortest<T>(s: seq<T>, p: T -> bool, size: seq<T> -> int, cap: int, k: nat) {
    && k <= |Filter(s, p)|
    && (size(DropOldest(s, p, k)) <= cap || k == |Filter(s, p)|)
    && (forall j :: 0 <= j < k ==> size(DropOldest(s, p, j)) > cap)
  }
}
