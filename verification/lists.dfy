/**
  List comprehensions over sequences: `[x for x in s if f(x)]`, counting,
  and the subsequence order used to compare two conflict lists.
 */
module Lists {
  /** `[x for x in s if f(x)]`. */
  function Filter<T>(f: T -> bool, s: seq<T>): (r: seq<T>)
    ensures |r| <= |s|
    ensures forall k :: 0 <= k < |r| ==> f(r[k])
    decreases |s|
  {
    if |s| == 0 then []
    else (if f(s[0]) then [s[0]] else []) + Filter(f, s[1..])
  }

  /** `len([x for x in s if f(x)])`. */
  function Count<T>(f: T -> bool, s: seq<T>): (n: nat)
    ensures n <= |s|
    decreases |s|
  {
    if |s| == 0 then 0
    else (if f(s[0]) then 1 else 0) + Count(f, s[1..])
  }

  /** `a` is `b` with some elements left out, the rest kept in order. */
  predicate IsSubseq<T(==)>(a: seq<T>, b: seq<T>)
    decreases |b|
  {
    if |a| == 0 then true
    else if |b| == 0 then false
    else if a[0] == b[0] then IsSubseq(a[1..], b[1..])
    else IsSubseq(a, b[1..])
  }

  /** The filtered list holds exactly the kept elements. */
  lemma {:induction false} FilterMembers<T>(f: T -> bool, s: seq<T>)
    ensures forall x :: x in Filter(f, s) <==> x in s && f(x)
    decreases |s|
  {
    if |s| > 0 {
      FilterMembers(f, s[1..]);
      assert s == [s[0]] + s[1..];
    }
  }

  lemma {:induction false} FilterConcat<T>(f: T -> bool, a: seq<T>, b: seq<T>)
    ensures Filter(f, a + b) == Filter(f, a) + Filter(f, b)
    decreases |a|
  {
    if |a| > 0 {
      FilterConcat(f, a[1..], b);
      assert (a + b)[1..] == a[1..] + b;
    } else {
      assert a + b == b;
    }
  }

  /** Counting is the length of the filtered list. */
  lemma {:induction false} CountFilter<T>(f: T -> bool, s: seq<T>)
    ensures Count(f, s) == |Filter(f, s)|
    decreases |s|
  {
    if |s| > 0 {
      CountFilter(f, s[1..]);
    }
  }

  lemma {:induction false} CountConcat<T>(f: T -> bool, a: seq<T>, b: seq<T>)
    ensures Count(f, a + b) == Count(f, a) + Count(f, b)
    decreases |a|
  {
    if |a| > 0 {
      CountConcat(f, a[1..], b);
      assert (a + b)[1..] == a[1..] + b;
    } else {
      assert a + b == b;
    }
  }

  lemma {:induction false} SubseqRefl<T>(a: seq<T>)
    ensures IsSubseq(a, a)
    decreases |a|
  {
    if |a| > 0 {
      SubseqRefl(a[1..]);
    }
  }

  /** A subsequence of `b` stays one when `b` is extended at the front. */
  lemma {:induction false} SubseqPrepend<T>(a: seq<T>, x: T, b: seq<T>)
    requires IsSubseq(a, b)
    ensures IsSubseq(a, [x] + b)
    decreases |a| + |b| + 1
  {
    assert ([x] + b)[1..] == b;
    if |a| > 0 && a[0] == x {
      SubseqDropFirst(a, b);
    }
  }

  /** Dropping the first element of a subsequence keeps it a subsequence. */
  lemma {:induction false} SubseqDropFirst<T>(a: seq<T>, b: seq<T>)
    requires |a| > 0 && IsSubseq(a, b)
    ensures IsSubseq(a[1..], b)
    decreases |a| + |b|
  {
    if a[0] == b[0] {
      SubseqPrepend(a[1..], b[0], b[1..]);
      assert [b[0]] + b[1..] == b;
    } else {
      SubseqDropFirst(a, b[1..]);
      SubseqPrepend(a[1..], b[0], b[1..]);
      assert [b[0]] + b[1..] == b;
    }
  }

  /** Subsequences concatenate. */
  lemma {:induction false} SubseqConcat<T>(a1: seq<T>, b1: seq<T>, a2: seq<T>, b2: seq<T>)
    requires IsSubseq(a1, b1) && IsSubseq(a2, b2)
    ensures IsSubseq(a1 + a2, b1 + b2)
    decreases |b1|
  {
    if |b1| == 0 {
      assert b1 + b2 == b2;
      assert a1 + a2 == a2;
    } else if |a1| > 0 && a1[0] == b1[0] {
      SubseqConcat(a1[1..], b1[1..], a2, b2);
      assert (a1 + a2)[1..] == a1[1..] + a2;
      assert (b1 + b2)[1..] == b1[1..] + b2;
    } else {
      SubseqConcat(a1, b1[1..], a2, b2);
      assert (b1 + b2)[1..] == b1[1..] + b2;
      if |a1 + a2| > 0 && (a1 + a2)[0] == (b1 + b2)[0] {
        SubseqDropFirst(a1 + a2, b1[1..] + b2);
      }
    }
  }

  /** A filtered list is a subsequence of its input. */
  lemma {:induction false} FilterSubseq<T>(f: T -> bool, s: seq<T>)
    ensures IsSubseq(Filter(f, s), s)
    decreases |s|
  {
    if |s| > 0 {
      FilterSubseq(f, s[1..]);
      if f(s[0]) {
        assert Filter(f, s)[1..] == Filter(f, s[1..]);
      } else {
        SubseqPrepend(Filter(f, s[1..]), s[0], s[1..]);
        assert [s[0]] + s[1..] == s;
        assert Filter(f, s) == Filter(f, s[1..]);
      }
    }
  }

  /** Two tests that agree on every element keep the same elements. */
  lemma {:induction false} FilterAgree<T>(f: T -> bool, g: T -> bool, s: seq<T>)
    requires forall k :: 0 <= k < |s| ==> f(s[k]) == g(s[k])
    ensures Filter(f, s) == Filter(g, s)
    decreases |s|
  {
    if |s| > 0 {
      FilterAgree(f, g, s[1..]);
    }
  }

  /** Nothing kept: the count is zero. */
  lemma {:induction false} CountNone<T>(f: T -> bool, s: seq<T>)
    requires forall k :: 0 <= k < |s| ==> !f(s[k])
    ensures Count(f, s) == 0
    decreases |s|
  {
    if |s| > 0 {
      CountNone(f, s[1..]);
    }
  }

  /** Everything kept: the count is the length. */
  lemma {:induction false} CountAll<T>(f: T -> bool, s: seq<T>)
    requires forall k :: 0 <= k < |s| ==> f(s[k])
    ensures Count(f, s) == |s|
    decreases |s|
  {
    if |s| > 0 {
      CountAll(f, s[1..]);
    }
  }

  /** Keeping by a test and by its negation splits the list: the two parts' lengths add up. */
  lemma {:induction false} FilterComplement<T>(f: T -> bool, g: T -> bool, s: seq<T>)
    requires forall k :: 0 <= k < |s| ==> g(s[k]) == !f(s[k])
    ensures |Filter(f, s)| + |Filter(g, s)| == |s|
    decreases |s|
  {
    if |s| > 0 {
      FilterComplement(f, g, s[1..]);
    }
  }

  /** No element occurs twice. */
  predicate Distinct<T(==)>(s: seq<T>)
  {
    forall i, j :: 0 <= i < j < |s| ==> s[i] != s[j]
  }

  /** Leaving elements out keeps a list free of repeats. */
  lemma {:induction false} FilterDistinct<T>(f: T -> bool, s: seq<T>)
    requires Distinct(s)
    ensures Distinct(Filter(f, s))
    decreases |s|
  {
    if |s| > 0 {
      FilterDistinct(f, s[1..]);
      FilterMembers(f, s[1..]);
      assert s[0] !in s[1..];
    }
  }

  /** Keeping every element changes nothing. */
  lemma {:induction false} FilterAll<T>(f: T -> bool, s: seq<T>)
    requires forall k :: 0 <= k < |s| ==> f(s[k])
    ensures Filter(f, s) == s
    decreases |s|
  {
    if |s| > 0 {
      FilterAll(f, s[1..]);
      assert s == [s[0]] + s[1..];
    }
  }

  /** Keeping no element leaves nothing. */
  lemma {:induction false} FilterNone<T>(f: T -> bool, s: seq<T>)
    requires forall k :: 0 <= k < |s| ==> !f(s[k])
    ensures Filter(f, s) == []
    decreases |s|
  {
    if |s| > 0 {
      FilterNone(f, s[1..]);
    }
  }

  /** A filter and its complement together hold every element as often as the input does. */
  lemma {:induction false} FilterMultiset<T>(f: T -> bool, g: T -> bool, s: seq<T>)
    requires forall k :: 0 <= k < |s| ==> g(s[k]) == !f(s[k])
    ensures multiset(Filter(f, s)) + multiset(Filter(g, s)) == multiset(s)
    decreases |s|
  {
    if |s| > 0 {
      FilterMultiset(f, g, s[1..]);
      assert s == [s[0]] + s[1..];
    }
  }

  lemma ConcatAssoc<T>(a: seq<T>, b: seq<T>, c: seq<T>)
    ensures a + (b + c) == a + b + c
  {
  }

  /** Two repeat-free lists with no element in common join into a repeat-free list. */
  lemma DistinctConcat<T>(a: seq<T>, b: seq<T>)
    requires Distinct(a) && Distinct(b)
    requires forall x :: x in a ==> x !in b
    ensures Distinct(a + b)
  {
    forall i, j | 0 <= i < j < |a + b|
      ensures (a + b)[i] != (a + b)[j]
    {
      if i < |a| && j >= |a| {
        assert (a + b)[i] in a && (a + b)[j] == b[j - |a|];
      }
    }
  }
}
