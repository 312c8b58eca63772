/**
  Python's `sorted` on strings: the code-point lexicographic order, and a
  stable insertion sort over it.
 */
module Sorting {
  import opened Lists

  /** `a <= b` on Python strings: lexicographic by code point, a proper prefix first. */
  predicate StrLe(a: string, b: string)
    decreases |a|
  {
    |a| == 0 || (|b| > 0 && (a[0] < b[0] || (a[0] == b[0] && StrLe(a[1..], b[1..]))))
  }

  lemma {:induction false} StrLeRefl(a: string)
    ensures StrLe(a, a)
    decreases |a|
  {
    if |a| > 0 {
      StrLeRefl(a[1..]);
    }
  }

  lemma {:induction false} StrLeTotal(a: string, b: string)
    ensures StrLe(a, b) || StrLe(b, a)
    decreases |a|
  {
    if |a| > 0 && |b| > 0 && a[0] == b[0] {
      StrLeTotal(a[1..], b[1..]);
    }
  }

  lemma {:induction false} StrLeAntisymmetric(a: string, b: string)
    requires StrLe(a, b) && StrLe(b, a)
    ensures a == b
    decreases |a|
  {
    if |a| > 0 {
      StrLeAntisymmetric(a[1..], b[1..]);
      assert a == [a[0]] + a[1..] && b == [b[0]] + b[1..];
    }
  }

  lemma {:induction false} StrLeTransitive(a: string, b: string, c: string)
    requires StrLe(a, b) && StrLe(b, c)
    ensures StrLe(a, c)
    decreases |a|
  {
    if |a| > 0 && a[0] == b[0] && b[0] == c[0] {
      StrLeTransitive(a[1..], b[1..], c[1..]);
    }
  }

  predicate Ascending(s: seq<string>)
  {
    forall i, j :: 0 <= i < j < |s| ==> StrLe(s[i], s[j])
  }

  /** Ascending with no repeats. */
  predicate StrictlyAscending(s: seq<string>)
  {
    forall i, j :: 0 <= i < j < |s| ==> StrLe(s[i], s[j]) && s[i] != s[j]
  }

  /** `x` placed before the first element it does not follow. */
  function Insert(x: string, s: seq<string>): (r: seq<string>)
    ensures multiset(r) == multiset(s) + multiset{x}
    decreases |s|
  {
    if |s| == 0 then [x]
    else if StrLe(x, s[0]) then
      assert s == [s[0]] + s[1..];
      [x] + s
    else
      assert s == [s[0]] + s[1..];
      [s[0]] + Insert(x, s[1..])
  }

  /** Everything `x` is inserted among stays at or above a head that `x` does not precede. */
  lemma InsertAbove(x: string, s: seq<string>)
    requires |s| > 0 && Ascending(s) && !StrLe(x, s[0])
    ensures forall y :: y in Insert(x, s[1..]) ==> StrLe(s[0], y)
  {
    var rest := Insert(x, s[1..]);
    StrLeTotal(x, s[0]);
    forall y | y in rest
      ensures StrLe(s[0], y)
    {
      assert y in multiset(rest);
      if y != x {
        assert y in multiset(s[1..]);
        var j :| 0 <= j < |s[1..]| && s[1..][j] == y;
        assert s[1 + j] == y;
      }
    }
  }

  /** A head at or below every element of an ascending list keeps it ascending. */
  lemma AscendingPrepend(h: string, s: seq<string>)
    requires Ascending(s) && forall y :: y in s ==> StrLe(h, y)
    ensures Ascending([h] + s)
  {
    var r := [h] + s;
    forall i, j | 0 <= i < j < |r|
      ensures StrLe(r[i], r[j])
    {
      assert r[j] == s[j - 1] && s[j - 1] in s;
      if i > 0 {
        assert r[i] == s[i - 1];
      }
    }
  }

  /** Inserting into an ascending list keeps it ascending. */
  lemma {:induction false} InsertAscending(x: string, s: seq<string>)
    requires Ascending(s)
    ensures Ascending(Insert(x, s))
    decreases |s|
  {
    if |s| > 0 {
      if StrLe(x, s[0]) {
        forall y | y in s
          ensures StrLe(x, y)
        {
          var j :| 0 <= j < |s| && s[j] == y;
          if j > 0 {
            StrLeTransitive(x, s[0], s[j]);
          }
        }
        AscendingPrepend(x, s);
        assert Insert(x, s) == [x] + s;
      } else {
        assert Ascending(s[1..]) by {
          assert forall i :: 0 <= i < |s| - 1 ==> s[1..][i] == s[i + 1];
        }
        InsertAscending(x, s[1..]);
        InsertAbove(x, s);
        AscendingPrepend(s[0], Insert(x, s[1..]));
        assert Insert(x, s) == [s[0]] + Insert(x, s[1..]);
      }
    }
  }

  /** `sorted(s)`: the same values, ascending (see `SortAscending`). */
  function Sort(s: seq<string>): (r: seq<string>)
    ensures multiset(r) == multiset(s)
    decreases |s|
  {
    if |s| == 0 then []
    else
      assert s == [s[0]] + s[1..];
      Insert(s[0], Sort(s[1..]))
  }

  lemma {:induction false} SortAscending(s: seq<string>)
    ensures Ascending(Sort(s))
    decreases |s|
  {
    if |s| > 0 {
      SortAscending(s[1..]);
      InsertAscending(s[0], Sort(s[1..]));
    }
  }

  lemma {:induction false} DistinctCount<T>(s: seq<T>, x: T)
    requires Distinct(s)
    ensures multiset(s)[x] <= 1
    decreases |s|
  {
    if |s| > 0 {
      assert s == [s[0]] + s[1..];
      DistinctCount(s[1..], x);
      if x == s[0] {
        assert x !in s[1..];
      }
    }
  }

  lemma RepeatCount<T>(s: seq<T>, i: int, j: int)
    requires 0 <= i < j < |s| && s[i] == s[j]
    ensures multiset(s)[s[i]] >= 2
  {
    assert s == s[..j] + s[j..];
    assert s[i] in s[..j];
    assert s[j] in s[j..];
  }

  /** Sorting values that are all different gives a strictly ascending list of the same values. */
  lemma SortDistinct(s: seq<string>)
    requires Distinct(s)
    ensures StrictlyAscending(Sort(s))
    ensures forall y :: y in Sort(s) <==> y in s
  {
    var r := Sort(s);
    SortAscending(s);
    forall i, j | 0 <= i < j < |r|
      ensures r[i] != r[j]
    {
      if r[i] == r[j] {
        RepeatCount(r, i, j);
        DistinctCount(s, r[i]);
        assert false;
      }
    }
    assert forall y :: y in r <==> y in multiset(r);
  }

  /** An element below everything in a strictly ascending list can go in front of it. */
  lemma AscendingCons(x: string, s: seq<string>)
    requires StrictlyAscending(s)
    requires forall y :: y in s ==> StrLe(x, y) && x != y
    ensures StrictlyAscending([x] + s)
  {
    var r := [x] + s;
    forall i, j | 0 <= i < j < |r|
      ensures StrLe(r[i], r[j]) && r[i] != r[j]
    {
      assert r[j] == s[j - 1] && s[j - 1] in s;
      if i > 0 {
        assert r[i] == s[i - 1];
      }
    }
  }
}
