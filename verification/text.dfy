/**
  The Python string operations the budget tools rely on: `strip`, `rstrip(c)`,
  `lower`, `split(sep)`, `sep.join`, `split()` on whitespace, `replace`,
  `startswith` and the `in` substring test.
 */
module Text {

  /** Python's `str.isspace` for one character, by code point. */
  predicate IsSpace(c: char)
  {
    var n := c as int;
    n == 32 || 9 <= n <= 13 || 28 <= n <= 31 || n == 0x85 || n == 0xA0 || n == 0x1680
    || 0x2000 <= n <= 0x200A || n == 0x2028 || n == 0x2029 || n == 0x202F || n == 0x205F
    || n == 0x3000
  }

  /** The number of whitespace characters at the front of `s`. */
  function LeadingSpaces(s: string): (n: nat)
    ensures n <= |s|
    ensures n < |s| ==> !IsSpace(s[n])
  {
    if |s| > 0 && IsSpace(s[0]) then 1 + LeadingSpaces(s[1..]) else 0
  }

  /** The number of whitespace characters at the end of `s`. */
  function TrailingSpaces(s: string): (n: nat)
    ensures n <= |s|
    ensures n < |s| ==> !IsSpace(s[|s| - 1 - n])
  {
    if |s| > 0 && IsSpace(s[|s| - 1]) then 1 + TrailingSpaces(s[..|s| - 1]) else 0
  }

  lemma {:induction false} LeadingSpacesAreSpaces(s: string)
    ensures forall k :: 0 <= k < LeadingSpaces(s) ==> IsSpace(s[k])
  {
    if |s| > 0 && IsSpace(s[0]) {
      LeadingSpacesAreSpaces(s[1..]);
    }
  }

  lemma {:induction false} TrailingSpacesAreSpaces(s: string)
    ensures forall k :: |s| - TrailingSpaces(s) <= k < |s| ==> IsSpace(s[k])
  {
    if |s| > 0 && IsSpace(s[|s| - 1]) {
      TrailingSpacesAreSpaces(s[..|s| - 1]);
    }
  }

  /** `s.lstrip()`: drops the leading whitespace and nothing else. */
  function TrimLeft(s: string): (r: string)
  {
    s[LeadingSpaces(s)..]
  }

  /** `s.rstrip()`: drops the trailing whitespace and nothing else. */
  function TrimRight(s: string): (r: string)
  {
    s[..|s| - TrailingSpaces(s)]
  }

  /** `s.strip()`. */
  function Strip(s: string): (r: string)
    ensures r == [] || (!IsSpace(r[0]) && !IsSpace(r[|r| - 1]))
  {
    TrimRight(TrimLeft(s))
  }

  /** Text with no whitespace at either end is its own `strip()`. */
  lemma StripUnpadded(s: string)
    requires s == [] || (!IsSpace(s[0]) && !IsSpace(s[|s| - 1]))
    ensures Strip(s) == s
  {
  }

  /** `strip()` keeps a contiguous part of its input, so it adds no character. */
  lemma StripInside(s: string)
    ensures forall c :: c in Strip(s) ==> c in s
  {
    var t := TrimLeft(s);
    assert forall c :: c in t ==> c in s;
    assert forall c :: c in TrimRight(t) ==> c in t;
  }

  /** Only whitespace, or nothing: `not s.strip()`. */
  predicate IsBlank(s: string)
  {
    forall k :: 0 <= k < |s| ==> IsSpace(s[k])
  }

  lemma StripEmptyIffBlank(s: string)
    ensures Strip(s) == [] <==> IsBlank(s)
  {
    var n := LeadingSpaces(s);
    LeadingSpacesAreSpaces(s);
    if n < |s| {
      var t := TrimLeft(s);
      assert t[0] == s[n];
      TrailingSpacesAreSpaces(t);
      assert TrailingSpaces(t) < |t|;
    }
  }

  /** `s.rstrip(c)`: drops every trailing occurrence of `c`. */
  function RStripChar(s: string, c: char): (r: string)
    ensures |r| <= |s| && r == s[..|r|]
    ensures forall k :: |r| <= k < |s| ==> s[k] == c
    ensures r == [] || r[|r| - 1] != c
  {
    if |s| > 0 && s[|s| - 1] == c then RStripChar(s[..|s| - 1], c) else s
  }

  /** `c.lower()` for ASCII and Latin-1 letters. */
  function LowerChar(c: char): char
  {
    if 'A' <= c <= 'Z' || ('À' <= c <= 'Þ' && c != '×')
    then (c as int + 32) as char
    else c
  }

  /** `s.lower()`, character by character. */
  function Lower(s: string): (r: string)
    ensures |r| == |s|
    ensures forall k :: 0 <= k < |s| ==> r[k] == LowerChar(s[k])
  {
    seq(|s|, k requires 0 <= k < |s| => LowerChar(s[k]))
  }

  /** Lower-casing twice is lower-casing once. */
  lemma LowerIdempotent(s: string)
    ensures Lower(Lower(s)) == Lower(s)
  {
  }

  lemma LowerConcat(a: string, b: string)
    ensures Lower(a + b) == Lower(a) + Lower(b)
  {
  }

  /** Position of the first occurrence of `c` in `s`. */
  function IndexOf(s: string, c: char): (i: nat)
    requires c in s
    ensures i < |s| && s[i] == c && c !in s[..i]
  {
    if s[0] == c then 0 else 1 + IndexOf(s[1..], c)
  }

  /** `sep.join(parts)`. */
  function Join(parts: seq<string>, sep: string): string
  {
    if |parts| == 0 then ""
    else if |parts| == 1 then parts[0]
    else parts[0] + sep + Join(parts[1..], sep)
  }

  /** `s.split(sep)` for a one-character separator. */
  function Split(s: string, sep: char): (parts: seq<string>)
    ensures |parts| >= 1
    ensures forall i :: 0 <= i < |parts| ==> sep !in parts[i]
    ensures Join(parts, [sep]) == s
    decreases |s|
  {
    if sep !in s then [s]
    else
      var i := IndexOf(s, sep);
      var rest := Split(s[i + 1..], sep);
      assert s == s[..i] + [sep] + s[i + 1..];
      [s[..i]] + rest
  }

  lemma IndexOfAfterPrefix(a: string, b: string, sep: char)
    requires sep !in a
    ensures sep in a + [sep] + b
    ensures IndexOf(a + [sep] + b, sep) == |a|
  {
    var s := a + [sep] + b;
    assert s[|a|] == sep;
    assert s[..|a|] == a;
  }

  /** Splitting undoes joining when no part holds the separator. */
  lemma {:induction false} SplitJoin(parts: seq<string>, sep: char)
    requires |parts| >= 1
    requires forall i :: 0 <= i < |parts| ==> sep !in parts[i]
    ensures Split(Join(parts, [sep]), sep) == parts
    decreases |parts|
  {
    if |parts| > 1 {
      var tail := Join(parts[1..], [sep]);
      var s := parts[0] + [sep] + tail;
      assert Join(parts, [sep]) == s;
      IndexOfAfterPrefix(parts[0], tail, sep);
      assert s[..|parts[0]|] == parts[0];
      assert s[|parts[0]| + 1..] == tail;
      SplitJoin(parts[1..], sep);
      assert Split(s, sep) == [parts[0]] + Split(tail, sep);
      assert parts == [parts[0]] + parts[1..];
    }
  }

  /** `s.replace(a, b)` for one-character `a` and `b`. */
  function ReplaceChar(s: string, a: char, b: char): (r: string)
    ensures |r| == |s|
    ensures forall k :: 0 <= k < |s| ==> r[k] == (if s[k] == a then b else s[k])
  {
    seq(|s|, k requires 0 <= k < |s| => if s[k] == a then b else s[k])
  }

  lemma ReplaceAbsent(s: string, a: char, b: char)
    requires a !in s
    ensures ReplaceChar(s, a, b) == s
  {
  }

  /** Replacing `a` by `b` and back restores text that held no `b`. */
  lemma ReplaceBack(s: string, a: char, b: char)
    requires b !in s
    ensures ReplaceChar(ReplaceChar(s, a, b), b, a) == s
  {
  }

  /** `s.replace(c, "")`. */
  function RemoveChar(s: string, c: char): (r: string)
    ensures c !in r
    ensures forall x :: x in r ==> x in s
    ensures c !in s ==> r == s
  {
    if |s| == 0 then ""
    else (if s[0] == c then "" else [s[0]]) + RemoveChar(s[1..], c)
  }

  /** `s.startswith(prefix)`. */
  predicate StartsWith(s: string, prefix: string)
  {
    |prefix| <= |s| && s[..|prefix|] == prefix
  }

  predicate OccursAt(s: string, sub: string, i: int)
  {
    0 <= i && i + |sub| <= |s| && s[i..i + |sub|] == sub
  }

  /** `sub in s`. */
  predicate Contains(s: string, sub: string)
  {
    exists i | 0 <= i <= |s| - |sub| :: OccursAt(s, sub, i)
  }

  /** Length of the run of non-space characters at the front of `s`. */
  function WordLength(s: string): (n: nat)
    ensures n <= |s|
    ensures forall k :: 0 <= k < n ==> !IsSpace(s[k])
    ensures n == |s| || IsSpace(s[n])
  {
    if |s| == 0 || IsSpace(s[0]) then 0 else 1 + WordLength(s[1..])
  }

  /** A non-empty run of non-space characters. */
  predicate IsWord(w: string)
  {
    w != [] && forall k :: 0 <= k < |w| ==> !IsSpace(w[k])
  }

  /** `s.split()`: the maximal runs of non-space characters, in order. */
  function Words(s: string): (ws: seq<string>)
    ensures forall i :: 0 <= i < |ws| ==> IsWord(ws[i])
    decreases |s|
  {
    if |s| == 0 then []
    else if IsSpace(s[0]) then Words(s[1..])
    else
      var n := WordLength(s);
      [s[..n]] + Words(s[n..])
  }

  /** `' '.join(s.split())`: whitespace runs collapsed to one blank, ends trimmed. */
  function CollapseSpaces(s: string): string
  {
    Join(Words(s), " ")
  }

  /** A word holds no blank. */
  lemma WordNoBlank(w: string)
    requires IsWord(w)
    ensures ' ' !in w
  {
    forall k | 0 <= k < |w|
      ensures w[k] != ' '
    {
      assert !IsSpace(w[k]);
    }
  }

  /** Joined words make an empty text only when there are none. */
  lemma JoinWordsNonEmpty(ws: seq<string>)
    requires forall i :: 0 <= i < |ws| ==> IsWord(ws[i])
    ensures Join(ws, " ") == [] <==> ws == []
  {
    if |ws| > 0 {
      assert |Join(ws, " ")| >= |ws[0]| > 0;
    }
  }

  /** Joining words with blanks loses nothing: different word lists give different texts. */
  lemma JoinWordsInjective(a: seq<string>, b: seq<string>)
    requires forall i :: 0 <= i < |a| ==> IsWord(a[i])
    requires forall i :: 0 <= i < |b| ==> IsWord(b[i])
    requires Join(a, " ") == Join(b, " ")
    ensures a == b
  {
    JoinWordsNonEmpty(a);
    JoinWordsNonEmpty(b);
    if |a| > 0 && |b| > 0 {
      forall i | 0 <= i < |a|
        ensures ' ' !in a[i]
      {
        WordNoBlank(a[i]);
      }
      forall i | 0 <= i < |b|
        ensures ' ' !in b[i]
      {
        WordNoBlank(b[i]);
      }
      SplitJoin(a, ' ');
      SplitJoin(b, ' ');
    }
  }

  /** Text that is empty or starts with whitespace: a word cannot run into it. */
  predicate SpaceLed(t: string)
  {
    t == [] || IsSpace(t[0])
  }

  /** A word in `a` ends where `a` ends when whitespace follows. */
  lemma {:induction false} WordLengthBeforeSpace(a: string, t: string)
    requires SpaceLed(t)
    ensures WordLength(a + t) == WordLength(a)
    decreases |a|
  {
    if |a| > 0 && !IsSpace(a[0]) {
      assert (a + t)[1..] == a[1..] + t;
      WordLengthBeforeSpace(a[1..], t);
    } else if |a| == 0 {
      assert a + t == t;
    }
  }

  /** Splitting `a + t` past a leading blank of `a`. */
  lemma WordsSpaceStep(a: string, t: string)
    requires |a| > 0 && IsSpace(a[0])
    ensures Words(a + t) == Words(a[1..] + t)
  {
    assert (a + t)[1..] == a[1..] + t;
  }

  /** Splitting `a + t` past the first word of `a`, which whitespace in `t` cannot extend. */
  lemma WordsWordStep(a: string, t: string)
    requires |a| > 0 && !IsSpace(a[0]) && SpaceLed(t)
    ensures var n := WordLength(a);
      0 < n && Words(a + t) == [a[..n]] + Words(a[n..] + t)
  {
    var n := WordLength(a);
    WordLengthBeforeSpace(a, t);
    assert (a + t)[..n] == a[..n];
    assert (a + t)[n..] == a[n..] + t;
  }

  /** Behind any text, two whitespace-led tails with the same words give the same words. */
  lemma {:induction false} WordsBeforeSpace(a: string, t: string, u: string)
    requires SpaceLed(t) && SpaceLed(u) && Words(t) == Words(u)
    ensures Words(a + t) == Words(a + u)
    decreases |a|
  {
    if |a| == 0 {
      assert a + t == t && a + u == u;
    } else if IsSpace(a[0]) {
      WordsSpaceStep(a, t);
      WordsSpaceStep(a, u);
      WordsBeforeSpace(a[1..], t, u);
    } else {
      WordsWordStep(a, t);
      WordsWordStep(a, u);
      WordsBeforeSpace(a[WordLength(a)..], t, u);
    }
  }

  /** A run of two blanks splits like a single blank. */
  lemma WordsDoubleBlank(a: string, b: string)
    ensures Words(a + "  " + b) == Words(a + " " + b)
  {
    assert a + "  " + b == a + ("  " + b);
    assert a + " " + b == a + (" " + b);
    assert ("  " + b)[1..] == " " + b;
    assert (" " + b)[1..] == b;
    WordsBeforeSpace(a, "  " + b, " " + b);
  }

  /** Blanks around a text split like the bare text. */
  lemma WordsPadded(a: string)
    ensures Words(" " + a + " ") == Words(a)
  {
    assert (" " + a + " ")[1..] == a + " ";
    assert a + [] == a;
    WordsBeforeSpace(a, " ", []);
  }
}
