/**
  The line-rewriting side of the test-data generator: a budget file held as
  its lines and its content, and the four edits used to build test
  scenarios (remove elements, change a property, add an orphan element,
  change a description).
 */
module Generator {
  import opened Wrappers
  import opened Text
  import opened Lists

  // ---------------------------------------------------------------------
  // The modifier's state
  // ---------------------------------------------------------------------

  /** The file's lines and its content. */
  datatype Modifier = Modifier(lines: seq<string>, content: string)

  /** The content is the lines joined by newlines. */
  predicate Consistent(m: Modifier)
  {
    m.content == Join(m.lines, "\n")
  }

  /** A modifier on the text of a file: the content split at newlines. */
  function FromContent(content: string): (m: Modifier)
    ensures Consistent(m) && m.content == content
    ensures |m.lines| >= 1 && forall i :: 0 <= i < |m.lines| ==> '\n' !in m.lines[i]
  {
    Modifier(Split(content, '\n'), content)
  }

  /** A modifier holding `lines`, with the content rebuilt from them. */
  function WithLines(lines: seq<string>): (m: Modifier)
    ensures Consistent(m) && m.lines == lines
  {
    Modifier(lines, Join(lines, "\n"))
  }

  // ---------------------------------------------------------------------
  // Record lines
  // ---------------------------------------------------------------------

  predicate IsUpper(c: char)
  {
    'A' <= c <= 'Z'
  }

  /** A character the code group `[^|#]` accepts. */
  predicate CodeChar(c: char)
  {
    c != '|' && c != '#'
  }

  /** Length of the run of code characters at the front of `s`. */
  function CodeRun(s: string): (n: nat)
    ensures n <= |s|
    decreases |s|
  {
    if |s| == 0 || !CodeChar(s[0]) then 0 else 1 + CodeRun(s[1..])
  }

  /** The run is made of code characters and stops at the first other one. */
  lemma {:induction false} CodeRunChars(s: string)
    ensures forall k :: 0 <= k < CodeRun(s) ==> CodeChar(s[k])
    ensures CodeRun(s) < |s| ==> !CodeChar(s[CodeRun(s)])
    decreases |s|
  {
    if |s| > 0 && CodeChar(s[0]) {
      CodeRunChars(s[1..]);
    }
  }

  /**
    The code of a record line: `~`, an upper-case letter, `|`, a non-empty
    run of characters other than `|` and `#`, an optional `#`, and `|`.
   */
  function RecordCode(line: string): Option<string>
  {
    if |line| >= 3 && line[0] == '~' && IsUpper(line[1]) && line[2] == '|' then
      var rest := line[3..];
      var n := CodeRun(rest);
      if n > 0 && n < |rest| && (rest[n] == '|' || (rest[n] == '#' && n + 1 < |rest| && rest[n + 1] == '|')) then
        Some(rest[..n])
      else None
    else None
  }

  /** What `RecordCode` accepts: the record shape, with the code it reports in the code position. */
  lemma RecordCodeShape(line: string)
    ensures var r := RecordCode(line);
      r.Some? ==> |line| >= 3 && line[0] == '~' && IsUpper(line[1]) && line[2] == '|'
                  && |r.value| > 0 && '|' !in r.value && '#' !in r.value
                  && (StartsWith(line, line[..3] + r.value + "|") || StartsWith(line, line[..3] + r.value + "#|"))
  {
    if RecordCode(line).Some? {
      var rest := line[3..];
      var n := CodeRun(rest);
      CodeRunChars(rest);
      assert forall k :: 0 <= k < n ==> rest[..n][k] == rest[k];
      assert line[..3 + n + 1] == line[..3] + rest[..n] + [rest[n]];
      assert rest[n] == '#' ==> line[..3 + n + 2] == line[..3] + rest[..n] + [rest[n], rest[n + 1]];
    }
  }

  lemma {:induction false} CodeRunPrefix(code: string, s: string)
    requires '|' !in code && '#' !in code
    requires |s| > 0 && !CodeChar(s[0])
    ensures CodeRun(code + s) == |code|
    decreases |code|
  {
    if |code| > 0 {
      assert (code + s)[1..] == code[1..] + s;
      CodeRunPrefix(code[1..], s);
    } else {
      assert code + s == s;
    }
  }

  /** Every line of the record shape yields its code, with or without the `#`. */
  lemma RecordCodeOf(tag: char, code: string, tail: string)
    requires IsUpper(tag) && |code| > 0 && '|' !in code && '#' !in code
    ensures RecordCode("~" + [tag] + "|" + code + "|" + tail) == Some(code)
    ensures RecordCode("~" + [tag] + "|" + code + "#|" + tail) == Some(code)
  {
    var plain := "~" + [tag] + "|" + code + "|" + tail;
    assert plain[3..] == code + ("|" + tail);
    CodeRunPrefix(code, "|" + tail);
    assert plain[3..][..|code|] == code;
    var hashed := "~" + [tag] + "|" + code + "#|" + tail;
    assert hashed[3..] == code + ("#|" + tail);
    CodeRunPrefix(code, "#|" + tail);
    assert hashed[3..][..|code|] == code;
  }

  // ---------------------------------------------------------------------
  // remove_elements
  // ---------------------------------------------------------------------

  /**
    The loop of `remove_elements` with its skip flag: a record line for a
    listed code is dropped and starts skipping; any other record line stops
    skipping and is kept; other lines are dropped while skipping.
   */
  function RemoveFrom(lines: seq<string>, codes: seq<string>, skip: bool): (r: seq<string>)
    ensures forall k :: 0 <= k < |r| && RecordCode(r[k]).Some? ==> RecordCode(r[k]).value !in codes
    decreases |lines|
  {
    if |lines| == 0 then []
    else
      var next := NextSkip(lines[0], codes, skip);
      var rest := RemoveFrom(lines[1..], codes, next);
      if next then rest
      else
        assert forall k :: 1 <= k < |rest| + 1 ==> ([lines[0]] + rest)[k] == rest[k - 1];
        [lines[0]] + rest
  }

  /**
    The skip flag after line `x`: a record line sets it to whether its code
    is listed, any other line leaves it. A line is dropped exactly when the
    flag after it is set.
   */
  predicate NextSkip(x: string, codes: seq<string>, skip: bool)
  {
    if RecordCode(x).Some? then RecordCode(x).value in codes else skip
  }

  /** `remove_elements(codes)` on the lines: no record line of a removed code is left. */
  function RemoveElements(lines: seq<string>, codes: seq<string>): (r: seq<string>)
    ensures forall k :: 0 <= k < |r| && RecordCode(r[k]).Some? ==> RecordCode(r[k]).value !in codes
    ensures IsSubseq(r, lines)
  {
    RemoveKeepsOrder(lines, codes, false);
    RemoveFrom(lines, codes, false)
  }

  /** The code of the last record line in `ls`: the record the last line belongs to. */
  function OwnerCode(ls: seq<string>): Option<string>
    decreases |ls|
  {
    if |ls| == 0 then None
    else if RecordCode(ls[|ls| - 1]).Some? then RecordCode(ls[|ls| - 1])
    else OwnerCode(ls[..|ls| - 1])
  }

  /** The last line of `ls` survives: it belongs to no record, or to one whose code is not removed. */
  predicate KeptLast(ls: seq<string>, codes: seq<string>)
  {
    OwnerCode(ls).None? || OwnerCode(ls).value !in codes
  }

  /** Reference definition: each line is kept exactly when the record it belongs to is not removed. */
  function RemoveSpec(lines: seq<string>, codes: seq<string>): seq<string>
    decreases |lines|
  {
    if |lines| == 0 then []
    else RemoveSpec(lines[..|lines| - 1], codes) + (if KeptLast(lines, codes) then [lines[|lines| - 1]] else [])
  }

  /** One step of the loop: the first line is kept unless the flag after it is set. */
  lemma RemoveFromStep(lines: seq<string>, codes: seq<string>, skip: bool)
    requires |lines| > 0
    ensures var next := NextSkip(lines[0], codes, skip);
      RemoveFrom(lines, codes, skip) == (if next then [] else [lines[0]]) + RemoveFrom(lines[1..], codes, next)
  {
  }

  /** Extending the prefix by one line moves the owner as the loop moves its flag. */
  lemma KeptLastSnoc(p: seq<string>, x: string, codes: seq<string>)
    ensures KeptLast(p + [x], codes) == !NextSkip(x, codes, !KeptLast(p, codes))
  {
    var p' := p + [x];
    assert p'[..|p'| - 1] == p && p'[|p'| - 1] == x;
  }

  lemma RemoveSpecSnoc(p: seq<string>, x: string, codes: seq<string>)
    ensures RemoveSpec(p + [x], codes) == RemoveSpec(p, codes) + (if KeptLast(p + [x], codes) then [x] else [])
  {
    var p' := p + [x];
    assert p'[..|p'| - 1] == p && p'[|p'| - 1] == x;
  }

  /** Line `x` after prefix `p`, if the reference definition keeps it. */
  function KeptAfter(p: seq<string>, x: string, codes: seq<string>): seq<string>
  {
    if KeptLast(p + [x], codes) then [x] else []
  }

  /** The reference side of the inductive step of `RemoveFromSpec`. */
  lemma SpecSideStep(p: seq<string>, x: string, tail: seq<string>, codes: seq<string>)
    requires RemoveSpec(p + [x] + tail, codes) == RemoveSpec(p + [x], codes) + RemoveFrom(tail, codes, !KeptLast(p + [x], codes))
    ensures RemoveSpec(p + ([x] + tail), codes)
         == RemoveSpec(p, codes) + KeptAfter(p, x, codes) + RemoveFrom(tail, codes, !KeptLast(p + [x], codes))
  {
    ConcatAssoc(p, [x], tail);
    RemoveSpecSnoc(p, x, codes);
  }

  /** The loop side of the inductive step of `RemoveFromSpec`. */
  lemma LoopSideStep(p: seq<string>, x: string, tail: seq<string>, codes: seq<string>)
    ensures RemoveFrom([x] + tail, codes, !KeptLast(p, codes))
         == KeptAfter(p, x, codes) + RemoveFrom(tail, codes, !KeptLast(p + [x], codes))
  {
    KeptLastSnoc(p, x, codes);
    RemoveFromStep([x] + tail, codes, !KeptLast(p, codes));
    assert ([x] + tail)[1..] == tail;
  }

  /** The inductive step of `RemoveFromSpec`, from the claim for the longer prefix `p + [x]`. */
  lemma RemoveFromSpecStep(p: seq<string>, x: string, tail: seq<string>, codes: seq<string>)
    requires RemoveSpec(p + [x] + tail, codes) == RemoveSpec(p + [x], codes) + RemoveFrom(tail, codes, !KeptLast(p + [x], codes))
    ensures RemoveSpec(p + ([x] + tail), codes) == RemoveSpec(p, codes) + RemoveFrom([x] + tail, codes, !KeptLast(p, codes))
  {
    var a, k, b := RemoveSpec(p, codes), KeptAfter(p, x, codes), RemoveFrom(tail, codes, !KeptLast(p + [x], codes));
    SpecSideStep(p, x, tail, codes);
    LoopSideStep(p, x, tail, codes);
    ConcatAssoc(a, k, b);
  }

  lemma {:induction false} RemoveFromSpec(p: seq<string>, rest: seq<string>, codes: seq<string>)
    ensures RemoveSpec(p + rest, codes) == RemoveSpec(p, codes) + RemoveFrom(rest, codes, !KeptLast(p, codes))
    decreases |rest|
  {
    if |rest| == 0 {
      assert p + rest == p;
    } else {
      var x, tail := rest[0], rest[1..];
      RemoveFromSpec(p + [x], tail, codes);
      RemoveFromSpecStep(p, x, tail, codes);
      assert [x] + tail == rest;
    }
  }

  /** The skip-flag loop keeps exactly the lines whose record is not removed. */
  lemma RemoveElementsMatchesSpec(lines: seq<string>, codes: seq<string>)
    ensures RemoveElements(lines, codes) == RemoveSpec(lines, codes)
  {
    RemoveFromSpec([], lines, codes);
    assert [] + lines == lines;
  }

  /** Removing nothing changes nothing. */
  lemma {:induction false} RemoveNothing(lines: seq<string>, skip: bool)
    requires !skip
    ensures RemoveFrom(lines, [], skip) == lines
    decreases |lines|
  {
    if |lines| > 0 {
      RemoveNothing(lines[1..], false);
    }
  }

  /** Lines before the first record line are always kept. */
  lemma {:induction false} HeaderKept(lines: seq<string>, codes: seq<string>, n: nat)
    requires n <= |lines| && forall k :: 0 <= k < n ==> RecordCode(lines[k]).None?
    ensures IsPrefix(RemoveElements(lines, codes), lines[..n])
    decreases n
  {
    if n > 0 {
      assert forall k :: 0 <= k < n - 1 ==> lines[1..][k] == lines[k + 1];
      HeaderKept(lines[1..], codes, n - 1);
      assert lines[..n] == [lines[0]] + lines[1..][..n - 1];
    }
  }

  /** `b` is a prefix of `a`. */
  predicate IsPrefix<T(==)>(a: seq<T>, b: seq<T>)
  {
    |b| <= |a| && a[..|b|] == b
  }

  /** What is left is the input with lines left out, the rest in their original order. */
  lemma {:induction false} RemoveKeepsOrder(lines: seq<string>, codes: seq<string>, skip: bool)
    ensures IsSubseq(RemoveFrom(lines, codes, skip), lines)
    decreases |lines|
  {
    if |lines| > 0 {
      var skip' := if RecordCode(lines[0]).Some? then RecordCode(lines[0]).value in codes else skip;
      var rest := RemoveFrom(lines[1..], codes, skip');
      RemoveKeepsOrder(lines[1..], codes, skip');
      assert lines == [lines[0]] + lines[1..];
      if RemoveFrom(lines, codes, skip) == rest {
        SubseqPrepend(rest, lines[0], lines[1..]);
      } else {
        assert RemoveFrom(lines, codes, skip) == [lines[0]] + rest;
        assert ([lines[0]] + rest)[1..] == rest;
      }
    }
  }

  /** A record line appended for a removed code is removed again, and nothing else changes. */
  lemma RemoveAppendedRecord(lines: seq<string>, codes: seq<string>, x: string)
    requires RecordCode(x).Some? && RecordCode(x).value in codes
    ensures RemoveElements(lines + [x], codes) == RemoveElements(lines, codes)
  {
    RemoveElementsMatchesSpec(lines + [x], codes);
    RemoveElementsMatchesSpec(lines, codes);
    var all := lines + [x];
    assert all[..|all| - 1] == lines && all[|all| - 1] == x;
    assert !KeptLast(all, codes);
  }

  // ---------------------------------------------------------------------
  // modify_property
  // ---------------------------------------------------------------------

  /**
    `re.sub(r'(name\\)[^\\]*(\\)', r'\g<1>value\g<2>', s)`: scanning from
    the left, every `name` followed by a backslash, a run of characters
    other than a backslash, and a backslash, has that run replaced by
    `value`; the scan resumes after the closing backslash.
   */
  function SubProperty(s: string, name: string, value: string): string
    decreases |s|
  {
    if |s| == 0 then ""
    else if StartsWith(s, name + "\\") && '\\' in s[|name| + 1..] then
      var j := |name| + 1 + IndexOf(s[|name| + 1..], '\\');
      name + "\\" + value + "\\" + SubProperty(s[j + 1..], name, value)
    else [s[0]] + SubProperty(s[1..], name, value)
  }

  /** Text in which the name never appears followed by a backslash is left alone. */
  lemma {:induction false} SubPropertyAbsent(s: string, name: string, value: string)
    requires forall i :: !OccursAt(s, name + "\\", i)
    ensures SubProperty(s, name, value) == s
    decreases |s|
  {
    if |s| > 0 {
      assert !OccursAt(s, name + "\\", 0);
      forall i ensures !OccursAt(s[1..], name + "\\", i) {
        assert !OccursAt(s, name + "\\", i + 1);
        if 0 <= i && i + |name| + 1 <= |s| - 1 {
          assert s[1..][i..i + |name| + 1] == s[i + 1..i + 1 + |name| + 1];
        }
      }
      SubPropertyAbsent(s[1..], name, value);
      assert s == [s[0]] + s[1..];
    }
  }

  /** At an occurrence of the name, the value up to the next backslash is replaced. */
  lemma SubPropertyAt(name: string, prev: string, post: string, value: string)
    requires '\\' !in name && '\\' !in prev
    ensures SubProperty(name + "\\" + prev + "\\" + post, name, value)
            == name + "\\" + value + "\\" + SubProperty(post, name, value)
  {
    var s := name + "\\" + prev + "\\" + post;
    assert s[..|name| + 1] == name + "\\";
    assert s[|name| + 1..] == prev + "\\" + post;
    IndexOfAfterPrefix(prev, post, '\\');
    assert s[|name| + 1 + |prev| + 1..] == post;
  }

  /** A first character that does not start an occurrence is kept. */
  lemma SubPropertySkip(s: string, name: string, value: string)
    requires |s| > 0 && !StartsWith(s, name + "\\")
    ensures SubProperty(s, name, value) == [s[0]] + SubProperty(s[1..], name, value)
  {
  }

  /** A prefix without backslashes before an occurrence of the name is passed over unchanged. */
  lemma {:induction false} SubPropertyPassOver(pre: string, t: string, name: string, value: string)
    requires '\\' !in pre && '\\' !in name && StartsWith(t, name)
    ensures SubProperty(pre + t, name, value) == pre + SubProperty(t, name, value)
    decreases |pre|
  {
    if |pre| == 0 {
      assert pre + t == t;
    } else {
      var s := pre + t;
      assert s[|name|] != '\\' by {
        if |name| < |pre| {
          assert s[|name|] == pre[|name|];
        } else if |name| < |s| {
          assert s[|name|] == t[|name| - |pre|] == name[|name| - |pre|];
        }
      }
      SubPropertySkip(s, name, value);
      assert s[1..] == pre[1..] + t;
      SubPropertyPassOver(pre[1..], t, name, value);
      ConcatAssoc([pre[0]], pre[1..], SubProperty(t, name, value));
      assert [pre[0]] + pre[1..] == pre;
    }
  }

  lemma Concat6<T>(a: seq<T>, b: seq<T>, c: seq<T>, d: seq<T>, e: seq<T>, f: seq<T>)
    ensures a + b + c + d + e + f == a + (b + c + d + e + f)
  {
  }

  /**
    The value after the first occurrence of the name is replaced, when
    neither the text before it, the name nor the previous value holds a
    backslash.
   */
  lemma SubPropertyFirst(pre: string, name: string, prev: string, post: string, value: string)
    requires '\\' !in pre && '\\' !in name && '\\' !in prev
    ensures SubProperty(pre + name + "\\" + prev + "\\" + post, name, value)
            == pre + name + "\\" + value + "\\" + SubProperty(post, name, value)
  {
    var e := name + "\\" + prev + "\\" + post;
    Concat6(pre, name, "\\", prev, "\\", post);
    Concat6(pre, name, "\\", value, "\\", SubProperty(post, name, value));
    assert StartsWith(e, name) by {
      assert e[..|name|] == name;
    }
    SubPropertyPassOver(pre, e, name, value);
    SubPropertyAt(name, prev, post, value);
  }

  /** The `~X` line of a code. */
  predicate IsPropertyLine(line: string, code: string)
  {
    StartsWith(line, "~X|" + code + "|")
  }

  /** `modify_property(code, name, value)` on the lines: only the code's `~X` lines change. */
  function ModifyProperty(lines: seq<string>, code: string, name: string, value: string): (r: seq<string>)
    ensures |r| == |lines|
    ensures forall i :: 0 <= i < |lines| && !IsPropertyLine(lines[i], code) ==> r[i] == lines[i]
    ensures forall i :: 0 <= i < |lines| && IsPropertyLine(lines[i], code) ==> r[i] == SubProperty(lines[i], name, value)
  {
    seq(|lines|, i requires 0 <= i < |lines| =>
      if IsPropertyLine(lines[i], code) then SubProperty(lines[i], name, value) else lines[i])
  }

  /** On a `~X` line whose first property is `name`, its value becomes the new one. */
  lemma ModifyFirstProperty(lines: seq<string>, i: int, code: string, name: string, prev: string, post: string, value: string)
    requires 0 <= i < |lines| && lines[i] == "~X|" + code + "|" + name + "\\" + prev + "\\" + post
    requires '\\' !in code && '\\' !in name && '\\' !in prev
    ensures ModifyProperty(lines, code, name, value)[i] == "~X|" + code + "|" + name + "\\" + value + "\\" + SubProperty(post, name, value)
  {
    var pre := "~X|" + code + "|";
    assert lines[i] == pre + name + "\\" + prev + "\\" + post;
    assert IsPropertyLine(lines[i], code) by {
      assert lines[i][..|pre|] == pre;
    }
    SubPropertyFirst(pre, name, prev, post, value);
  }

  // ---------------------------------------------------------------------
  // change_description
  // ---------------------------------------------------------------------

  /** A `~C` line of the code, written with or without the `#` of a chapter. */
  predicate IsConceptLine(line: string, code: string)
  {
    StartsWith(line, "~C|" + code + "|") || StartsWith(line, "~C|" + code + "#|")
  }

  /** The line with its fourth `|`-separated field replaced, when it has one. */
  function Redescribed(line: string, description: string): string
  {
    var parts := Split(line, '|');
    if |parts| >= 4 then Join(parts[3 := description], "|") else line
  }

  /** `change_description(code, description)` on the lines: only the code's `~C` lines change. */
  function ChangeDescription(lines: seq<string>, code: string, description: string): (r: seq<string>)
    ensures |r| == |lines|
    ensures forall i :: 0 <= i < |lines| && !IsConceptLine(lines[i], code) ==> r[i] == lines[i]
    ensures forall i :: 0 <= i < |lines| && |Split(lines[i], '|')| < 4 ==> r[i] == lines[i]
    ensures forall i :: 0 <= i < |lines| && IsConceptLine(lines[i], code) ==> r[i] == Redescribed(lines[i], description)
  {
    seq(|lines|, i requires 0 <= i < |lines| =>
      if IsConceptLine(lines[i], code) then Redescribed(lines[i], description) else lines[i])
  }

  /**
    Split again, the rewritten line has the new description as its fourth
    field and every other field as before, when the description holds no
    `|`.
   */
  lemma RedescribedFields(line: string, description: string)
    requires '|' !in description
    requires |Split(line, '|')| >= 4
    ensures Split(Redescribed(line, description), '|') == Split(line, '|')[3 := description]
  {
    var parts := Split(line, '|')[3 := description];
    SplitJoin(parts, '|');
  }

  /** Setting the same description twice is the same as setting it once. */
  lemma RedescribedIdempotent(line: string, description: string)
    requires '|' !in description
    ensures Redescribed(Redescribed(line, description), description) == Redescribed(line, description)
  {
    var parts := Split(line, '|');
    if |parts| >= 4 {
      RedescribedFields(line, description);
      var again := parts[3 := description];
      assert again[3 := description] == again;
    }
  }

  // ---------------------------------------------------------------------
  // add_orphan_element
  // ---------------------------------------------------------------------

  /**
    The `~C` line of an element that is only in the budget: code, unit,
    description, the price as written by the caller, the fixed date
    `999999` and type `0`, in the order `add_orphan_element` writes them.
   */
  function OrphanFieldList(code: string, unit: string, description: string, price: string): seq<string>
  {
    ["~C", code, unit, description, price, "999999", "0", ""]
  }

  /** `~C|code|unit|description|price|999999|0|`: the fields separated by `|`. */
  function OrphanLine(code: string, unit: string, description: string, price: string): string
  {
    Join(OrphanFieldList(code, unit, description, price), "|")
  }

  /** `add_orphan_element`: the orphan line goes after every existing line. */
  function AddOrphan(lines: seq<string>, code: string, unit: string, description: string, price: string): (r: seq<string>)
    ensures |r| == |lines| + 1 && r[..|lines|] == lines
    ensures r[|lines|] == OrphanLine(code, unit, description, price)
  {
    lines + [OrphanLine(code, unit, description, price)]
  }

  lemma JoinFront(a: string, rest: seq<string>, sep: string)
    requires |rest| > 0
    ensures Join([a] + rest, sep) == a + sep + Join(rest, sep)
  {
    assert ([a] + rest)[1..] == rest;
  }

  /** The orphan line is a record line of its own code. */
  lemma OrphanRecordCode(code: string, unit: string, description: string, price: string)
    requires |code| > 0 && '|' !in code && '#' !in code
    ensures RecordCode(OrphanLine(code, unit, description, price)) == Some(code)
  {
    var parts := OrphanFieldList(code, unit, description, price);
    var tail := Join(parts[2..], "|");
    JoinFront(code, parts[2..], "|");
    assert parts[1..] == [code] + parts[2..];
    JoinFront("~C", parts[1..], "|");
    assert parts == ["~C"] + parts[1..];
    assert OrphanLine(code, unit, description, price) == "~C" + "|" + (code + "|" + tail);
    assert "~C" + "|" + (code + "|" + tail) == "~" + ['C'] + "|" + code + "|" + tail;
    RecordCodeOf('C', code, tail);
  }

  /** The fields of the orphan line, when none of the given texts holds a `|`. */
  lemma OrphanFields(code: string, unit: string, description: string, price: string)
    requires '|' !in code && '|' !in unit && '|' !in description && '|' !in price
    ensures Split(OrphanLine(code, unit, description, price), '|')
            == ["~C", code, unit, description, price, "999999", "0", ""]
  {
    var parts := OrphanFieldList(code, unit, description, price);
    assert forall i :: 0 <= i < |parts| ==> '|' !in parts[i];
    SplitJoin(parts, '|');
  }

  /** Removing the orphan's code takes the orphan out again and leaves the rest as before. */
  lemma RemoveOrphan(lines: seq<string>, codes: seq<string>, code: string, unit: string, description: string, price: string)
    requires code in codes && |code| > 0 && '|' !in code && '#' !in code
    ensures RemoveElements(AddOrphan(lines, code, unit, description, price), codes) == RemoveElements(lines, codes)
  {
    OrphanRecordCode(code, unit, description, price);
    RemoveAppendedRecord(lines, codes, OrphanLine(code, unit, description, price));
  }

  // ---------------------------------------------------------------------
  // The modifier's edits
  // ---------------------------------------------------------------------

  datatype Edit =
    | RemoveCodes(codes: seq<string>)
    | SetProperty(code: string, name: string, value: string)
    | AddOrphanElement(code: string, unit: string, description: string, price: string)
    | SetDescription(code: string, description: string)

  /** The lines after one edit. */
  function EditLines(lines: seq<string>, e: Edit): seq<string>
  {
    match e
    case RemoveCodes(codes) => RemoveElements(lines, codes)
    case SetProperty(code, name, value) => ModifyProperty(lines, code, name, value)
    case AddOrphanElement(code, unit, description, price) => AddOrphan(lines, code, unit, description, price)
    case SetDescription(code, description) => ChangeDescription(lines, code, description)
  }

  /** Every edit replaces the lines and rebuilds the content from them. */
  function Apply(m: Modifier, e: Edit): (r: Modifier)
    ensures Consistent(r)
    ensures e.RemoveCodes? ==> IsSubseq(r.lines, m.lines)
    ensures e.SetProperty? || e.SetDescription? ==> |r.lines| == |m.lines|
    ensures e.AddOrphanElement? ==> |r.lines| == |m.lines| + 1 && r.lines[..|m.lines|] == m.lines
  {
    WithLines(EditLines(m.lines, e))
  }

  /** A sequence of edits, applied from the first. */
  function ApplyAll(m: Modifier, es: seq<Edit>): (r: Modifier)
    ensures |es| > 0 ==> Consistent(r)
    decreases |es|
  {
    if |es| == 0 then m else ApplyAll(Apply(m, es[0]), es[1..])
  }

  /** Edits keep the content in step with the lines when it starts out in step. */
  lemma {:induction false} ApplyAllConsistent(m: Modifier, es: seq<Edit>)
    requires Consistent(m)
    ensures Consistent(ApplyAll(m, es))
    decreases |es|
  {
    if |es| > 0 {
      ApplyAllConsistent(Apply(m, es[0]), es[1..]);
    }
  }
}
