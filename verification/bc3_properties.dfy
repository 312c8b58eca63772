/**
  What a BC3 parse guarantees: the element map is keyed by each element's
  own code, property maps never hold the four keys that have named fields,
  every element's children are exactly the child list of its `~D` record,
  and an element's parent and quantity come from the last `~D` record that
  lists it under a known parent.
 */
module Bc3Properties {
  import opened Wrappers
  import opened Text
  import opened Numbers
  import opened Assoc
  import opened Bc3Parser
  import Lists

  /** Equal in every field that hierarchy linking does not touch. */
  predicate SameCore(a: Bc3Element, b: Bc3Element)
  {
    a.(children := [], parentCode := None, quantity := 0.0) == b.(children := [], parentCode := None, quantity := 0.0)
  }

  /** Property keys are unique, non-empty and never one of the named-field keys. */
  predicate CleanProperties(ps: seq<(string, Value)>)
  {
    UniqueKeys(ps) && forall i :: 0 <= i < |ps| ==> ps[i].0 != "" && ps[i].0 !in SpecialKeys
  }

  /** Keyed by code, codes usable, properties clean. */
  predicate WellFormedElements(es: seq<(string, Bc3Element)>)
  {
    UniqueKeys(es)
    && (forall i :: 0 <= i < |es| ==> es[i].0 == es[i].1.code && IsCode(es[i].0))
    && (forall i :: 0 <= i < |es| ==> CleanProperties(es[i].1.properties))
  }

  /** No element has been linked yet. */
  predicate Unlinked(es: seq<(string, Bc3Element)>)
  {
    forall i :: 0 <= i < |es| ==> es[i].1.children == [] && es[i].1.parentCode == None && es[i].1.quantity == 0.0
  }

  /** Parents are unique usable codes, each with a non-empty list of usable child codes. */
  predicate WellFormedHierarchy(h: seq<(string, seq<(string, real)>)>)
  {
    UniqueKeys(h)
    && (forall i :: 0 <= i < |h| ==> IsCode(h[i].0) && h[i].1 != [])
    && (forall i, j :: 0 <= i < |h| && 0 <= j < |h[i].1| ==> IsCode(h[i].1[j].0))
  }

  predicate StateInv(st: ParseState)
  {
    WellFormedElements(st.elements) && Unlinked(st.elements) && WellFormedHierarchy(st.hierarchy)
  }

  /** The value of the last pair with key `k`. */
  function LastGet<V>(a: seq<(string, V)>, k: string): (r: Option<V>)
    ensures r.Some? ==> (k, r.value) in a
    ensures r.None? ==> k !in Keys(a)
    decreases |a|
  {
    if |a| == 0 then None
    else
      var later := LastGet(a[1..], k);
      assert Keys(a) == [a[0].0] + Keys(a[1..]);
      if later.Some? then later else if a[0].0 == k then Some(a[0].1) else None
  }

  /** The parent and quantity of the last hierarchy entry, among parents in `ks`, that lists `k`. */
  function LastParent(h: seq<(string, seq<(string, real)>)>, ks: seq<string>, k: string): (r: Option<(string, real)>)
    ensures r.Some? ==> r.value.0 in ks && r.value.0 in Keys(h)
    decreases |h|
  {
    if |h| == 0 then None
    else
      var later := LastParent(h[1..], ks, k);
      assert Keys(h) == [h[0].0] + Keys(h[1..]);
      if later.Some? then later
      else if h[0].0 in ks && LastGet(h[0].1, k).Some? then Some((h[0].0, LastGet(h[0].1, k).value))
      else None
  }

  lemma SetPropertyClean(e: Bc3Element, key: string, value: string)
    requires CleanProperties(e.properties)
    ensures CleanProperties(SetProperty(e, key, value).properties)
  {
    if key != "" && key !in SpecialKeys {
      var ps := Put(e.properties, key, ParsePropertyValue(value));
      forall i | 0 <= i < |ps| ensures ps[i].0 != "" && ps[i].0 !in SpecialKeys {
        if key !in Keys(e.properties) && i == |e.properties| {
        } else {
          assert ps[i].0 == Keys(e.properties)[i];
        }
      }
    }
  }

  lemma {:induction false} ApplyPropertiesClean(e: Bc3Element, tokens: seq<string>)
    requires CleanProperties(e.properties)
    ensures CleanProperties(ApplyProperties(e, tokens).properties)
    decreases |tokens|
  {
    if |tokens| >= 2 {
      SetPropertyClean(e, Strip(tokens[0]), Strip(tokens[1]));
      ApplyPropertiesClean(SetProperty(e, Strip(tokens[0]), Strip(tokens[1])), tokens[2..]);
    }
  }

  /** Replacing the element stored under an existing code by one with the same code keeps the map well formed. */
  lemma PutSameCode(es: seq<(string, Bc3Element)>, e: Bc3Element)
    requires WellFormedElements(es) && Unlinked(es)
    requires IsCode(e.code) && CleanProperties(e.properties)
    requires e.children == [] && e.parentCode == None && e.quantity == 0.0
    ensures WellFormedElements(Put(es, e.code, e)) && Unlinked(Put(es, e.code, e))
  {
    var r := Put(es, e.code, e);
    if e.code in Keys(es) {
      forall i | 0 <= i < |r| ensures r[i].0 == r[i].1.code {
        assert r[i] == if es[i].0 == e.code then (e.code, e) else es[i];
      }
    }
  }

  lemma StepComponentInv(st: ParseState, data: string)
    requires StateInv(st)
    ensures StateInv(match ParseComponent(data) case Some(e) => st.(elements := Put(st.elements, e.code, e)) case None => st)
  {
    if ParseComponent(data).Some? {
      PutSameCode(st.elements, ParseComponent(data).value);
    }
  }

  /**
    A `~C` record with a usable code replaces whatever element that code had,
    properties included, with the fresh element; nothing else changes.
   */
  lemma ComponentReplaces(st: ParseState, data: string, e: Bc3Element)
    requires ParseComponent(data) == Some(e)
    ensures var r := ApplyRecord(st, Record('C', data));
      Get(r.elements, e.code) == Some(e) && e.properties == []
      && (forall k :: k != e.code ==> Get(r.elements, k) == Get(st.elements, k))
      && r.hierarchy == st.hierarchy && r.version == st.version
  {
  }

  /** A `~C` record without a usable code changes nothing. */
  lemma ComponentSkipped(st: ParseState, data: string)
    requires ParseComponent(data).None?
    ensures ApplyRecord(st, Record('C', data)) == st
  {
  }

  /** The same at the level of a file line: a `~C` line, padded or not, replaces its code's element. */
  lemma StepComponentLine(st: ParseState, line: string, data: string, e: Bc3Element)
    requires Strip(line) == ['~', 'C', '|'] + data && '\n' !in data
    requires ParseComponent(data) == Some(e)
    ensures Get(Step(st, line).elements, e.code) == Some(e)
    ensures forall k :: k != e.code ==> Get(Step(st, line).elements, k) == Get(st.elements, k)
  {
    MatchRecordOf('C', data);
    ComponentReplaces(st, data, e);
  }

  lemma StepExtendedInv(st: ParseState, data: string)
    requires StateInv(st)
    ensures StateInv(st.(elements := ParseExtended(data, st.elements)))
  {
    var parts := Split(data, '|');
    if |parts| >= 2 {
      var code := Strip(parts[0]);
      if Get(st.elements, code).Some? {
        var e := Get(st.elements, code).value;
        var i :| 0 <= i < |st.elements| && st.elements[i] == (code, e);
        var tokens := Split(parts[1], '\\');
        ApplyPropertiesClean(e, tokens);
        PutSameCode(st.elements, ApplyProperties(e, tokens));
        assert ParseExtended(data, st.elements) == Put(st.elements, code, ApplyProperties(e, tokens));
      }
    }
  }

  lemma PutHierarchy(h: seq<(string, seq<(string, real)>)>, parent: string, children: seq<(string, real)>)
    requires WellFormedHierarchy(h)
    requires IsCode(parent) && children != [] && forall j :: 0 <= j < |children| ==> IsCode(children[j].0)
    ensures WellFormedHierarchy(Put(h, parent, children))
  {
    var r := Put(h, parent, children);
    forall i | 0 <= i < |r| ensures IsCode(r[i].0) && r[i].1 != [] {
      if parent in Keys(h) {
        assert r[i] == if h[i].0 == parent then (parent, children) else h[i];
      } else if i < |h| {
        assert r[i] == h[i];
      }
    }
    forall i, j | 0 <= i < |r| && 0 <= j < |r[i].1| ensures IsCode(r[i].1[j].0) {
      if parent in Keys(h) {
        assert r[i] == if h[i].0 == parent then (parent, children) else h[i];
      } else if i < |h| {
        assert r[i] == h[i];
      }
    }
  }

  lemma StepDecompositionInv(st: ParseState, data: string)
    requires StateInv(st)
    ensures StateInv(st.(hierarchy := ParseDecomposition(data, st.hierarchy)))
  {
    var parts := Split(data, '|');
    if |parts| >= 2 && CleanCode(parts[0]) != "" {
      var children := ReadChildren(Split(parts[1], '\\'));
      if |children| > 0 {
        PutHierarchy(st.hierarchy, CleanCode(parts[0]), children);
      }
    }
  }

  lemma ApplyRecordInv(st: ParseState, rec: Record)
    requires StateInv(st)
    ensures StateInv(ApplyRecord(st, rec))
  {
    if rec.kind == 'V' {
      assert ApplyRecord(st, rec).elements == st.elements;
      assert ApplyRecord(st, rec).hierarchy == st.hierarchy;
    } else if rec.kind == 'C' {
      StepComponentInv(st, rec.data);
    } else if rec.kind == 'X' {
      StepExtendedInv(st, rec.data);
    } else if rec.kind == 'D' {
      StepDecompositionInv(st, rec.data);
    }
  }

  lemma StepInv(st: ParseState, line: string)
    requires StateInv(st)
    ensures StateInv(Step(st, line))
  {
    var l := Strip(line);
    if l != "" && MatchRecord(l).Some? {
      ApplyRecordInv(st, MatchRecord(l).value);
      assert Step(st, line) == ApplyRecord(st, MatchRecord(l).value);
    } else {
      assert Step(st, line) == st;
    }
  }

  lemma {:induction false} RunInv(st: ParseState, lines: seq<string>)
    requires StateInv(st)
    ensures StateInv(Run(st, lines))
    decreases |lines|
  {
    if |lines| > 0 {
      StepInv(st, lines[0]);
      RunInv(Step(st, lines[0]), lines[1..]);
    }
  }

  /** Appending an edge to the parent's children. */
  lemma AppendChildSpec(es: seq<(string, Bc3Element)>, p: string, edge: (string, real))
    requires UniqueKeys(es) && p in Keys(es)
    ensures var r := AppendChild(es, p, edge);
      |r| == |es| && UniqueKeys(r)
      && forall i :: 0 <= i < |es| ==>
           r[i].0 == es[i].0 && SameCore(r[i].1, es[i].1)
           && r[i].1.children == es[i].1.children + (if es[i].0 == p then [edge] else [])
           && r[i].1.parentCode == es[i].1.parentCode && r[i].1.quantity == es[i].1.quantity
  {
    var pe := Get(es, p).value;
    var r := Put(es, p, pe.(children := pe.children + [edge]));
    forall i | 0 <= i < |es|
      ensures r[i].0 == es[i].0 && SameCore(r[i].1, es[i].1)
      ensures r[i].1.children == es[i].1.children + (if es[i].0 == p then [edge] else [])
      ensures r[i].1.parentCode == es[i].1.parentCode && r[i].1.quantity == es[i].1.quantity
    {
      assert r[i] == if es[i].0 == p then (p, pe.(children := pe.children + [edge])) else es[i];
      if es[i].0 == p {
        assert pe == es[i].1;
      }
    }
  }

  /** Setting the child's parent and quantity, when the child is an element. */
  lemma SetParentSpec(es: seq<(string, Bc3Element)>, p: string, edge: (string, real))
    requires UniqueKeys(es)
    ensures var r := SetParent(es, p, edge);
      |r| == |es| && UniqueKeys(r)
      && forall i :: 0 <= i < |es| ==>
           r[i].0 == es[i].0 && SameCore(r[i].1, es[i].1) && r[i].1.children == es[i].1.children
           && r[i].1.parentCode == (if es[i].0 == edge.0 then Some(p) else es[i].1.parentCode)
           && r[i].1.quantity == (if es[i].0 == edge.0 then edge.1 else es[i].1.quantity)
  {
    if Get(es, edge.0).Some? {
      var ce := Get(es, edge.0).value;
      var r := Put(es, edge.0, ce.(parentCode := Some(p), quantity := edge.1));
      forall i | 0 <= i < |es|
        ensures r[i].0 == es[i].0 && SameCore(r[i].1, es[i].1) && r[i].1.children == es[i].1.children
        ensures r[i].1.parentCode == (if es[i].0 == edge.0 then Some(p) else es[i].1.parentCode)
        ensures r[i].1.quantity == (if es[i].0 == edge.0 then edge.1 else es[i].1.quantity)
      {
        assert r[i] == if es[i].0 == edge.0 then (edge.0, ce.(parentCode := Some(p), quantity := edge.1)) else es[i];
        if es[i].0 == edge.0 {
          assert ce == es[i].1;
        }
      }
    } else {
      forall i | 0 <= i < |es| ensures es[i].0 != edge.0 {
        assert es[i].0 == Keys(es)[i];
      }
    }
  }

  /** Element `after` is `before` with the single edge `edge` of parent `p` linked in. */
  predicate EdgeLinked(after: (string, Bc3Element), before: (string, Bc3Element), p: string, edge: (string, real))
  {
    after.0 == before.0 && SameCore(after.1, before.1)
    && after.1.children == before.1.children + (if before.0 == p then [edge] else [])
    && after.1.parentCode == (if before.0 == edge.0 then Some(p) else before.1.parentCode)
    && after.1.quantity == (if before.0 == edge.0 then edge.1 else before.1.quantity)
  }

  /** The effect of linking one edge. */
  lemma LinkEdgeSpec(es: seq<(string, Bc3Element)>, p: string, edge: (string, real))
    requires UniqueKeys(es) && p in Keys(es)
    ensures var r := LinkEdge(es, p, edge);
      |r| == |es| && UniqueKeys(r) && forall i :: 0 <= i < |es| ==> EdgeLinked(r[i], es[i], p, edge)
  {
    var es1 := AppendChild(es, p, edge);
    var r := SetParent(es1, p, edge);
    AppendChildSpec(es, p, edge);
    SetParentSpec(es1, p, edge);
    forall i | 0 <= i < |es|
      ensures EdgeLinked(r[i], es[i], p, edge)
    {
      assert es1[i].0 == es[i].0 && SameCore(es1[i].1, es[i].1);
      assert r[i].0 == es1[i].0 && SameCore(r[i].1, es1[i].1);
    }
  }

  /** The first edge, then the rest of the list. */
  lemma LinkChildrenStep(before: (string, Bc3Element), mid: (string, Bc3Element), after: (string, Bc3Element),
                         p: string, cs: seq<(string, real)>)
    requires |cs| > 0
    requires EdgeLinked(mid, before, p, cs[0])
    requires ChildrenLinked(after, mid, p, cs[1..])
    ensures ChildrenLinked(after, before, p, cs)
  {
    var key := before.0;
    assert LastGet(cs, key)
        == if LastGet(cs[1..], key).Some? then LastGet(cs[1..], key) else if cs[0].0 == key then Some(cs[0].1) else None;
    if key == p {
      Lists.ConcatAssoc(before.1.children, [cs[0]], cs[1..]);
      assert [cs[0]] + cs[1..] == cs;
    } else {
      assert after.1.children == mid.1.children + [];
      assert mid.1.children == before.1.children + [];
    }
  }

  /** Element `after` is `before` with the child list `cs` of parent `p` linked in. */
  predicate ChildrenLinked(after: (string, Bc3Element), before: (string, Bc3Element), p: string, cs: seq<(string, real)>)
  {
    after.0 == before.0 && SameCore(after.1, before.1)
    && after.1.children == before.1.children + (if before.0 == p then cs else [])
    && after.1.parentCode == (if LastGet(cs, before.0).Some? then Some(p) else before.1.parentCode)
    && after.1.quantity == LastGet(cs, before.0).GetOr(before.1.quantity)
  }

  /** The effect of linking one parent's child list. */
  lemma {:induction false} LinkChildrenSpec(es: seq<(string, Bc3Element)>, p: string, cs: seq<(string, real)>)
    requires UniqueKeys(es) && p in Keys(es)
    ensures var r := LinkChildren(es, p, cs);
      |r| == |es| && UniqueKeys(r) && forall i :: 0 <= i < |es| ==> ChildrenLinked(r[i], es[i], p, cs)
    decreases |cs|
  {
    var r := LinkChildren(es, p, cs);
    assert |r| == |es| && forall i :: 0 <= i < |es| ==> r[i].0 == Keys(r)[i] == Keys(es)[i];
    if |cs| > 0 {
      var es2 := LinkEdge(es, p, cs[0]);
      LinkEdgeSpec(es, p, cs[0]);
      LinkChildrenSpec(es2, p, cs[1..]);
      assert r == LinkChildren(es2, p, cs[1..]);
      forall i | 0 <= i < |es| ensures ChildrenLinked(r[i], es[i], p, cs) {
        LinkChildrenStep(es[i], es2[i], r[i], p, cs);
      }
    } else {
      forall i | 0 <= i < |es| ensures ChildrenLinked(r[i], es[i], p, cs) {
        assert es[i].1.children + [] == es[i].1.children;
      }
    }
  }

  /** Element `after` is `before` once every hierarchy entry of `h` with a parent in `ks` is linked. */
  predicate HierarchyLinked(after: (string, Bc3Element), before: (string, Bc3Element),
                            h: seq<(string, seq<(string, real)>)>, ks: seq<string>)
  {
    after.0 == before.0 && SameCore(after.1, before.1)
    && after.1.children == before.1.children + Get(h, before.0).GetOr([])
    && after.1.parentCode == (match LastParent(h, ks, before.0) case Some(pq) => Some(pq.0) case None => before.1.parentCode)
    && after.1.quantity == (match LastParent(h, ks, before.0) case Some(pq) => pq.1 case None => before.1.quantity)
  }

  /** One entry of `_link_hierarchy` followed by the rest. */
  lemma LinkHierarchyStep(before: (string, Bc3Element), mid: (string, Bc3Element), after: (string, Bc3Element),
                          h: seq<(string, seq<(string, real)>)>, ks: seq<string>)
    requires |h| > 0 && UniqueKeys(h) && before.0 in ks
    requires if h[0].0 in ks then ChildrenLinked(mid, before, h[0].0, h[0].1) else mid == before
    requires HierarchyLinked(after, mid, h[1..], ks)
    ensures HierarchyLinked(after, before, h, ks)
  {
    var k := before.0;
    var p := h[0].0;
    assert p !in Keys(h[1..]) by {
      assert forall j :: 0 <= j < |h| - 1 ==> h[1..][j].0 == h[j + 1].0;
    }
    if k == p {
      assert Get(h[1..], p) == None;
      assert after.1.children == mid.1.children + [];
    } else if p in ks {
      assert mid.1.children == before.1.children + [];
    }
  }

  /** The effect of `_link_hierarchy` on every element. */
  lemma {:induction false} LinkHierarchySpec(es: seq<(string, Bc3Element)>, h: seq<(string, seq<(string, real)>)>)
    requires UniqueKeys(es) && UniqueKeys(h)
    ensures var r := LinkHierarchy(es, h);
      |r| == |es| && UniqueKeys(r) && forall i :: 0 <= i < |es| ==> HierarchyLinked(r[i], es[i], h, Keys(es))
    decreases |h|
  {
    var r := LinkHierarchy(es, h);
    assert |r| == |es| && forall i :: 0 <= i < |es| ==> r[i].0 == Keys(r)[i] == Keys(es)[i];
    if |h| == 0 {
      forall i | 0 <= i < |es| ensures HierarchyLinked(r[i], es[i], h, Keys(es)) {
        assert es[i].1.children + [] == es[i].1.children;
      }
    } else {
      var p := h[0].0;
      var es1 := if p in Keys(es) then LinkChildren(es, p, h[0].1) else es;
      assert r == LinkHierarchy(es1, h[1..]);
      if p in Keys(es) {
        LinkChildrenSpec(es, p, h[0].1);
      }
      assert Keys(es1) == Keys(es);
      assert UniqueKeys(h[1..]);
      LinkHierarchySpec(es1, h[1..]);
      forall i | 0 <= i < |es| ensures HierarchyLinked(r[i], es[i], h, Keys(es)) {
        assert Keys(es)[i] == es[i].0;
        LinkHierarchyStep(es[i], es1[i], r[i], h, Keys(es));
      }
    }
  }

  /**
    `BC3Parser.parse`: the elements are keyed by their own codes; each one's
    children are exactly the child list recorded for it; its parent and
    quantity come from the last `~D` record that lists it under a parent
    that is itself an element, and stay unset otherwise; nothing is ever
    reported as an error.
   */
  lemma ParseSpec(lines: seq<string>)
    ensures var r := Parse(lines);
      WellFormedElements(r.elements) && WellFormedHierarchy(r.hierarchy) && r.errors == []
      && forall i :: 0 <= i < |r.elements| ==>
           r.elements[i].1.children == Get(r.hierarchy, r.elements[i].0).GetOr([])
           && r.elements[i].1.parentCode == (match LastParent(r.hierarchy, Keys(r.elements), r.elements[i].0)
                                             case Some(pq) => Some(pq.0) case None => None)
           && r.elements[i].1.quantity == (match LastParent(r.hierarchy, Keys(r.elements), r.elements[i].0)
                                           case Some(pq) => pq.1 case None => 0.0)
  {
    var st := Run(Start, lines);
    RunInv(Start, lines);
    LinkHierarchySpec(st.elements, st.hierarchy);
    var r := Parse(lines);
    assert Keys(r.elements) == Keys(st.elements);
    forall i | 0 <= i < |r.elements|
      ensures CleanProperties(r.elements[i].1.properties) && r.elements[i].0 == r.elements[i].1.code
      ensures r.elements[i].1.children == Get(r.hierarchy, r.elements[i].0).GetOr([])
      ensures r.elements[i].1.parentCode == (match LastParent(r.hierarchy, Keys(r.elements), r.elements[i].0)
                                             case Some(pq) => Some(pq.0) case None => None)
      ensures r.elements[i].1.quantity == (match LastParent(r.hierarchy, Keys(r.elements), r.elements[i].0)
                                           case Some(pq) => pq.1 case None => 0.0)
    {
      assert HierarchyLinked(r.elements[i], st.elements[i], st.hierarchy, Keys(st.elements));
      assert [] + Get(r.hierarchy, r.elements[i].0).GetOr([]) == Get(r.hierarchy, r.elements[i].0).GetOr([]);
    }
  }
}
