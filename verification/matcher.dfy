/**
  The cascading matcher: IFC types are linked to budget elements first by
  Revit tag = budget code, then by type global id = budget `Tipo IfcGUID`,
  then (optionally) by the lower-cased `family:type` name. Each strategy is
  greedy and first-match-wins in dictionary order; what is left over is
  reported as IFC-only or BC3-only.
 */
module Matcher {
  import opened Wrappers
  import opened Text
  import opened Assoc
  import opened Lists
  import opened Ifc
  import opened Bc3Parser

  /** How a pair was found. `Description` is never produced here; the comparator has a branch for it. */
  datatype MatchMethod = Tag | Guid | Name | NoMatch | Description

  datatype MatchStatus = Matched | IfcOnly | Bc3Only

  datatype MatchedPair = MatchedPair(
    status: MatchStatus,
    matchMethod: MatchMethod,
    ifcElement: Option<IfcElement>,
    ifcType: Option<IfcType>,
    bc3Element: Option<Bc3Element>,
    matchKey: Option<string>,
    confidence: real)

  /** The pair's identifier: the budget code, else the type tag, else the instance tag. */
  function PairCode(p: MatchedPair): (r: Option<string>)
    ensures p.bc3Element.Some? ==> r == Some(p.bc3Element.value.code)
    ensures r.None? <==> p.bc3Element.None? && !(p.ifcType.Some? && Truthy(p.ifcType.value.tag))
                           && !(p.ifcElement.Some? && Truthy(p.ifcElement.value.tag))
    ensures r.Some? && p.bc3Element.None? ==> r.value != ""
    ensures p.bc3Element.None? && p.ifcType.Some? && Truthy(p.ifcType.value.tag) ==> r == p.ifcType.value.tag
    ensures (p.bc3Element.None? && !(p.ifcType.Some? && Truthy(p.ifcType.value.tag))
             && p.ifcElement.Some? && Truthy(p.ifcElement.value.tag)) ==> r == p.ifcElement.value.tag
  {
    if p.bc3Element.Some? then Some(p.bc3Element.value.code)
    else if p.ifcType.Some? && Truthy(p.ifcType.value.tag) then p.ifcType.value.tag
    else if p.ifcElement.Some? && Truthy(p.ifcElement.value.tag) then p.ifcElement.value.tag
    else None
  }

  /** The pair's display name: the budget description, else the type name, else the instance name, else "Unknown". */
  function PairName(p: MatchedPair): (r: string)
    ensures p.bc3Element.Some? ==> r == p.bc3Element.value.description
    ensures p.bc3Element.None? && p.ifcType.Some? ==> r == p.ifcType.value.name
    ensures p.bc3Element.None? && p.ifcType.None? && p.ifcElement.Some? ==> r == p.ifcElement.value.name
    ensures p.bc3Element.None? && p.ifcType.None? && p.ifcElement.None? ==> r == "Unknown"
  {
    if p.bc3Element.Some? then p.bc3Element.value.description
    else if p.ifcType.Some? then p.ifcType.value.name
    else if p.ifcElement.Some? then p.ifcElement.value.name
    else "Unknown"
  }

  datatype MatchResult = MatchResult(
    matched: seq<MatchedPair>,
    ifcOnly: seq<MatchedPair>,
    bc3Only: seq<MatchedPair>,
    totalIfcTypes: nat,
    totalBc3Elements: nat,
    matchCount: nat,
    errors: seq<string>)

  /** Percentage of items matched, each match covering one item on each side. */
  function MatchRate(r: MatchResult): (rate: real)
    ensures r.totalIfcTypes + r.totalBc3Elements == 0 ==> rate == 0.0
    ensures r.totalIfcTypes + r.totalBc3Elements > 0 ==>
      rate * (r.totalIfcTypes + r.totalBc3Elements) as real == (200 * r.matchCount) as real
    ensures rate >= 0.0
  {
    var total := r.totalIfcTypes + r.totalBc3Elements;
    if total == 0 then 0.0 else ((r.matchCount * 2) as real / total as real) * 100.0
  }

  /** `summary()`; the rate is kept as a number rather than formatted text. */
  datatype MatchSummary = MatchSummary(
    totalIfcTypes: nat, totalBc3Elements: nat, matched: nat, ifcOnly: nat, bc3Only: nat, matchRate: real)

  function Summary(r: MatchResult): (s: MatchSummary)
    ensures s.matched == |r.matched| && s.ifcOnly == |r.ifcOnly| && s.bc3Only == |r.bc3Only|
    ensures s.totalIfcTypes == r.totalIfcTypes && s.totalBc3Elements == r.totalBc3Elements
    ensures s.matchRate == MatchRate(r)
  {
    MatchSummary(r.totalIfcTypes, r.totalBc3Elements, |r.matched|, |r.ifcOnly|, |r.bc3Only|, MatchRate(r))
  }

  /** A budget element with a unit, a type GUID or properties; the others are structural nodes. */
  predicate Comparable(e: Bc3Element)
  {
    e.unit != "" || Truthy(e.typeIfcGuid) || |e.properties| > 0
  }

  /** The matcher's bookkeeping: the pairs so far and the matched type ids and budget codes. */
  datatype MatchState = MatchState(matched: seq<MatchedPair>, ifcIds: set<string>, bc3Codes: set<string>)

  const Empty := MatchState([], {}, {})

  function MatchPair(m: MatchMethod, t: IfcType, e: Bc3Element, key: string, confidence: real): MatchedPair
  {
    MatchedPair(Matched, m, None, Some(t), Some(e), Some(key), confidence)
  }

  function AddPair(st: MatchState, p: MatchedPair, ifcId: string, code: string): MatchState
  {
    MatchState(st.matched + [p], st.ifcIds + {ifcId}, st.bc3Codes + {code})
  }

  /** One tag entry: matched when the tag is also a budget code. */
  function TagStep(st: MatchState, tag: string, t: IfcType, elements: seq<(string, Bc3Element)>): MatchState
  {
    match Get(elements, tag)
    case Some(e) => AddPair(st, MatchPair(Tag, t, e, tag, 1.0), t.globalId, tag)
    case None => st
  }

  /** Strategy 1: every tag that is also a budget code, in tag-index order. */
  function TagPass(st: MatchState, byTag: seq<(string, IfcType)>, elements: seq<(string, Bc3Element)>): MatchState
    decreases |byTag|
  {
    if |byTag| == 0 then st
    else TagPass(TagStep(st, byTag[0].0, byTag[0].1, elements), byTag[1..], elements)
  }

  /** `{e.type_ifc_guid: e for e in elements if e.type_ifc_guid}`: a later element replaces an earlier one. */
  function GuidIndex(acc: seq<(string, Bc3Element)>, es: seq<Bc3Element>): seq<(string, Bc3Element)>
    decreases |es|
  {
    if |es| == 0 then acc
    else
      var e := es[0];
      GuidIndex(if Truthy(e.typeIfcGuid) then Put(acc, e.typeIfcGuid.value, e) else acc, es[1..])
  }

  /** Strategy 2: an unmatched type whose global id is some budget element's type GUID, if that element is unmatched. */
  function GuidPass(st: MatchState, types: seq<(string, IfcType)>, byGuid: seq<(string, Bc3Element)>): MatchState
    decreases |types|
  {
    if |types| == 0 then st
    else
      var (guid, t) := types[0];
      var next :=
        if guid in st.ifcIds then st
        else match Get(byGuid, guid)
          case Some(e) =>
            if e.code !in st.bc3Codes then AddPair(st, MatchPair(Guid, t, e, guid, 1.0), guid, e.code) else st
          case None => st;
      GuidPass(next, types[1..], byGuid)
  }

  /** The budget-side name key `family:type`, lower-cased, when both are set. */
  function Bc3NameKey(e: Bc3Element): Option<string>
  {
    if Truthy(e.familyName) && Truthy(e.typeName)
    then Some(Lower(e.familyName.value + ":" + e.typeName.value))
    else None
  }

  /** The type-side name key: `family:type`, else the type's own name, lower-cased; none when both are empty. */
  function TypeNameKey(t: IfcType): Option<string>
  {
    if Truthy(t.familyName) && Truthy(t.typeName) then Some(Lower(t.familyName.value + ":" + t.typeName.value))
    else if t.name != "" then Some(Lower(t.name))
    else None
  }

  /** The name index over budget elements not matched by the first two strategies; a later element replaces an earlier one. */
  function NameIndex(acc: seq<(string, Bc3Element)>, es: seq<(string, Bc3Element)>, codes: set<string>): seq<(string, Bc3Element)>
    decreases |es|
  {
    if |es| == 0 then acc
    else
      var (code, e) := es[0];
      var next := if code !in codes && Bc3NameKey(e).Some? then Put(acc, Bc3NameKey(e).value, e) else acc;
      NameIndex(next, es[1..], codes)
  }

  /** Strategy 3: an unmatched type whose name key is in the index, if that element is still unmatched. */
  function NamePass(st: MatchState, types: seq<(string, IfcType)>, byName: seq<(string, Bc3Element)>): MatchState
    decreases |types|
  {
    if |types| == 0 then st
    else
      var (guid, t) := types[0];
      var next :=
        if guid in st.ifcIds || TypeNameKey(t).None? then st
        else
          var key := TypeNameKey(t).value;
          match Get(byName, key)
          case Some(e) =>
            if e.code !in st.bc3Codes then AddPair(st, MatchPair(Name, t, e, key, 0.8), guid, e.code) else st
          case None => st;
      NamePass(next, types[1..], byName)
  }

  function IfcOnlyPair(t: IfcType): MatchedPair
  {
    MatchedPair(IfcOnly, NoMatch, None, Some(t), None, None, 1.0)
  }

  function Bc3OnlyPair(e: Bc3Element): MatchedPair
  {
    MatchedPair(Bc3Only, NoMatch, None, None, Some(e), None, 1.0)
  }

  /** Every type as an IFC-only pair, in type order. */
  function AllIfcOnly(types: seq<(string, IfcType)>): (r: seq<MatchedPair>)
    ensures |r| == |types| && forall i :: 0 <= i < |types| ==> r[i] == IfcOnlyPair(types[i].1)
  {
    seq(|types|, i requires 0 <= i < |types| => IfcOnlyPair(types[i].1))
  }

  /** The number of types whose global id was not matched. */
  function CountUnmatchedTypes(types: seq<(string, IfcType)>, ids: set<string>): nat
  {
    Count((entry: (string, IfcType)) => entry.0 !in ids, types)
  }

  /** The types whose global id was not matched, in type order. */
  function IfcOnlyPairs(types: seq<(string, IfcType)>, ids: set<string>): (r: seq<MatchedPair>)
    ensures forall p :: p in r <==> exists i :: 0 <= i < |types| && types[i].0 !in ids && p == IfcOnlyPair(types[i].1)
    decreases |types|
  {
    if |types| == 0 then []
    else
      var rest := IfcOnlyPairs(types[1..], ids);
      assert forall i :: 1 <= i < |types| ==> types[i] == types[1..][i - 1];
      (if types[0].0 !in ids then [IfcOnlyPair(types[0].1)] else []) + rest
  }

  /** The IFC-only pairs keep type order, one per unmatched type. */
  lemma {:induction false} IfcOnlyPairsOrder(types: seq<(string, IfcType)>, ids: set<string>)
    ensures IsSubseq(IfcOnlyPairs(types, ids), AllIfcOnly(types))
    ensures |IfcOnlyPairs(types, ids)| == CountUnmatchedTypes(types, ids)
    decreases |types|
  {
    if |types| > 0 {
      var rest := IfcOnlyPairs(types[1..], ids);
      IfcOnlyPairsOrder(types[1..], ids);
      var x := IfcOnlyPair(types[0].1);
      assert AllIfcOnly(types) == [x] + AllIfcOnly(types[1..]);
      if types[0].0 !in ids {
        assert IfcOnlyPairs(types, ids) == [x] + rest;
        assert ([x] + rest)[1..] == rest;
      } else {
        assert IfcOnlyPairs(types, ids) == rest;
        SubseqPrepend(rest, x, AllIfcOnly(types[1..]));
      }
    }
  }

  /** Every element as a budget-only pair, in element order. */
  function AllBc3Only(elements: seq<(string, Bc3Element)>): (r: seq<MatchedPair>)
    ensures |r| == |elements| && forall i :: 0 <= i < |elements| ==> r[i] == Bc3OnlyPair(elements[i].1)
  {
    seq(|elements|, i requires 0 <= i < |elements| => Bc3OnlyPair(elements[i].1))
  }

  /** The number of comparable elements whose code was not matched. */
  function CountUnmatchedElements(elements: seq<(string, Bc3Element)>, codes: set<string>): nat
  {
    Count((entry: (string, Bc3Element)) => entry.0 !in codes && Comparable(entry.1), elements)
  }

  /** The comparable budget elements whose code was not matched, in element order. */
  function Bc3OnlyPairs(elements: seq<(string, Bc3Element)>, codes: set<string>): (r: seq<MatchedPair>)
    ensures forall p :: p in r <==> exists i :: 0 <= i < |elements| && elements[i].0 !in codes
                                     && Comparable(elements[i].1) && p == Bc3OnlyPair(elements[i].1)
    decreases |elements|
  {
    if |elements| == 0 then []
    else
      var rest := Bc3OnlyPairs(elements[1..], codes);
      assert forall i :: 1 <= i < |elements| ==> elements[i] == elements[1..][i - 1];
      (if elements[0].0 !in codes && Comparable(elements[0].1) then [Bc3OnlyPair(elements[0].1)] else []) + rest
  }

  /** The budget-only pairs keep element order, one per unmatched comparable element. */
  lemma {:induction false} Bc3OnlyPairsOrder(elements: seq<(string, Bc3Element)>, codes: set<string>)
    ensures IsSubseq(Bc3OnlyPairs(elements, codes), AllBc3Only(elements))
    ensures |Bc3OnlyPairs(elements, codes)| == CountUnmatchedElements(elements, codes)
    decreases |elements|
  {
    if |elements| > 0 {
      var rest := Bc3OnlyPairs(elements[1..], codes);
      Bc3OnlyPairsOrder(elements[1..], codes);
      var x := Bc3OnlyPair(elements[0].1);
      assert AllBc3Only(elements) == [x] + AllBc3Only(elements[1..]);
      if elements[0].0 !in codes && Comparable(elements[0].1) {
        assert Bc3OnlyPairs(elements, codes) == [x] + rest;
        assert ([x] + rest)[1..] == rest;
      } else {
        assert Bc3OnlyPairs(elements, codes) == rest;
        SubseqPrepend(rest, x, AllBc3Only(elements[1..]));
      }
    }
  }

  /** The state after the tag and GUID strategies. */
  function FirstTwo(ifc: IfcParseResult, bc3: Bc3ParseResult): MatchState
  {
    GuidPass(TagPass(Empty, ifc.typesByTag, bc3.elements), ifc.types, GuidIndex([], Values(bc3.elements)))
  }

  /** The state after all strategies that `matchByName` enables. */
  function Cascade(ifc: IfcParseResult, bc3: Bc3ParseResult, matchByName: bool): MatchState
  {
    var st := FirstTwo(ifc, bc3);
    if matchByName then NamePass(st, ifc.types, NameIndex([], bc3.elements, st.bc3Codes)) else st
  }

  /** `Matcher(match_by_name).match(ifc, bc3)`. */
  function Match(ifc: IfcParseResult, bc3: Bc3ParseResult, matchByName: bool): (r: MatchResult)
    ensures r.totalIfcTypes == |ifc.types|
    ensures r.totalBc3Elements == Count(Comparable, Values(bc3.elements))
    ensures r.matchCount == |r.matched| && r.errors == []
  {
    var st := Cascade(ifc, bc3, matchByName);
    MatchResult(st.matched, IfcOnlyPairs(ifc.types, st.ifcIds), Bc3OnlyPairs(bc3.elements, st.bc3Codes),
                |ifc.types|, Count(Comparable, Values(bc3.elements)), |st.matched|, [])
  }

  function CountMethod(m: MatchMethod, ps: seq<MatchedPair>): nat
  {
    Count((p: MatchedPair) => p.matchMethod == m, ps)
  }

  function CountConfident(threshold: real, ps: seq<MatchedPair>): nat
  {
    Count((p: MatchedPair) => p.confidence >= threshold, ps)
  }

  /** `get_matched_by_method`. */
  function MatchedByMethod(r: MatchResult, m: MatchMethod): (ps: seq<MatchedPair>)
    ensures forall p :: p in ps <==> p in r.matched && p.matchMethod == m
    ensures IsSubseq(ps, r.matched) && |ps| == CountMethod(m, r.matched)
  {
    var keep := (p: MatchedPair) => p.matchMethod == m;
    FilterMembers(keep, r.matched);
    FilterSubseq(keep, r.matched);
    CountFilter(keep, r.matched);
    Filter(keep, r.matched)
  }

  /** `get_high_confidence_matches(threshold)`. */
  function HighConfidenceMatches(r: MatchResult, threshold: real): (ps: seq<MatchedPair>)
    ensures forall p :: p in ps <==> p in r.matched && p.confidence >= threshold
    ensures IsSubseq(ps, r.matched) && |ps| == CountConfident(threshold, r.matched)
  {
    var keep := (p: MatchedPair) => p.confidence >= threshold;
    FilterMembers(keep, r.matched);
    FilterSubseq(keep, r.matched);
    CountFilter(keep, r.matched);
    Filter(keep, r.matched)
  }
}
