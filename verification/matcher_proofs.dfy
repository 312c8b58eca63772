/**
  What the cascading matcher guarantees: every matched pair is justified by
  the strategy that produced it, no type and no budget code is matched
  twice, the leftovers partition the inputs, the strategies run in cascade
  order, and the GUID index keeps the last element per GUID.
 */
module MatcherProofs {
  import opened Wrappers
  import opened Text
  import opened Assoc
  import opened Lists
  import opened Ifc
  import opened Bc3Parser
  import opened Matcher

  /** The IFC indexes and the budget map agree with the objects they hold, as the parsers build them. */
  predicate Consistent(ifc: IfcParseResult, bc3: Bc3ParseResult)
  {
    UniqueKeys(ifc.types)
    && (forall i :: 0 <= i < |ifc.types| ==> ifc.types[i].1.globalId == ifc.types[i].0)
    && UniqueKeys(ifc.typesByTag)
    && (forall i :: 0 <= i < |ifc.typesByTag| ==>
          ifc.typesByTag[i].1.tag == Some(ifc.typesByTag[i].0) && ifc.typesByTag[i].1 in Values(ifc.types))
    && UniqueKeys(bc3.elements)
    && (forall i :: 0 <= i < |bc3.elements| ==> bc3.elements[i].1.code == bc3.elements[i].0)
  }

  /** `e.type_ifc_guid` is set and equals `g`. */
  predicate HasGuid(e: Bc3Element, g: string)
  {
    Truthy(e.typeIfcGuid) && e.typeIfcGuid.value == g
  }

  /** The type id a matched pair consumes. */
  function PairGid(p: MatchedPair): string
  {
    match p.ifcType
    case Some(t) => t.globalId
    case None => ""
  }

  /** The budget code a matched pair consumes. */
  function PairBudgetCode(p: MatchedPair): string
  {
    match p.bc3Element
    case Some(e) => e.code
    case None => ""
  }

  /** The evidence each strategy leaves on its pairs. */
  predicate PairOk(p: MatchedPair, ifc: IfcParseResult, bc3: Bc3ParseResult)
  {
    p.status == Matched && p.ifcElement.None? && p.ifcType.Some? && p.bc3Element.Some? && p.matchKey.Some?
    && p.ifcType.value in Values(ifc.types) && p.bc3Element.value in Values(bc3.elements)
    && match p.matchMethod
       case Tag =>
         p.confidence == 1.0 && (p.matchKey.value, p.ifcType.value) in ifc.typesByTag
         && Get(bc3.elements, p.matchKey.value) == p.bc3Element
       case Guid =>
         p.confidence == 1.0 && p.matchKey.value == p.ifcType.value.globalId
         && HasGuid(p.bc3Element.value, p.matchKey.value)
       case Name =>
         p.confidence == 0.8 && TypeNameKey(p.ifcType.value) == p.matchKey
         && Bc3NameKey(p.bc3Element.value) == p.matchKey
       case _ => false
  }

  /** No type id and no budget code is used by two pairs. */
  predicate OneToOne(m: seq<MatchedPair>)
  {
    forall i, j :: 0 <= i < j < |m| ==> PairGid(m[i]) != PairGid(m[j]) && PairBudgetCode(m[i]) != PairBudgetCode(m[j])
  }

  /** The bookkeeping sets are exactly the ids and codes of the pairs. */
  ghost predicate Tracks(st: MatchState)
  {
    (forall g :: g in st.ifcIds <==> exists i :: 0 <= i < |st.matched| && PairGid(st.matched[i]) == g)
    && (forall c :: c in st.bc3Codes <==> exists i :: 0 <= i < |st.matched| && PairBudgetCode(st.matched[i]) == c)
  }

  ghost predicate Inv(st: MatchState, ifc: IfcParseResult, bc3: Bc3ParseResult)
  {
    (forall i :: 0 <= i < |st.matched| ==> PairOk(st.matched[i], ifc, bc3))
    && OneToOne(st.matched) && Tracks(st)
  }

  lemma EmptyInv(ifc: IfcParseResult, bc3: Bc3ParseResult)
    ensures Inv(Empty, ifc, bc3)
  {
  }

  /** Adding a justified pair over a fresh id and a fresh code keeps the invariant. */
  lemma AddPairInv(st: MatchState, p: MatchedPair, ifc: IfcParseResult, bc3: Bc3ParseResult)
    requires Inv(st, ifc, bc3) && PairOk(p, ifc, bc3)
    requires PairGid(p) !in st.ifcIds && PairBudgetCode(p) !in st.bc3Codes
    ensures Inv(AddPair(st, p, PairGid(p), PairBudgetCode(p)), ifc, bc3)
  {
    var st' := AddPair(st, p, PairGid(p), PairBudgetCode(p));
    assert forall i :: 0 <= i < |st'.matched| ==> PairOk(st'.matched[i], ifc, bc3) by {
      assert forall i :: 0 <= i < |st.matched| ==> st'.matched[i] == st.matched[i];
    }
    assert OneToOne(st'.matched) by {
      AddPairOneToOne(st, p);
    }
    AddPairTracks(st, p);
  }

  lemma AddPairOneToOne(st: MatchState, p: MatchedPair)
    requires OneToOne(st.matched) && Tracks(st)
    requires PairGid(p) !in st.ifcIds && PairBudgetCode(p) !in st.bc3Codes
    ensures OneToOne(st.matched + [p])
  {
    var m := st.matched + [p];
    forall i, j | 0 <= i < j < |m|
      ensures PairGid(m[i]) != PairGid(m[j]) && PairBudgetCode(m[i]) != PairBudgetCode(m[j])
    {
      assert m[i] == st.matched[i];
      if j == |st.matched| {
        assert PairGid(st.matched[i]) in st.ifcIds;
        assert PairBudgetCode(st.matched[i]) in st.bc3Codes;
      } else {
        assert m[j] == st.matched[j];
      }
    }
  }

  lemma AddPairTracks(st: MatchState, p: MatchedPair)
    requires Tracks(st)
    ensures Tracks(AddPair(st, p, PairGid(p), PairBudgetCode(p)))
  {
    var st' := AddPair(st, p, PairGid(p), PairBudgetCode(p));
    assert st'.matched[|st.matched|] == p;
    assert forall i :: 0 <= i < |st.matched| ==> st'.matched[i] == st.matched[i];
  }

  lemma ValueIn<K, V>(a: seq<(K, V)>, k: K, v: V)
    requires (k, v) in a
    ensures v in Values(a)
  {
    var i :| 0 <= i < |a| && a[i] == (k, v);
    assert Values(a)[i] == v;
  }

  /** Two tag entries never hold the same type id. */
  lemma TagGidsDistinct(ifc: IfcParseResult, bc3: Bc3ParseResult)
    requires Consistent(ifc, bc3)
    ensures forall i, j :: 0 <= i < j < |ifc.typesByTag| ==> ifc.typesByTag[i].1.globalId != ifc.typesByTag[j].1.globalId
  {
    forall i, j | 0 <= i < j < |ifc.typesByTag|
      ensures ifc.typesByTag[i].1.globalId != ifc.typesByTag[j].1.globalId
    {
      var ti := ifc.typesByTag[i].1;
      var tj := ifc.typesByTag[j].1;
      var a :| 0 <= a < |ifc.types| && Values(ifc.types)[a] == ti;
      var b :| 0 <= b < |ifc.types| && Values(ifc.types)[b] == tj;
    }
  }

  /** One tag entry over an unused id and code keeps the invariant, and uses at most that id and code. */
  lemma TagStepInv(st: MatchState, tag: string, t: IfcType, ifc: IfcParseResult, bc3: Bc3ParseResult)
    requires Consistent(ifc, bc3) && Inv(st, ifc, bc3)
    requires (tag, t) in ifc.typesByTag && t.globalId !in st.ifcIds && tag !in st.bc3Codes
    ensures var next := TagStep(st, tag, t, bc3.elements);
      Inv(next, ifc, bc3) && next.ifcIds <= st.ifcIds + {t.globalId} && next.bc3Codes <= st.bc3Codes + {tag}
  {
    if Get(bc3.elements, tag).Some? {
      var e := Get(bc3.elements, tag).value;
      ValueIn(bc3.elements, tag, e);
      var a :| 0 <= a < |bc3.elements| && bc3.elements[a] == (tag, e);
      assert e.code == tag;
      AddPairInv(st, MatchPair(Tag, t, e, tag, 1.0), ifc, bc3);
    }
  }

  /** The tag strategy keeps the invariant while its remaining entries are distinct and unused. */
  lemma {:induction false} TagPassInv(st: MatchState, ts: seq<(string, IfcType)>, ifc: IfcParseResult, bc3: Bc3ParseResult)
    requires Consistent(ifc, bc3) && Inv(st, ifc, bc3)
    requires forall j :: 0 <= j < |ts| ==> ts[j] in ifc.typesByTag && ts[j].1.globalId !in st.ifcIds && ts[j].0 !in st.bc3Codes
    requires forall i, j :: 0 <= i < j < |ts| ==> ts[i].0 != ts[j].0 && ts[i].1.globalId != ts[j].1.globalId
    ensures Inv(TagPass(st, ts, bc3.elements), ifc, bc3)
    decreases |ts|
  {
    if |ts| > 0 {
      var next := TagStep(st, ts[0].0, ts[0].1, bc3.elements);
      assert ts[0] in ifc.typesByTag;
      TagStepInv(st, ts[0].0, ts[0].1, ifc, bc3);
      var rest := ts[1..];
      assert forall j :: 0 <= j < |rest| ==> rest[j] == ts[j + 1];
      TagPassInv(next, rest, ifc, bc3);
    }
  }

  /** The last element that carries GUID `g`: the element a GUID lookup should find. */
  function LastWithGuid(es: seq<Bc3Element>, g: string): (r: Option<Bc3Element>)
    ensures r.Some? ==> exists i :: 0 <= i < |es| && es[i] == r.value && HasGuid(es[i], g)
                                     && forall j :: i < j < |es| ==> !HasGuid(es[j], g)
    ensures r.None? ==> forall i :: 0 <= i < |es| ==> !HasGuid(es[i], g)
  {
    if |es| == 0 then None
    else if HasGuid(es[|es| - 1], g) then Some(es[|es| - 1])
    else
      var r := LastWithGuid(es[..|es| - 1], g);
      assert forall i :: 0 <= i < |es| - 1 ==> es[..|es| - 1][i] == es[i];
      r
  }

  /** The last element is found whatever was indexed before. */
  lemma {:induction false} LastWithGuidCons(es: seq<Bc3Element>, g: string)
    requires |es| > 0
    ensures LastWithGuid(es, g) == if LastWithGuid(es[1..], g).Some? then LastWithGuid(es[1..], g)
                                    else if HasGuid(es[0], g) then Some(es[0]) else None
  {
    var r := LastWithGuid(es, g);
    var t := LastWithGuid(es[1..], g);
    if t.Some? {
      var i :| 0 <= i < |es[1..]| && es[1..][i] == t.value && HasGuid(es[1..][i], g)
                && forall j :: i < j < |es[1..]| ==> !HasGuid(es[1..][j], g);
      LastWithGuidAt(es, g, i + 1);
    } else if HasGuid(es[0], g) {
      assert forall j :: 0 < j < |es| ==> es[j] == es[1..][j - 1];
      LastWithGuidAt(es, g, 0);
    } else {
      assert forall j :: 0 < j < |es| ==> es[j] == es[1..][j - 1];
    }
  }

  /** The last index carrying `g` decides the lookup. */
  lemma {:induction false} LastWithGuidAt(es: seq<Bc3Element>, g: string, i: nat)
    requires i < |es| && HasGuid(es[i], g) && forall j :: i < j < |es| ==> !HasGuid(es[j], g)
    ensures LastWithGuid(es, g) == Some(es[i])
    decreases |es|
  {
    if i < |es| - 1 {
      LastWithGuidAt(es[..|es| - 1], g, i);
    }
  }

  /** The GUID index answers with the last element carrying the GUID, or with what it held before. */
  lemma {:induction false} GuidIndexLast(acc: seq<(string, Bc3Element)>, es: seq<Bc3Element>, g: string)
    ensures Get(GuidIndex(acc, es), g) == if LastWithGuid(es, g).Some? then LastWithGuid(es, g) else Get(acc, g)
    decreases |es|
  {
    if |es| > 0 {
      var e := es[0];
      var acc' := if Truthy(e.typeIfcGuid) then Put(acc, e.typeIfcGuid.value, e) else acc;
      assert Get(acc', g) == if HasGuid(e, g) then Some(e) else Get(acc, g);
      GuidIndexLast(acc', es[1..], g);
      LastWithGuidCons(es, g);
    }
  }

  /** `bc3_by_guid[g]` is the last element, in element order, whose type GUID is `g`. */
  lemma GuidIndexLastWins(es: seq<Bc3Element>, g: string)
    ensures Get(GuidIndex([], es), g) == LastWithGuid(es, g)
  {
    GuidIndexLast([], es, g);
  }

  lemma GuidIndexSound(es: seq<(string, Bc3Element)>)
    ensures forall g :: Get(GuidIndex([], Values(es)), g).Some? ==>
      HasGuid(Get(GuidIndex([], Values(es)), g).value, g) && Get(GuidIndex([], Values(es)), g).value in Values(es)
  {
    forall g | Get(GuidIndex([], Values(es)), g).Some?
      ensures HasGuid(Get(GuidIndex([], Values(es)), g).value, g) && Get(GuidIndex([], Values(es)), g).value in Values(es)
    {
      GuidIndexLast([], Values(es), g);
    }
  }

  /** Every name-index entry is an element, not excluded by `codes`, whose name key is the entry's key. */
  lemma {:induction false} NameIndexSound(acc: seq<(string, Bc3Element)>, es: seq<(string, Bc3Element)>, codes: set<string>, k: string)
    requires Get(NameIndex(acc, es, codes), k).Some?
    ensures var e := Get(NameIndex(acc, es, codes), k).value;
      Get(acc, k) == Some(e) || exists i :: 0 <= i < |es| && es[i].1 == e && es[i].0 !in codes && Bc3NameKey(e) == Some(k)
    decreases |es|
  {
    if |es| > 0 {
      var (code, e) := es[0];
      var acc' := if code !in codes && Bc3NameKey(e).Some? then Put(acc, Bc3NameKey(e).value, e) else acc;
      NameIndexSound(acc', es[1..], codes, k);
      var r := Get(NameIndex(acc, es, codes), k).value;
      if Get(acc', k) != Some(r) {
        var i :| 0 <= i < |es[1..]| && es[1..][i].1 == r && es[1..][i].0 !in codes && Bc3NameKey(r) == Some(k);
        assert es[i + 1] == es[1..][i];
      }
    }
  }

  /** An entry the name index takes under key `k`: not excluded by `codes`, with name key `k`. */
  predicate NameHit(entry: (string, Bc3Element), codes: set<string>, k: string)
  {
    entry.0 !in codes && Bc3NameKey(entry.1) == Some(k)
  }

  /** The last element taken under `k`: the element a name lookup should find. */
  function LastWithName(es: seq<(string, Bc3Element)>, codes: set<string>, k: string): (r: Option<Bc3Element>)
    ensures r.Some? ==> exists i :: 0 <= i < |es| && es[i].1 == r.value && NameHit(es[i], codes, k)
                                     && forall j :: i < j < |es| ==> !NameHit(es[j], codes, k)
    ensures r.None? ==> forall i :: 0 <= i < |es| ==> !NameHit(es[i], codes, k)
  {
    if |es| == 0 then None
    else if NameHit(es[|es| - 1], codes, k) then Some(es[|es| - 1].1)
    else
      var r := LastWithName(es[..|es| - 1], codes, k);
      assert forall i :: 0 <= i < |es| - 1 ==> es[..|es| - 1][i] == es[i];
      r
  }

  /** The last index taken under `k` decides the lookup. */
  lemma {:induction false} LastWithNameAt(es: seq<(string, Bc3Element)>, codes: set<string>, k: string, i: nat)
    requires i < |es| && NameHit(es[i], codes, k) && forall j :: i < j < |es| ==> !NameHit(es[j], codes, k)
    ensures LastWithName(es, codes, k) == Some(es[i].1)
    decreases |es|
  {
    if i < |es| - 1 {
      LastWithNameAt(es[..|es| - 1], codes, k, i);
    }
  }

  /** Splitting off the first entry: a later hit wins over it. */
  lemma {:induction false} LastWithNameCons(es: seq<(string, Bc3Element)>, codes: set<string>, k: string)
    requires |es| > 0
    ensures LastWithName(es, codes, k) == if LastWithName(es[1..], codes, k).Some? then LastWithName(es[1..], codes, k)
                                          else if NameHit(es[0], codes, k) then Some(es[0].1) else None
  {
    var t := LastWithName(es[1..], codes, k);
    if t.Some? {
      var i :| 0 <= i < |es[1..]| && es[1..][i].1 == t.value && NameHit(es[1..][i], codes, k)
                && forall j :: i < j < |es[1..]| ==> !NameHit(es[1..][j], codes, k);
      assert forall j :: 0 < j < |es| ==> es[j] == es[1..][j - 1];
      LastWithNameAt(es, codes, k, i + 1);
    } else if NameHit(es[0], codes, k) {
      assert forall j :: 0 < j < |es| ==> es[j] == es[1..][j - 1];
      LastWithNameAt(es, codes, k, 0);
    } else {
      assert forall j :: 0 < j < |es| ==> es[j] == es[1..][j - 1];
    }
  }

  /** The name index answers with the last element taken under the key, or with what it held before. */
  lemma {:induction false} NameIndexLast(acc: seq<(string, Bc3Element)>, es: seq<(string, Bc3Element)>, codes: set<string>, k: string)
    ensures Get(NameIndex(acc, es, codes), k) ==
      if LastWithName(es, codes, k).Some? then LastWithName(es, codes, k) else Get(acc, k)
    decreases |es|
  {
    if |es| > 0 {
      var (code, e) := es[0];
      var acc' := if code !in codes && Bc3NameKey(e).Some? then Put(acc, Bc3NameKey(e).value, e) else acc;
      assert Get(acc', k) == if NameHit(es[0], codes, k) then Some(e) else Get(acc, k);
      NameIndexLast(acc', es[1..], codes, k);
      LastWithNameCons(es, codes, k);
    }
  }

  /**
    `bc3_by_name[k]` is the last element, in element order, that is not
    excluded and whose name key is `k`; every such element is indexed, so
    a key is absent only when no element qualifies.
   */
  lemma NameIndexLastWins(es: seq<(string, Bc3Element)>, codes: set<string>, k: string)
    ensures Get(NameIndex([], es, codes), k) == LastWithName(es, codes, k)
  {
    NameIndexLast([], es, codes, k);
  }

  /** A type entry's key is its global id, and the type is one of the types. */
  lemma TypeEntry(ifc: IfcParseResult, bc3: Bc3ParseResult, entry: (string, IfcType))
    requires Consistent(ifc, bc3) && entry in ifc.types
    ensures entry.1.globalId == entry.0 && entry.1 in Values(ifc.types)
  {
    ValueIn(ifc.types, entry.0, entry.1);
  }

  /** The GUID strategy keeps the invariant: it only adds pairs over unused ids and codes. */
  lemma {:induction false} GuidPassInv(st: MatchState, ts: seq<(string, IfcType)>, idx: seq<(string, Bc3Element)>,
                                       ifc: IfcParseResult, bc3: Bc3ParseResult)
    requires Consistent(ifc, bc3) && Inv(st, ifc, bc3)
    requires forall j :: 0 <= j < |ts| ==> ts[j] in ifc.types
    requires forall g :: Get(idx, g).Some? ==> HasGuid(Get(idx, g).value, g) && Get(idx, g).value in Values(bc3.elements)
    ensures Inv(GuidPass(st, ts, idx), ifc, bc3)
    decreases |ts|
  {
    if |ts| > 0 {
      var (guid, t) := ts[0];
      TypeEntry(ifc, bc3, ts[0]);
      var next :=
        if guid in st.ifcIds then st
        else match Get(idx, guid)
          case Some(e) =>
            if e.code !in st.bc3Codes then AddPair(st, MatchPair(Guid, t, e, guid, 1.0), guid, e.code) else st
          case None => st;
      assert GuidPass(st, ts, idx) == GuidPass(next, ts[1..], idx);
      if guid !in st.ifcIds && Get(idx, guid).Some? && Get(idx, guid).value.code !in st.bc3Codes {
        AddPairInv(st, MatchPair(Guid, t, Get(idx, guid).value, guid, 1.0), ifc, bc3);
      }
      GuidPassInv(next, ts[1..], idx, ifc, bc3);
    }
  }

  /** The name strategy keeps the invariant: it only adds pairs over unused ids and codes. */
  lemma {:induction false} NamePassInv(st: MatchState, ts: seq<(string, IfcType)>, idx: seq<(string, Bc3Element)>,
                                       ifc: IfcParseResult, bc3: Bc3ParseResult)
    requires Consistent(ifc, bc3) && Inv(st, ifc, bc3)
    requires forall j :: 0 <= j < |ts| ==> ts[j] in ifc.types
    requires forall k :: Get(idx, k).Some? ==> Bc3NameKey(Get(idx, k).value) == Some(k) && Get(idx, k).value in Values(bc3.elements)
    ensures Inv(NamePass(st, ts, idx), ifc, bc3)
    decreases |ts|
  {
    if |ts| > 0 {
      var (guid, t) := ts[0];
      TypeEntry(ifc, bc3, ts[0]);
      var next :=
        if guid in st.ifcIds || TypeNameKey(t).None? then st
        else
          var key := TypeNameKey(t).value;
          match Get(idx, key)
          case Some(e) =>
            if e.code !in st.bc3Codes then AddPair(st, MatchPair(Name, t, e, key, 0.8), guid, e.code) else st
          case None => st;
      assert NamePass(st, ts, idx) == NamePass(next, ts[1..], idx);
      if guid !in st.ifcIds && TypeNameKey(t).Some? {
        var key := TypeNameKey(t).value;
        if Get(idx, key).Some? && Get(idx, key).value.code !in st.bc3Codes {
          AddPairInv(st, MatchPair(Name, t, Get(idx, key).value, key, 0.8), ifc, bc3);
        }
      }
      NamePassInv(next, ts[1..], idx, ifc, bc3);
    }
  }

  lemma NameIndexEntries(bc3: Bc3ParseResult, codes: set<string>)
    ensures var idx := NameIndex([], bc3.elements, codes);
      forall k :: Get(idx, k).Some? ==> Bc3NameKey(Get(idx, k).value) == Some(k) && Get(idx, k).value in Values(bc3.elements)
  {
    var idx := NameIndex([], bc3.elements, codes);
    forall k | Get(idx, k).Some?
      ensures Bc3NameKey(Get(idx, k).value) == Some(k) && Get(idx, k).value in Values(bc3.elements)
    {
      NameIndexSound([], bc3.elements, codes, k);
      var i :| 0 <= i < |bc3.elements| && bc3.elements[i].1 == Get(idx, k).value && bc3.elements[i].0 !in codes
               && Bc3NameKey(Get(idx, k).value) == Some(k);
      assert Values(bc3.elements)[i] == bc3.elements[i].1;
    }
  }

  /** Whatever the strategies enabled, the final state satisfies the invariant. */
  lemma CascadeInv(ifc: IfcParseResult, bc3: Bc3ParseResult, matchByName: bool)
    requires Consistent(ifc, bc3)
    ensures Inv(Cascade(ifc, bc3, matchByName), ifc, bc3)
  {
    TagGidsDistinct(ifc, bc3);
    TagPassInv(Empty, ifc.typesByTag, ifc, bc3);
    var st1 := TagPass(Empty, ifc.typesByTag, bc3.elements);
    GuidIndexSound(bc3.elements);
    GuidPassInv(st1, ifc.types, GuidIndex([], Values(bc3.elements)), ifc, bc3);
    if matchByName {
      var st2 := FirstTwo(ifc, bc3);
      NameIndexEntries(bc3, st2.bc3Codes);
      NamePassInv(st2, ifc.types, NameIndex([], bc3.elements, st2.bc3Codes), ifc, bc3);
    }
  }

  /**
    Every matched pair carries the evidence of the strategy that made it
    (tag entry and budget code, type GUID, or name key; confidence 1.0, 1.0
    or 0.8), and no type id or budget code is matched twice.
   */
  lemma MatchedPairsJustified(ifc: IfcParseResult, bc3: Bc3ParseResult, matchByName: bool)
    requires Consistent(ifc, bc3)
    ensures var m := Match(ifc, bc3, matchByName).matched;
      (forall i :: 0 <= i < |m| ==> PairOk(m[i], ifc, bc3)) && OneToOne(m)
  {
    CascadeInv(ifc, bc3, matchByName);
  }

  /** Each type is either in a matched pair or in an IFC-only pair, never both and never neither. */
  lemma IfcPartition(ifc: IfcParseResult, bc3: Bc3ParseResult, matchByName: bool)
    requires Consistent(ifc, bc3)
    ensures var r := Match(ifc, bc3, matchByName);
      forall i :: 0 <= i < |ifc.types| ==>
        ((exists j :: 0 <= j < |r.matched| && r.matched[j].ifcType == Some(ifc.types[i].1))
         <==> IfcOnlyPair(ifc.types[i].1) !in r.ifcOnly)
    ensures forall p :: p in Match(ifc, bc3, matchByName).ifcOnly ==>
      p.status == IfcOnly && p.ifcType.Some? && p.ifcType.value in Values(ifc.types)
  {
    var st := Cascade(ifc, bc3, matchByName);
    var r := Match(ifc, bc3, matchByName);
    CascadeInv(ifc, bc3, matchByName);
    forall i | 0 <= i < |ifc.types|
      ensures (exists j :: 0 <= j < |r.matched| && r.matched[j].ifcType == Some(ifc.types[i].1))
              <==> IfcOnlyPair(ifc.types[i].1) !in r.ifcOnly
    {
      TypeInPartition(ifc, bc3, st, i);
    }
    forall p | p in r.ifcOnly
      ensures p.status == IfcOnly && p.ifcType.Some? && p.ifcType.value in Values(ifc.types)
    {
      var k :| 0 <= k < |ifc.types| && ifc.types[k].0 !in st.ifcIds && p == IfcOnlyPair(ifc.types[k].1);
      assert Values(ifc.types)[k] == ifc.types[k].1;
    }
  }

  lemma TypeInPartition(ifc: IfcParseResult, bc3: Bc3ParseResult, st: MatchState, i: nat)
    requires Consistent(ifc, bc3) && Inv(st, ifc, bc3) && i < |ifc.types|
    ensures (exists j :: 0 <= j < |st.matched| && st.matched[j].ifcType == Some(ifc.types[i].1))
            <==> IfcOnlyPair(ifc.types[i].1) !in IfcOnlyPairs(ifc.types, st.ifcIds)
  {
    var (g, t) := ifc.types[i];
    assert IfcOnlyPair(t) in IfcOnlyPairs(ifc.types, st.ifcIds) <==> g !in st.ifcIds by {
      if IfcOnlyPair(t) in IfcOnlyPairs(ifc.types, st.ifcIds) {
        var k :| 0 <= k < |ifc.types| && ifc.types[k].0 !in st.ifcIds && IfcOnlyPair(t) == IfcOnlyPair(ifc.types[k].1);
        assert ifc.types[k].1 == t;
      }
    }
    if g in st.ifcIds {
      var j :| 0 <= j < |st.matched| && PairGid(st.matched[j]) == g;
      var u := st.matched[j].ifcType.value;
      var a :| 0 <= a < |ifc.types| && Values(ifc.types)[a] == u;
      assert ifc.types[a].0 == g;
      assert a == i;
    } else {
      forall j | 0 <= j < |st.matched|
        ensures st.matched[j].ifcType != Some(t)
      {
        assert PairGid(st.matched[j]) != g;
      }
    }
  }

  /** Each comparable budget element is either in a matched pair or in a BC3-only pair, never both and never neither. */
  lemma Bc3Partition(ifc: IfcParseResult, bc3: Bc3ParseResult, matchByName: bool)
    requires Consistent(ifc, bc3)
    ensures var r := Match(ifc, bc3, matchByName);
      forall i :: 0 <= i < |bc3.elements| && Comparable(bc3.elements[i].1) ==>
        ((exists j :: 0 <= j < |r.matched| && r.matched[j].bc3Element == Some(bc3.elements[i].1))
         <==> Bc3OnlyPair(bc3.elements[i].1) !in r.bc3Only)
    ensures forall p :: p in Match(ifc, bc3, matchByName).bc3Only ==>
      p.status == Bc3Only && p.bc3Element.Some? && Comparable(p.bc3Element.value) && p.bc3Element.value in Values(bc3.elements)
  {
    var st := Cascade(ifc, bc3, matchByName);
    var r := Match(ifc, bc3, matchByName);
    CascadeInv(ifc, bc3, matchByName);
    forall i | 0 <= i < |bc3.elements| && Comparable(bc3.elements[i].1)
      ensures (exists j :: 0 <= j < |r.matched| && r.matched[j].bc3Element == Some(bc3.elements[i].1))
              <==> Bc3OnlyPair(bc3.elements[i].1) !in r.bc3Only
    {
      ElementInPartition(ifc, bc3, st, i);
    }
    forall p | p in r.bc3Only
      ensures p.status == Bc3Only && p.bc3Element.Some? && Comparable(p.bc3Element.value) && p.bc3Element.value in Values(bc3.elements)
    {
      var k :| 0 <= k < |bc3.elements| && bc3.elements[k].0 !in st.bc3Codes && Comparable(bc3.elements[k].1)
               && p == Bc3OnlyPair(bc3.elements[k].1);
      assert Values(bc3.elements)[k] == bc3.elements[k].1;
    }
  }

  lemma ElementInPartition(ifc: IfcParseResult, bc3: Bc3ParseResult, st: MatchState, i: nat)
    requires Consistent(ifc, bc3) && Inv(st, ifc, bc3) && i < |bc3.elements| && Comparable(bc3.elements[i].1)
    ensures (exists j :: 0 <= j < |st.matched| && st.matched[j].bc3Element == Some(bc3.elements[i].1))
            <==> Bc3OnlyPair(bc3.elements[i].1) !in Bc3OnlyPairs(bc3.elements, st.bc3Codes)
  {
    var (c, e) := bc3.elements[i];
    assert Bc3OnlyPair(e) in Bc3OnlyPairs(bc3.elements, st.bc3Codes) <==> c !in st.bc3Codes by {
      if Bc3OnlyPair(e) in Bc3OnlyPairs(bc3.elements, st.bc3Codes) {
        var k :| 0 <= k < |bc3.elements| && bc3.elements[k].0 !in st.bc3Codes && Comparable(bc3.elements[k].1)
                 && Bc3OnlyPair(e) == Bc3OnlyPair(bc3.elements[k].1);
        assert bc3.elements[k].1 == e;
      }
    }
    if c in st.bc3Codes {
      var j :| 0 <= j < |st.matched| && PairBudgetCode(st.matched[j]) == c;
      var u := st.matched[j].bc3Element.value;
      var a :| 0 <= a < |bc3.elements| && Values(bc3.elements)[a] == u;
      assert bc3.elements[a].0 == c;
      assert a == i;
    } else {
      forall j | 0 <= j < |st.matched|
        ensures st.matched[j].bc3Element != Some(e)
      {
        assert PairBudgetCode(st.matched[j]) != c;
      }
    }
  }

  /** The pairs the tag strategy makes: one per tag entry whose tag is a budget code, in tag-index order. */
  function TagPairs(ts: seq<(string, IfcType)>, es: seq<(string, Bc3Element)>): (r: seq<MatchedPair>)
    ensures forall p :: p in r <==> exists k :: 0 <= k < |ts| && Get(es, ts[k].0).Some?
                                     && p == MatchPair(Tag, ts[k].1, Get(es, ts[k].0).value, ts[k].0, 1.0)
    decreases |ts|
  {
    if |ts| == 0 then []
    else
      var rest := TagPairs(ts[1..], es);
      assert forall k :: 1 <= k < |ts| ==> ts[k] == ts[1..][k - 1];
      (match Get(es, ts[0].0)
       case Some(e) => [MatchPair(Tag, ts[0].1, e, ts[0].0, 1.0)]
       case None => []) + rest
  }

  /** The tag strategy appends exactly its pairs. */
  lemma {:induction false} TagPassAppends(st: MatchState, ts: seq<(string, IfcType)>, es: seq<(string, Bc3Element)>)
    ensures TagPass(st, ts, es).matched == st.matched + TagPairs(ts, es)
    decreases |ts|
  {
    if |ts| > 0 {
      TagPassAppends(TagStep(st, ts[0].0, ts[0].1, es), ts[1..], es);
    }
  }

  /** `m` is `before` followed by pairs made with method `how`. */
  predicate ExtendsWith(m: seq<MatchedPair>, before: seq<MatchedPair>, how: MatchMethod)
  {
    |before| <= |m| && m[..|before|] == before && forall i :: |before| <= i < |m| ==> m[i].matchMethod == how
  }

  lemma ExtendsWithTrans(a: seq<MatchedPair>, b: seq<MatchedPair>, c: seq<MatchedPair>, how: MatchMethod)
    requires ExtendsWith(b, a, how) && ExtendsWith(c, b, how)
    ensures ExtendsWith(c, a, how)
  {
    assert c[..|a|] == c[..|b|][..|a|];
  }

  lemma {:induction false} GuidPassExtends(st: MatchState, ts: seq<(string, IfcType)>, idx: seq<(string, Bc3Element)>)
    ensures ExtendsWith(GuidPass(st, ts, idx).matched, st.matched, Guid)
    decreases |ts|
  {
    if |ts| > 0 {
      var (guid, t) := ts[0];
      var next :=
        if guid in st.ifcIds then st
        else match Get(idx, guid)
          case Some(e) =>
            if e.code !in st.bc3Codes then AddPair(st, MatchPair(Guid, t, e, guid, 1.0), guid, e.code) else st
          case None => st;
      GuidPassExtends(next, ts[1..], idx);
      ExtendsWithTrans(st.matched, next.matched, GuidPass(st, ts, idx).matched, Guid);
    }
  }

  lemma {:induction false} NamePassExtends(st: MatchState, ts: seq<(string, IfcType)>, idx: seq<(string, Bc3Element)>)
    ensures ExtendsWith(NamePass(st, ts, idx).matched, st.matched, Name)
    decreases |ts|
  {
    if |ts| > 0 {
      var (guid, t) := ts[0];
      var next :=
        if guid in st.ifcIds || TypeNameKey(t).None? then st
        else
          var key := TypeNameKey(t).value;
          match Get(idx, key)
          case Some(e) =>
            if e.code !in st.bc3Codes then AddPair(st, MatchPair(Name, t, e, key, 0.8), guid, e.code) else st
          case None => st;
      NamePassExtends(next, ts[1..], idx);
      ExtendsWithTrans(st.matched, next.matched, NamePass(st, ts, idx).matched, Name);
    }
  }

  /** The cascade position of a strategy. */
  function Rank(m: MatchMethod): nat
  {
    match m
    case Tag => 0
    case Guid => 1
    case Name => 2
    case _ => 3
  }

  /**
    The matched list starts with exactly the tag pairs, followed by the GUID
    pairs and then the name pairs, and holds no name pair when name matching
    is off.
   */
  lemma CascadeOrder(ifc: IfcParseResult, bc3: Bc3ParseResult, matchByName: bool)
    ensures var m := Match(ifc, bc3, matchByName).matched;
      var tags := TagPairs(ifc.typesByTag, bc3.elements);
      |tags| <= |m| && m[..|tags|] == tags
      && (forall i :: |tags| <= i < |m| ==> m[i].matchMethod in {Guid, Name})
      && (forall i, j :: 0 <= i < j < |m| ==> Rank(m[i].matchMethod) <= Rank(m[j].matchMethod))
      && (!matchByName ==> forall i :: 0 <= i < |m| ==> m[i].matchMethod != Name)
  {
    var st1 := TagPass(Empty, ifc.typesByTag, bc3.elements);
    var tags := TagPairs(ifc.typesByTag, bc3.elements);
    TagPassAppends(Empty, ifc.typesByTag, bc3.elements);
    assert st1.matched == tags;
    var st2 := FirstTwo(ifc, bc3);
    GuidPassExtends(st1, ifc.types, GuidIndex([], Values(bc3.elements)));
    var m := Match(ifc, bc3, matchByName).matched;
    assert forall p :: p in tags ==> p.matchMethod == Tag;
    if matchByName {
      NamePassExtends(st2, ifc.types, NameIndex([], bc3.elements, st2.bc3Codes));
      assert m == NamePass(st2, ifc.types, NameIndex([], bc3.elements, st2.bc3Codes)).matched;
      CascadeShape(tags, st2.matched, m);
    } else {
      assert m == st2.matched;
      assert ExtendsWith(m, m, Name);
      CascadeShape(tags, st2.matched, m);
    }
  }

  /** Tag pairs, then GUID pairs, then name pairs: methods appear in cascade order. */
  lemma CascadeShape(tags: seq<MatchedPair>, afterGuid: seq<MatchedPair>, m: seq<MatchedPair>)
    requires forall p :: p in tags ==> p.matchMethod == Tag
    requires ExtendsWith(afterGuid, tags, Guid) && ExtendsWith(m, afterGuid, Name)
    ensures |tags| <= |m| && m[..|tags|] == tags
    ensures forall i :: |tags| <= i < |m| ==> m[i].matchMethod in {Guid, Name}
    ensures forall i, j :: 0 <= i < j < |m| ==> Rank(m[i].matchMethod) <= Rank(m[j].matchMethod)
  {
    assert m[..|tags|] == m[..|afterGuid|][..|tags|];
    assert forall i :: 0 <= i < |tags| ==> m[i] == tags[i];
    assert forall i :: |tags| <= i < |afterGuid| ==> m[i] == afterGuid[i];
    assert forall i :: 0 <= i < |m| ==> Rank(m[i].matchMethod) == if i < |tags| then 0 else if i < |afterGuid| then 1 else 2;
  }

  /**
    With the default threshold 0.9, the high-confidence matches are exactly
    the tag and GUID matches, in matched order.
   */
  lemma HighConfidenceIsTagOrGuid(ifc: IfcParseResult, bc3: Bc3ParseResult, matchByName: bool)
    requires Consistent(ifc, bc3)
    ensures var r := Match(ifc, bc3, matchByName);
      HighConfidenceMatches(r, 0.9) == Filter((p: MatchedPair) => p.matchMethod != Name, r.matched)
  {
    var r := Match(ifc, bc3, matchByName);
    MatchedPairsJustified(ifc, bc3, matchByName);
    FilterAgree((p: MatchedPair) => p.confidence >= 0.9, (p: MatchedPair) => p.matchMethod != Name, r.matched);
  }

  /**
    The rate is not a bounded percentage: a type matched by tag to a budget
    element with no unit, GUID or properties counts as a match but the
    element does not count among the budget elements, giving 200%.
   */
  lemma MatchRateAbove100()
    ensures var t := IfcType("G1", Some("A"), "Wall", "IfcWallType", None, None, [], 1);
      var ifc := IfcParseResult([], [("G1", t)], [], [("A", t)], "IFC4", "", []);
      var bc3 := Bc3ParseResult([("A", NewElement("A", "", "Wall", 0.0))], [], "", []);
      MatchRate(Match(ifc, bc3, false)) == 200.0
  {
    var t := IfcType("G1", Some("A"), "Wall", "IfcWallType", None, None, [], 1);
    var ifc := IfcParseResult([], [("G1", t)], [], [("A", t)], "IFC4", "", []);
    var e := NewElement("A", "", "Wall", 0.0);
    var bc3 := Bc3ParseResult([("A", e)], [], "", []);
    assert Get(bc3.elements, "A") == Some(e);
    var st1 := AddPair(Empty, MatchPair(Tag, t, e, "A", 1.0), "G1", "A");
    assert TagPass(Empty, ifc.typesByTag, bc3.elements) == TagPass(st1, ifc.typesByTag[1..], bc3.elements);
    assert ifc.typesByTag[1..] == [] && ifc.types[1..] == [];
    var idx := GuidIndex([], Values(bc3.elements));
    assert GuidPass(st1, ifc.types, idx) == GuidPass(st1, ifc.types[1..], idx);
    assert FirstTwo(ifc, bc3) == st1;
    assert !Comparable(e);
    assert Count(Comparable, Values(bc3.elements)) == 0;
  }
}
