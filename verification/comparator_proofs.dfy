/**
  Properties of the comparator: how the counters relate to the conflict
  list, which checks the phase switches turn off, that a quick check never
  reports a conflict the full analysis would not, and how the comparator's
  settings persist between calls.
 */
module ComparisonProofs {
  import opened Wrappers
  import opened Text
  import opened Numbers
  import opened Lists
  import opened Ifc
  import opened Bc3Parser
  import opened Matcher
  import opened MatcherProofs
  import opened Phases
  import opened Comparison

  // ---------------------------------------------------------------------
  // Value and name comparison
  // ---------------------------------------------------------------------

  /** With a non-negative tolerance every value equals itself. */
  lemma ValuesEqualReflexive(a: Value, tolerance: real)
    requires tolerance >= 0.0
    ensures ValuesEqual(a, a, tolerance)
  {
  }

  /** The order of the two values does not matter. */
  lemma ValuesEqualSymmetric(a: Value, b: Value, tolerance: real)
    ensures ValuesEqual(a, b, tolerance) == ValuesEqual(b, a, tolerance)
  {
  }

  /** A wider tolerance accepts every pair a narrower one accepts. */
  lemma ValuesEqualMonotone(a: Value, b: Value, narrow: real, wide: real)
    requires narrow <= wide
    ensures ValuesEqual(a, b, narrow) ==> ValuesEqual(a, b, wide)
  {
  }

  /** Lower-casing leaves number characters alone and makes no number character out of another one. */
  lemma LowerNumberChars(t: string, u: string)
    requires forall k :: 0 <= k < |u| ==> NumberChar(u[k])
    requires Lower(t) == u
    ensures t == u
  {
    forall k | 0 <= k < |t|
      ensures t[k] == u[k]
    {
      assert LowerChar(t[k]) == u[k];
    }
  }

  /** The text of an integer is unpadded, already lower-case, made of number characters, and reads as a number. */
  lemma IntTextPlain(n: int)
    ensures var u := IntToString(n);
      Strip(u) == u && Lower(u) == u && ParseDecimal(u).Some?
      && forall k :: 0 <= k < |u| ==> NumberChar(u[k])
  {
    var u := IntToString(n);
    IntToStringShape(n);
    NumberTextPlain(u);
    StripUnpadded(u);
    ParseIntRoundTrip(n);
    assert forall k :: 0 <= k < |u| ==> LowerChar(u[k]) == u[k];
  }

  /**
    Python compares `str(n)` with the text when `float` rejects the text;
    those two never agree, because `str(n)` itself reads as a number. So an
    integer is never equal to such a text, as `ValuesEqual` has it.
   */
  lemma IntAgainstWordText(n: int, s: string, tolerance: real)
    requires PyFloat(s).None?
    ensures Lower(Strip(IntToString(n))) != Lower(Strip(s))
    ensures !ValuesEqual(IntV(n), StrV(s), tolerance) && !ValuesEqual(StrV(s), IntV(n), tolerance)
  {
    var u := IntToString(n);
    IntTextPlain(n);
    if Lower(u) == Lower(Strip(s)) {
      LowerNumberChars(Strip(s), u);
      assert false;
    }
  }

  /** A bool compares as the number 1 or 0. */
  lemma BoolAsNumber(tolerance: real)
    requires tolerance >= 0.0
    ensures ValuesEqual(BoolV(true), IntV(1), tolerance) && ValuesEqual(BoolV(false), RealV(0.0), tolerance)
    ensures ValuesEqual(BoolV(true), IntV(0), tolerance) <==> tolerance >= 1.0
  {
  }

  /** Against a text that does not read as a number, a bool compares as the text `True` or `False`, case and padding aside. */
  lemma BoolAgainstText(v: bool, s: string, tolerance: real)
    requires PyFloat(s).None?
    ensures ValuesEqual(BoolV(v), StrV(s), tolerance) <==> Lower(Strip(s)) == Lower(if v then "True" else "False")
    ensures ValuesEqual(StrV(s), BoolV(v), tolerance) <==> Lower(Strip(s)) == Lower(if v then "True" else "False")
  {
    var t := if v then "True" else "False";
    assert !IsSpace(t[0]) && !IsSpace(t[|t| - 1]);
    StripUnpadded(t);
    assert ValuesEqual(BoolV(v), StrV(s), tolerance) <==> Lower(Strip(t)) == Lower(Strip(s)) by {
      assert PyText(BoolV(v)) == Some(t) && ToFloat(StrV(s)).None?;
    }
    ValuesEqualSymmetric(BoolV(v), StrV(s), tolerance);
  }

  lemma StringsSimilarSymmetric(s1: string, s2: string)
    ensures StringsSimilar(s1, s2) == StringsSimilar(s2, s1)
  {
  }

  /** A name is similar to its lower-cased form: case never makes a name conflict. */
  lemma StringsSimilarIgnoresCase(s: string)
    requires s != ""
    ensures StringsSimilar(s, Lower(s))
  {
    LowerIdempotent(s);
  }

  /** A doubled blank inside a name never makes a name conflict. */
  lemma StringsSimilarDoubleBlank(a: string, b: string)
    ensures StringsSimilar(a + " " + b, a + "  " + b)
  {
    LowerConcat(a + " ", b);
    LowerConcat(a, " ");
    LowerConcat(a + "  ", b);
    LowerConcat(a, "  ");
    assert Lower(" ") == " " && Lower("  ") == "  ";
    WordsDoubleBlank(Lower(a), Lower(b));
  }

  /** Blanks around a name never make a name conflict. */
  lemma StringsSimilarPadded(s: string)
    requires s != ""
    ensures StringsSimilar(" " + s + " ", s)
  {
    LowerConcat(" " + s, " ");
    LowerConcat(" ", s);
    assert Lower(" ") == " ";
    WordsPadded(Lower(s));
  }

  // ---------------------------------------------------------------------
  // Counters
  // ---------------------------------------------------------------------

  /** A matched pair never yields a missing-counterpart or unit conflict. */
  lemma {:induction false} PairsConflictsTypes(ps: seq<MatchedPair>, s: Settings)
    ensures forall c :: c in PairsConflicts(ps, s) ==>
              c.conflictType != MissingInBc3 && c.conflictType != MissingInIfc && c.conflictType != UnitMismatch
    decreases |ps|
  {
    if |ps| > 0 {
      PairsConflictsTypes(ps[1..], s);
    }
  }

  lemma CountTypeNone(t: ConflictType, cs: seq<Conflict>)
    requires forall c :: c in cs ==> c.conflictType != t
    ensures CountType(t, cs) == 0
  {
    CountNone((c: Conflict) => c.conflictType == t, cs);
  }

  /** The missing counters equal the number of missing conflicts of each kind, and no unit conflict is ever raised. */
  lemma MissingCountersMatchConflicts(mr: MatchResult, s: Settings)
    ensures var r := Compare(mr, s);
      r.missingInBc3 == CountType(MissingInBc3, r.conflicts)
      && r.missingInIfc == CountType(MissingInIfc, r.conflicts)
      && r.unitMismatches == 0
  {
    var a := MissingConflicts(mr.ifcOnly, MissingInBc3);
    var b := MissingConflicts(mr.bc3Only, MissingInIfc);
    var c := PairsConflicts(mr.matched, s);
    PairsConflictsTypes(mr.matched, s);
    var isB := (x: Conflict) => x.conflictType == MissingInBc3;
    var isI := (x: Conflict) => x.conflictType == MissingInIfc;
    var isU := (x: Conflict) => x.conflictType == UnitMismatch;
    CountConcat(isB, a + b, c);
    CountConcat(isB, a, b);
    CountAll(isB, a);
    CountNone(isB, b);
    CountNone(isB, c);
    CountConcat(isI, a + b, c);
    CountConcat(isI, a, b);
    CountNone(isI, a);
    CountAll(isI, b);
    CountNone(isI, c);
    CountConcat(isU, a + b, c);
    CountConcat(isU, a, b);
    CountNone(isU, a);
    CountNone(isU, b);
    CountNone(isU, c);
  }

  // ---------------------------------------------------------------------
  // Switches
  // ---------------------------------------------------------------------

  /** Settings `a` are no more thorough than `b`: every check `a` enables `b` enables too, with no wider tolerance. */
  predicate SettingsLe(a: Settings, b: Settings)
  {
    b.tolerance <= a.tolerance
    && (a.compareNames ==> b.compareNames)
    && (a.checkProperties ==> b.checkProperties)
  }

  lemma {:induction false} PairsConflictsSwitches(ps: seq<MatchedPair>, s: Settings)
    ensures !s.checkProperties ==> PropertiesCompared(ps, s) == 0
    ensures forall c :: c in PairsConflicts(ps, s) ==>
              (!s.checkProperties ==> !IsPropertyConflict(c.conflictType))
              && (!s.compareNames ==> c.conflictType != NameMismatch)
    decreases |ps|
  {
    if |ps| > 0 {
      PairsConflictsSwitches(ps[1..], s);
    }
  }

  /** Without property checks no property conflict appears and nothing is counted as compared. */
  lemma NoPropertyConflictsWhenOff(mr: MatchResult, s: Settings)
    requires !s.checkProperties
    ensures var r := Compare(mr, s);
      r.totalPropertiesCompared == 0 && r.propertyMismatches == 0
      && forall c :: c in r.conflicts ==> !IsPropertyConflict(c.conflictType)
  {
    var a := MissingConflicts(mr.ifcOnly, MissingInBc3);
    var b := MissingConflicts(mr.bc3Only, MissingInIfc);
    var c := PairsConflicts(mr.matched, s);
    PairsConflictsSwitches(mr.matched, s);
    assert forall x: Conflict :: x in a + b + c ==> !IsPropertyConflict(x.conflictType) by {
      assert forall x: Conflict :: x in a + b + c ==> x in a || x in b || x in c;
    }
    CountTypeNone(PropertyMismatch, a + b + c);
  }

  /** Without name comparison no name conflict appears. */
  lemma NoNameConflictsWhenOff(mr: MatchResult, s: Settings)
    requires !s.compareNames
    ensures forall c :: c in Compare(mr, s).conflicts ==> c.conflictType != NameMismatch
  {
    var a := MissingConflicts(mr.ifcOnly, MissingInBc3);
    var b := MissingConflicts(mr.bc3Only, MissingInIfc);
    var c := PairsConflicts(mr.matched, s);
    PairsConflictsSwitches(mr.matched, s);
    assert forall x: Conflict :: x in a + b + c ==> x in a || x in b || x in c;
  }

  /** Only a pair found by description can yield a code conflict. */
  lemma {:induction false} CodeMismatchNeedsDescription(ps: seq<MatchedPair>, s: Settings)
    requires forall i :: 0 <= i < |ps| ==> ps[i].matchMethod != Description
    ensures CountType(CodeMismatch, PairsConflicts(ps, s)) == 0
    decreases |ps|
  {
    if |ps| > 0 {
      CodeMismatchNeedsDescription(ps[1..], s);
      var f := (c: Conflict) => c.conflictType == CodeMismatch;
      CountConcat(f, ComparePair(ps[0], s).0, PairsConflicts(ps[1..], s));
      CountTypeNone(CodeMismatch, ComparePair(ps[0], s).0);
    }
  }

  /** The matcher never matches by description, so comparing its result reports no code conflict. */
  lemma MatcherYieldsNoCodeMismatch(ifc: IfcParseResult, bc3: Bc3ParseResult, matchByName: bool, s: Settings)
    requires Consistent(ifc, bc3)
    ensures Compare(Match(ifc, bc3, matchByName), s).codeMismatches == 0
  {
    var mr := Match(ifc, bc3, matchByName);
    MatchedPairsJustified(ifc, bc3, matchByName);
    CodeMismatchNeedsDescription(mr.matched, s);
    var a := MissingConflicts(mr.ifcOnly, MissingInBc3);
    var b := MissingConflicts(mr.bc3Only, MissingInIfc);
    var f := (c: Conflict) => c.conflictType == CodeMismatch;
    CountConcat(f, a + b, PairsConflicts(mr.matched, s));
    CountConcat(f, a, b);
    CountNone(f, a);
    CountNone(f, b);
  }

  // ---------------------------------------------------------------------
  // A quick check reports a subset of a full analysis, in the same order
  // ---------------------------------------------------------------------

  /** A list of at most one conflict found under both settings is kept. */
  lemma SingleSubseq(x: seq<Conflict>, y: seq<Conflict>)
    requires |x| <= 1 && (x != [] ==> x == y)
    ensures IsSubseq(x, y)
  {
    if x != [] {
      SubseqRefl(y);
    }
  }

  lemma QuantitySubseq(p: MatchedPair, b: Bc3Element, t: IfcType, a: Settings, c: Settings)
    requires SettingsLe(a, c)
    ensures IsSubseq(QuantityCheck(p, b, t, a.tolerance), QuantityCheck(p, b, t, c.tolerance))
  {
    SingleSubseq(QuantityCheck(p, b, t, a.tolerance), QuantityCheck(p, b, t, c.tolerance));
  }

  lemma BasicSubseq(p: MatchedPair, b: Bc3Element, t: IfcType, a: Settings, c: Settings)
    requires SettingsLe(a, c)
    ensures IsSubseq(BasicChecks(p, b, t, a), BasicChecks(p, b, t, c))
  {
    SubseqRefl(CodeCheck(p, b, t));
    QuantitySubseq(p, b, t, a, c);
    SubseqConcat(CodeCheck(p, b, t), CodeCheck(p, b, t),
                 QuantityCheck(p, b, t, a.tolerance), QuantityCheck(p, b, t, c.tolerance));
    var na := if a.compareNames then CompareNames(p, b, t) else [];
    var nc := if c.compareNames then CompareNames(p, b, t) else [];
    if a.compareNames {
      SubseqRefl(nc);
    }
    SubseqConcat(CodeCheck(p, b, t) + QuantityCheck(p, b, t, a.tolerance),
                 CodeCheck(p, b, t) + QuantityCheck(p, b, t, c.tolerance), na, nc);
  }

  lemma CuratedConflictSubseq(p: MatchedPair, key: string, bv: Value, iv: Value, a: Settings, c: Settings)
    requires SettingsLe(a, c) && (bv != Null || iv != Null)
    ensures IsSubseq(CuratedConflict(p, key, bv, iv, a.tolerance), CuratedConflict(p, key, bv, iv, c.tolerance))
  {
    if bv != Null && iv != Null && !ValuesEqual(bv, iv, a.tolerance) {
      if ValuesEqual(bv, iv, c.tolerance) {
        ValuesEqualMonotone(bv, iv, c.tolerance, a.tolerance);
      }
    }
    SingleSubseq(CuratedConflict(p, key, bv, iv, a.tolerance), CuratedConflict(p, key, bv, iv, c.tolerance));
  }

  lemma {:induction false} CuratedSubseq(p: MatchedPair, bp: seq<(string, Value)>, ip: seq<(string, Value)>,
                                         keys: seq<(string, string)>, a: Settings, c: Settings)
    requires SettingsLe(a, c)
    ensures CuratedChecks(p, bp, ip, keys, a.tolerance).1 == CuratedChecks(p, bp, ip, keys, c.tolerance).1
    ensures IsSubseq(CuratedChecks(p, bp, ip, keys, a.tolerance).0, CuratedChecks(p, bp, ip, keys, c.tolerance).0)
    decreases |keys|
  {
    if |keys| > 0 {
      CuratedSubseq(p, bp, ip, keys[1..], a, c);
      var (bk, ik) := keys[0];
      var bv := PropValue(bp, bk);
      var iv := PropValue(ip, ik);
      if bv != Null || iv != Null {
        CuratedConflictSubseq(p, bk, bv, iv, a, c);
        SubseqConcat(CuratedConflict(p, bk, bv, iv, a.tolerance), CuratedConflict(p, bk, bv, iv, c.tolerance),
                     CuratedChecks(p, bp, ip, keys[1..], a.tolerance).0, CuratedChecks(p, bp, ip, keys[1..], c.tolerance).0);
      }
    }
  }

  lemma {:induction false} SharedSubseq(p: MatchedPair, bp: seq<(string, Value)>, ip: seq<(string, Value)>, a: Settings, c: Settings)
    requires SettingsLe(a, c)
    ensures SharedChecks(p, bp, ip, a.tolerance).1 == SharedChecks(p, bp, ip, c.tolerance).1
    ensures IsSubseq(SharedChecks(p, bp, ip, a.tolerance).0, SharedChecks(p, bp, ip, c.tolerance).0)
    decreases |bp|
  {
    if |bp| > 0 {
      SharedSubseq(p, bp[1..], ip, a, c);
      var (key, bv) := bp[0];
      if key in Assoc.Keys(ip) && !IsCuratedKey(key) {
        var iv := Assoc.Get(ip, key).value;
        var ha := if !ValuesEqual(bv, iv, a.tolerance)
                  then [Conflict(PropertyMismatch, Error, PairCode(p), PairName(p), Some(key), iv, bv)] else [];
        var hc := if !ValuesEqual(bv, iv, c.tolerance)
                  then [Conflict(PropertyMismatch, Error, PairCode(p), PairName(p), Some(key), iv, bv)] else [];
        if !ValuesEqual(bv, iv, a.tolerance) && ValuesEqual(bv, iv, c.tolerance) {
          ValuesEqualMonotone(bv, iv, c.tolerance, a.tolerance);
        }
        SingleSubseq(ha, hc);
        SubseqConcat(ha, hc, SharedChecks(p, bp[1..], ip, a.tolerance).0, SharedChecks(p, bp[1..], ip, c.tolerance).0);
      }
    }
  }

  /** The property checks under a wider tolerance find a subsequence of those under a narrower one. */
  lemma PropertySubseq(p: MatchedPair, b: Bc3Element, t: IfcType, a: Settings, c: Settings)
    requires SettingsLe(a, c)
    ensures IsSubseq(PropertyChecks(p, b, t, a.tolerance).0, PropertyChecks(p, b, t, c.tolerance).0)
  {
    CuratedSubseq(p, b.properties, t.properties, ComparableProperties, a, c);
    SharedSubseq(p, b.properties, t.properties, a, c);
    SubseqConcat(CuratedChecks(p, b.properties, t.properties, ComparableProperties, a.tolerance).0,
                 CuratedChecks(p, b.properties, t.properties, ComparableProperties, c.tolerance).0,
                 SharedChecks(p, b.properties, t.properties, a.tolerance).0,
                 SharedChecks(p, b.properties, t.properties, c.tolerance).0);
  }

  /** Per pair: the less thorough settings find a subsequence of the conflicts. */
  lemma PairSubseq(p: MatchedPair, a: Settings, c: Settings)
    requires SettingsLe(a, c)
    ensures IsSubseq(ComparePair(p, a).0, ComparePair(p, c).0)
  {
    if p.bc3Element.Some? && p.ifcType.Some? {
      var b := p.bc3Element.value;
      var t := p.ifcType.value;
      var ba, bc := BasicChecks(p, b, t, a), BasicChecks(p, b, t, c);
      BasicSubseq(p, b, t, a, c);
      if c.checkProperties {
        var pc := PropertyChecks(p, b, t, c.tolerance).0;
        assert ComparePair(p, c).0 == bc + pc;
        if a.checkProperties {
          var pa := PropertyChecks(p, b, t, a.tolerance).0;
          assert ComparePair(p, a).0 == ba + pa;
          PropertySubseq(p, b, t, a, c);
          SubseqConcat(ba, bc, pa, pc);
        } else {
          assert ComparePair(p, a).0 == ba;
          SubseqConcat(ba, bc, [], pc);
          assert ba + [] == ba;
        }
      }
    }
  }

  lemma {:induction false} PairsSubseq(ps: seq<MatchedPair>, a: Settings, c: Settings)
    requires SettingsLe(a, c)
    ensures IsSubseq(PairsConflicts(ps, a), PairsConflicts(ps, c))
    decreases |ps|
  {
    if |ps| > 0 {
      PairSubseq(ps[0], a, c);
      PairsSubseq(ps[1..], a, c);
      SubseqConcat(ComparePair(ps[0], a).0, ComparePair(ps[0], c).0, PairsConflicts(ps[1..], a), PairsConflicts(ps[1..], c));
    }
  }

  /**
    Less thorough settings report a subsequence of the conflicts of more
    thorough ones on the same match result: nothing new, nothing reordered.
   */
  lemma FewerChecksFewerConflicts(mr: MatchResult, a: Settings, c: Settings)
    requires SettingsLe(a, c)
    ensures IsSubseq(Compare(mr, a).conflicts, Compare(mr, c).conflicts)
  {
    var missing := MissingConflicts(mr.ifcOnly, MissingInBc3) + MissingConflicts(mr.bc3Only, MissingInIfc);
    SubseqRefl(missing);
    PairsSubseq(mr.matched, a, c);
    SubseqConcat(missing, missing, PairsConflicts(mr.matched, a), PairsConflicts(mr.matched, c));
  }

  /** Every conflict the quick-check phase reports, the full-analysis phase reports too, in the same order. */
  lemma QuickCheckWithinFullAnalysis(mr: MatchResult, comp: Comparator)
    ensures IsSubseq(CompareWith(comp, mr, Some(GetPhaseConfig(QuickCheck))).1.conflicts,
                     CompareWith(comp, mr, Some(GetPhaseConfig(FullAnalysis))).1.conflicts)
  {
    FewerChecksFewerConflicts(mr, Effective(comp.tolerance, comp.compareNames, Some(GetPhaseConfig(QuickCheck))),
                              Effective(comp.tolerance, comp.compareNames, Some(GetPhaseConfig(FullAnalysis))));
  }

  // ---------------------------------------------------------------------
  // Persistent settings
  // ---------------------------------------------------------------------

  /**
    A phase configuration outlives its call: a later call without one
    checks properties but keeps the phase's tolerance and name switch.
   */
  lemma PhaseSettingsPersist(comp: Comparator, mr1: MatchResult, mr2: MatchResult, config: PhaseConfig)
    ensures var after := CompareWith(comp, mr1, Some(config)).0;
      CompareWith(after, mr2, None).1 == Compare(mr2, Settings(config.quantityTolerance, config.checkNames, true))
  {
  }

  // ---------------------------------------------------------------------
  // Distinct codes with conflicts
  // ---------------------------------------------------------------------

  /** The non-empty codes that appear on the conflicts. */
  function ConflictCodes(cs: seq<Conflict>): (codes: set<string>)
    ensures forall k :: k in codes <==> exists c :: c in cs && c.code == Some(k) && k != ""
  {
    set c | c in cs && Truthy(c.code) :: c.code.value
  }

  lemma ConflictCodesConcat(a: seq<Conflict>, b: seq<Conflict>)
    ensures ConflictCodes(a + b) == ConflictCodes(a) + ConflictCodes(b)
  {
  }

  lemma {:induction false} MissingCodesAreConflictCodes(ps: seq<MatchedPair>, kind: ConflictType)
    ensures MissingCodes(ps) == ConflictCodes(MissingConflicts(ps, kind))
    decreases |ps|
  {
    if |ps| > 0 {
      MissingCodesAreConflictCodes(ps[1..], kind);
      var m := MissingConflicts(ps, kind);
      assert m == [m[0]] + MissingConflicts(ps[1..], kind);
      ConflictCodesConcat([m[0]], MissingConflicts(ps[1..], kind));
    }
  }

  /** A pair with a non-empty budget code files each of its conflicts under that code. */
  lemma PairConflictCodes(p: MatchedPair, s: Settings)
    requires p.bc3Element.Some? ==> p.bc3Element.value.code != ""
    ensures forall c :: c in ComparePair(p, s).0 ==> c.code == PairCode(p)
  {
  }

  lemma {:induction false} PairCodesAreConflictCodes(ps: seq<MatchedPair>, s: Settings)
    requires forall i :: 0 <= i < |ps| && ps[i].bc3Element.Some? ==> ps[i].bc3Element.value.code != ""
    ensures ConflictingPairCodes(ps, s) == ConflictCodes(PairsConflicts(ps, s))
    decreases |ps|
  {
    if |ps| > 0 {
      PairCodesAreConflictCodes(ps[1..], s);
      PairConflictCodes(ps[0], s);
      var here := ComparePair(ps[0], s).0;
      ConflictCodesConcat(here, PairsConflicts(ps[1..], s));
      if here != [] {
        assert here[0] in here;
      }
    }
  }

  /**
    `total_with_conflicts` counts the distinct non-empty codes that occur
    on the reported conflicts, provided every budget code is non-empty.
   */
  lemma TotalWithConflictsCountsCodes(mr: MatchResult, s: Settings)
    requires forall i :: 0 <= i < |mr.matched| && mr.matched[i].bc3Element.Some? ==> mr.matched[i].bc3Element.value.code != ""
    ensures Compare(mr, s).totalWithConflicts == |ConflictCodes(Compare(mr, s).conflicts)|
  {
    var a := MissingConflicts(mr.ifcOnly, MissingInBc3);
    var b := MissingConflicts(mr.bc3Only, MissingInIfc);
    MissingCodesAreConflictCodes(mr.ifcOnly, MissingInBc3);
    MissingCodesAreConflictCodes(mr.bc3Only, MissingInIfc);
    PairCodesAreConflictCodes(mr.matched, s);
    ConflictCodesConcat(a + b, PairsConflicts(mr.matched, s));
    ConflictCodesConcat(a, b);
  }
}
