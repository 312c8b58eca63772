/**
  The comparator: walks a match result and emits a flat list of typed,
  severity-tagged conflicts (missing counterparts first, then per matched
  pair: code, quantity, names, curated properties, shared properties) plus
  counters. `compare` reads its tolerance and switches from the phase
  configuration when one is given; here that is a pure function of the
  effective settings.
 */
module Comparison {
  import opened Wrappers
  import opened Text
  import opened Numbers
  import opened Assoc
  import opened Lists
  import opened Ifc
  import opened Bc3Parser
  import opened Matcher
  import opened Phases

  datatype ConflictType =
    | MissingInBc3 | MissingInIfc | CodeMismatch | QuantityMismatch | UnitMismatch
    | PropertyMismatch | PropertyMissingIfc | PropertyMissingBc3 | NameMismatch

  datatype Severity = Error | Warning | Info

  /** One conflict; the free-text message is not modelled. */
  datatype Conflict = Conflict(
    conflictType: ConflictType,
    severity: Severity,
    code: Option<string>,
    elementName: string,
    propertyName: Option<string>,
    ifcValue: Value,
    bc3Value: Value)

  predicate IsPropertyConflict(t: ConflictType)
  {
    t == PropertyMismatch || t == PropertyMissingIfc || t == PropertyMissingBc3
  }

  /** The settings one `compare` call works with. */
  datatype Settings = Settings(tolerance: real, compareNames: bool, checkProperties: bool)

  /** The constructor defaults of the comparator. */
  const DefaultTolerance: real := 0.01
  const DefaultCompareNames: bool := true

  /**
    The comparator's current tolerance and name switch, replaced by the
    phase configuration's when one is given; without one, properties are
    always checked.
   */
  function Effective(tolerance: real, compareNames: bool, config: Option<PhaseConfig>): (s: Settings)
    ensures config.None? ==> s.checkProperties && s.tolerance == tolerance && s.compareNames == compareNames
    ensures config.Some? ==> s.checkProperties == config.value.checkProperties
                             && s.tolerance == config.value.quantityTolerance && s.compareNames == config.value.checkNames
  {
    match config
    case None => Settings(tolerance, compareNames, true)
    case Some(c) => Settings(c.quantityTolerance, c.checkNames, c.checkProperties)
  }

  /** `props.get(k)`, with a missing key read as `None`. */
  function PropValue(props: seq<(string, Value)>, k: string): (v: Value)
    ensures k !in Keys(props) ==> v == Null
    ensures k in Keys(props) ==> (k, v) in props
  {
    match Get(props, k)
    case Some(v) => v
    case None => Null
  }

  /**
    `_values_equal`: both absent is equal, one absent is not; two values
    that both read as numbers (a bool reads as 1 or 0) are equal within the
    tolerance; otherwise their texts are compared stripped and lower-cased,
    so `True` equals the text ` true `. An integer and a text that does not
    read as a number are never equal (`IntAgainstWordText`).
   */
  function ValuesEqual(a: Value, b: Value, tolerance: real): (r: bool)
    ensures a == Null && b == Null ==> r
    ensures (a == Null) != (b == Null) ==> !r
    ensures a != Null && b != Null && ToFloat(a).Some? && ToFloat(b).Some? ==>
              (r <==> Abs(ToFloat(a).value - ToFloat(b).value) <= tolerance)
    ensures a != Null && b != Null && (ToFloat(a).None? || ToFloat(b).None?) ==>
              (r <==> PyText(a).Some? && PyText(b).Some? && Lower(Strip(PyText(a).value)) == Lower(Strip(PyText(b).value)))
  {
    if a == Null && b == Null then true
    else if a == Null || b == Null then false
    else match (ToFloat(a), ToFloat(b))
      case (Some(x), Some(y)) => Abs(x - y) <= tolerance
      case _ => PyText(a).Some? && PyText(b).Some? && Lower(Strip(PyText(a).value)) == Lower(Strip(PyText(b).value))
  }

  /** `_strings_similar`: both non-empty and equal once lower-cased with whitespace runs collapsed, that is, with the same words. */
  function StringsSimilar(s1: string, s2: string): (r: bool)
    ensures r ==> s1 != "" && s2 != ""
    ensures r <==> s1 != "" && s2 != "" && Words(Lower(s1)) == Words(Lower(s2))
  {
    if s1 == "" || s2 == "" then false
    else if CollapseSpaces(Lower(s1)) == CollapseSpaces(Lower(s2)) then
      JoinWordsInjective(Words(Lower(s1)), Words(Lower(s2)));
      true
    else false
  }

  /** Units whose quantity is a count of instances. */
  const CountableUnits: seq<string> := ["u", "ud", "un", "pza", "ut", "unidad", "unidades"]

  /** The curated (budget key, IFC key) property pairs. */
  const ComparableProperties: seq<(string, string)> := [
    ("h", "h"),
    ("b", "b"),
    ("Anchura", "width"),
    ("Altura", "height"),
    ("Grosor", "thickness"),
    ("Longitud", "length"),
    ("Material", "Material"),
    ("Material estructural", "StructuralMaterial"),
    ("Resistencia térmica (R)", "ThermalResistance"),
    ("Coeficiente de transferencia de calor (U)", "HeatTransferCoefficient")]

  /** `x or "?"`. */
  function OrUnknown(s: Option<string>): string
  {
    if Truthy(s) then s.value else "?"
  }

  /** A pair found by description whose tag and code differ is an error. */
  function CodeCheck(p: MatchedPair, b: Bc3Element, t: IfcType): (r: seq<Conflict>)
    ensures |r| <= 1
    ensures r != [] <==> p.matchMethod == Description && OrUnknown(t.tag) != OrUnknown(Some(b.code))
    ensures forall c :: c in r ==> c.conflictType == CodeMismatch && c.severity == Error
                                   && c.code == Some(OrUnknown(Some(b.code)))
  {
    var ifcCode := OrUnknown(t.tag);
    var bc3Code := OrUnknown(Some(b.code));
    if p.matchMethod == Description && ifcCode != bc3Code
    then [Conflict(CodeMismatch, Error, Some(bc3Code), PairName(p), Some("Código"), StrV(ifcCode), StrV(bc3Code))]
    else []
  }

  /** Quantities are compared only when both are positive and the unit counts instances. */
  function QuantityCheck(p: MatchedPair, b: Bc3Element, t: IfcType, tolerance: real): (r: seq<Conflict>)
    ensures |r| <= 1
    ensures r != [] <==> b.quantity > 0.0 && t.instanceCount > 0 && Lower(b.unit) in CountableUnits
                         && Abs(b.quantity - t.instanceCount as real) > tolerance
    ensures forall c :: c in r ==> c.conflictType == QuantityMismatch && c.severity == Error && c.code == PairCode(p)
                                   && c.ifcValue == IntV(t.instanceCount) && c.bc3Value == RealV(b.quantity)
  {
    if b.quantity > 0.0 && t.instanceCount > 0 && Lower(b.unit) in CountableUnits
       && Abs(b.quantity - t.instanceCount as real) > tolerance
    then [Conflict(QuantityMismatch, Error, PairCode(p), PairName(p), Some("Cantidad"), IntV(t.instanceCount), RealV(b.quantity))]
    else []
  }

  /** One name field, checked only when set on both sides. */
  function NameCheck(p: MatchedPair, field: string, ifcName: Option<string>, bc3Name: Option<string>): (r: seq<Conflict>)
    ensures |r| <= 1
    ensures r != [] <==> Truthy(bc3Name) && Truthy(ifcName) && !StringsSimilar(bc3Name.value, ifcName.value)
    ensures forall c :: c in r ==> c.conflictType == NameMismatch && c.severity == Warning && c.code == PairCode(p)
                                   && c.propertyName == Some(field)
  {
    if Truthy(bc3Name) && Truthy(ifcName) && !StringsSimilar(bc3Name.value, ifcName.value)
    then [Conflict(NameMismatch, Warning, PairCode(p), PairName(p), Some(field), StrV(ifcName.value), StrV(bc3Name.value))]
    else []
  }

  /** `_compare_names`: family name, then type name. */
  function CompareNames(p: MatchedPair, b: Bc3Element, t: IfcType): (r: seq<Conflict>)
    ensures |r| <= 2
    ensures forall c :: c in r ==> c.conflictType == NameMismatch && c.severity == Warning && c.code == PairCode(p)
  {
    NameCheck(p, "Family Name", t.familyName, b.familyName) + NameCheck(p, "Type Name", t.typeName, b.typeName)
  }

  /** One curated key pair whose values are not both absent. */
  function CuratedConflict(p: MatchedPair, key: string, bv: Value, iv: Value, tolerance: real): (r: seq<Conflict>)
    requires bv != Null || iv != Null
    ensures |r| <= 1
    ensures bv == Null ==> |r| == 1 && r[0].conflictType == PropertyMissingBc3 && r[0].severity == Info
    ensures bv != Null && iv == Null ==> |r| == 1 && r[0].conflictType == PropertyMissingIfc && r[0].severity == Info
    ensures bv != Null && iv != Null ==> (r != [] <==> !ValuesEqual(bv, iv, tolerance))
    ensures forall c :: c in r ==> c.code == PairCode(p) && c.propertyName == Some(key) && c.ifcValue == iv && c.bc3Value == bv
    ensures forall c :: c in r ==> IsPropertyConflict(c.conflictType)
    ensures forall c :: c in r && c.conflictType == PropertyMismatch ==> c.severity == Error
  {
    if bv == Null then [Conflict(PropertyMissingBc3, Info, PairCode(p), PairName(p), Some(key), iv, Null)]
    else if iv == Null then [Conflict(PropertyMissingIfc, Info, PairCode(p), PairName(p), Some(key), Null, bv)]
    else if !ValuesEqual(bv, iv, tolerance)
    then [Conflict(PropertyMismatch, Error, PairCode(p), PairName(p), Some(key), iv, bv)]
    else []
  }

  /** The curated key pairs, in list order; a pair absent on both sides is skipped and not counted. */
  function CuratedChecks(p: MatchedPair, bp: seq<(string, Value)>, ip: seq<(string, Value)>,
                         keys: seq<(string, string)>, tolerance: real): (r: (seq<Conflict>, nat))
    ensures r.1 <= |keys| && |r.0| <= r.1
    ensures forall c :: c in r.0 ==> IsPropertyConflict(c.conflictType) && c.code == PairCode(p)
    decreases |keys|
  {
    if |keys| == 0 then ([], 0)
    else
      var (bk, ik) := keys[0];
      var bv := PropValue(bp, bk);
      var iv := PropValue(ip, ik);
      var rest := CuratedChecks(p, bp, ip, keys[1..], tolerance);
      if bv == Null && iv == Null then rest
      else (CuratedConflict(p, bk, bv, iv, tolerance) + rest.0, 1 + rest.1)
  }

  /** A curated key pair with a value on at least one side; only these count as compared. */
  predicate CuratedPresent(bp: seq<(string, Value)>, ip: seq<(string, Value)>, keys: (string, string))
  {
    !(PropValue(bp, keys.0) == Null && PropValue(ip, keys.1) == Null)
  }

  /** How many curated key pairs have a value on at least one side. */
  function CountCuratedCompared(bp: seq<(string, Value)>, ip: seq<(string, Value)>, keys: seq<(string, string)>): nat
  {
    Count((k: (string, string)) => CuratedPresent(bp, ip, k), keys)
  }

  /** How many budget properties are also on the type and are not curated. */
  function CountSharedCompared(bp: seq<(string, Value)>, ip: seq<(string, Value)>): nat
  {
    Count((e: (string, Value)) => e.0 in Keys(ip) && !IsCuratedKey(e.0), bp)
  }

  /** `any(bc3_key == key for bc3_key, _ in COMPARABLE_PROPERTIES)`. */
  predicate IsCuratedKey(key: string)
  {
    key in Keys(ComparableProperties)
  }

  /** Budget properties also present on the type and not curated, compared once more, in budget order. */
  function SharedChecks(p: MatchedPair, bp: seq<(string, Value)>, ip: seq<(string, Value)>, tolerance: real): (r: (seq<Conflict>, nat))
    ensures r.1 <= |bp| && |r.0| <= r.1
    ensures forall c :: c in r.0 ==> c.conflictType == PropertyMismatch && c.severity == Error && c.code == PairCode(p)
    decreases |bp|
  {
    if |bp| == 0 then ([], 0)
    else
      var (key, bv) := bp[0];
      var rest := SharedChecks(p, bp[1..], ip, tolerance);
      if key !in Keys(ip) || IsCuratedKey(key) then rest
      else
        var iv := Get(ip, key).value;
        var here := if !ValuesEqual(bv, iv, tolerance)
                    then [Conflict(PropertyMismatch, Error, PairCode(p), PairName(p), Some(key), iv, bv)] else [];
        (here + rest.0, 1 + rest.1)
  }

  /** The curated count is the number of key pairs with a value on either side. */
  lemma {:induction false} CuratedChecksCount(p: MatchedPair, bp: seq<(string, Value)>, ip: seq<(string, Value)>,
                                              keys: seq<(string, string)>, tolerance: real)
    ensures CuratedChecks(p, bp, ip, keys, tolerance).1 == CountCuratedCompared(bp, ip, keys)
    decreases |keys|
  {
    if |keys| > 0 {
      CuratedChecksCount(p, bp, ip, keys[1..], tolerance);
    }
  }

  /** The shared count is the number of budget properties also on the type and not curated. */
  lemma {:induction false} SharedChecksCount(p: MatchedPair, bp: seq<(string, Value)>, ip: seq<(string, Value)>, tolerance: real)
    ensures SharedChecks(p, bp, ip, tolerance).1 == CountSharedCompared(bp, ip)
    decreases |bp|
  {
    if |bp| > 0 {
      SharedChecksCount(p, bp[1..], ip, tolerance);
    }
  }

  /** The checks that run before the property checks. */
  function BasicChecks(p: MatchedPair, b: Bc3Element, t: IfcType, s: Settings): (r: seq<Conflict>)
    ensures forall c :: c in r ==> c.conflictType in {CodeMismatch, QuantityMismatch, NameMismatch}
    ensures !s.compareNames ==> forall c :: c in r ==> c.conflictType != NameMismatch
    ensures p.matchMethod != Description ==> forall c :: c in r ==> c.conflictType != CodeMismatch
  {
    CodeCheck(p, b, t) + QuantityCheck(p, b, t, s.tolerance) + (if s.compareNames then CompareNames(p, b, t) else [])
  }

  /** The curated checks, then the shared-key checks. */
  function PropertyChecks(p: MatchedPair, b: Bc3Element, t: IfcType, tolerance: real): (r: (seq<Conflict>, nat))
    ensures forall c :: c in r.0 ==> IsPropertyConflict(c.conflictType)
  {
    var curated := CuratedChecks(p, b.properties, t.properties, ComparableProperties, tolerance);
    var shared := SharedChecks(p, b.properties, t.properties, tolerance);
    (curated.0 + shared.0, curated.1 + shared.1)
  }

  /** `_compare_pair`: the pair's conflicts in check order, and how many properties were compared. */
  function ComparePair(p: MatchedPair, s: Settings): (r: (seq<Conflict>, nat))
    ensures p.bc3Element.None? || p.ifcType.None? ==> r == ([], 0)
    ensures !s.checkProperties ==> r.1 == 0 && forall c :: c in r.0 ==> !IsPropertyConflict(c.conflictType)
    ensures !s.compareNames ==> forall c :: c in r.0 ==> c.conflictType != NameMismatch
    ensures forall c :: c in r.0 ==> c.conflictType !in {MissingInBc3, MissingInIfc, UnitMismatch}
  {
    if p.bc3Element.None? || p.ifcType.None? then ([], 0)
    else
      var b := p.bc3Element.value;
      var t := p.ifcType.value;
      var basic := BasicChecks(p, b, t, s);
      if !s.checkProperties then (basic, 0)
      else
        var props := PropertyChecks(p, b, t, s.tolerance);
        (basic + props.0, props.1)
  }

  /** One warning per pair with no counterpart. */
  function MissingConflicts(ps: seq<MatchedPair>, kind: ConflictType): (r: seq<Conflict>)
    ensures |r| == |ps|
    ensures forall i :: 0 <= i < |ps| ==>
              r[i].conflictType == kind && r[i].severity == Warning
              && r[i].code == PairCode(ps[i]) && r[i].elementName == PairName(ps[i])
    ensures forall c :: c in r ==> c.conflictType == kind
  {
    seq(|ps|, i requires 0 <= i < |ps| => Conflict(kind, Warning, PairCode(ps[i]), PairName(ps[i]), None, Null, Null))
  }

  /** The matched pairs' conflicts, pair after pair. */
  function PairsConflicts(ps: seq<MatchedPair>, s: Settings): seq<Conflict>
    decreases |ps|
  {
    if |ps| == 0 then [] else ComparePair(ps[0], s).0 + PairsConflicts(ps[1..], s)
  }

  function PropertiesCompared(ps: seq<MatchedPair>, s: Settings): nat
    decreases |ps|
  {
    if |ps| == 0 then 0 else ComparePair(ps[0], s).1 + PropertiesCompared(ps[1..], s)
  }

  /** How many properties one pair contributes: none unless both sides are present and properties are checked;
      otherwise the curated pairs with a value on either side plus the shared non-curated keys. */
  function PairPropertiesCompared(p: MatchedPair, s: Settings): nat
  {
    if p.bc3Element.None? || p.ifcType.None? || !s.checkProperties then 0
    else
      var bp := p.bc3Element.value.properties;
      var ip := p.ifcType.value.properties;
      CountCuratedCompared(bp, ip, ComparableProperties) + CountSharedCompared(bp, ip)
  }

  /** The property checks count the curated pairs present on either side plus the shared non-curated keys. */
  lemma PropertyChecksCount(p: MatchedPair, b: Bc3Element, t: IfcType, tolerance: real)
    ensures PropertyChecks(p, b, t, tolerance).1
            == CountCuratedCompared(b.properties, t.properties, ComparableProperties) + CountSharedCompared(b.properties, t.properties)
  {
    CuratedChecksCount(p, b.properties, t.properties, ComparableProperties, tolerance);
    SharedChecksCount(p, b.properties, t.properties, tolerance);
  }

  /** `_compare_pair`'s count: the curated pairs with a value on either side plus the shared non-curated keys. */
  lemma ComparePairCompared(p: MatchedPair, s: Settings)
    ensures ComparePair(p, s).1 == PairPropertiesCompared(p, s)
  {
    if p.bc3Element.Some? && p.ifcType.Some? && s.checkProperties {
      var b := p.bc3Element.value;
      var t := p.ifcType.value;
      PropertyChecksCount(p, b, t, s.tolerance);
    }
  }

  /** The sum of `PairPropertiesCompared` over the pairs. */
  function SumPropertiesCompared(ps: seq<MatchedPair>, s: Settings): nat
    decreases |ps|
  {
    if |ps| == 0 then 0 else PairPropertiesCompared(ps[0], s) + SumPropertiesCompared(ps[1..], s)
  }

  /** The running total equals the sum of each pair's compared properties. */
  lemma {:induction false} PropertiesComparedSum(ps: seq<MatchedPair>, s: Settings)
    ensures PropertiesCompared(ps, s) == SumPropertiesCompared(ps, s)
    decreases |ps|
  {
    if |ps| > 0 {
      ComparePairCompared(ps[0], s);
      PropertiesComparedSum(ps[1..], s);
    }
  }

  /** The truthy codes of the missing pairs. */
  function MissingCodes(ps: seq<MatchedPair>): set<string>
    decreases |ps|
  {
    if |ps| == 0 then {}
    else (if Truthy(PairCode(ps[0])) then {PairCode(ps[0]).value} else {}) + MissingCodes(ps[1..])
  }

  /** The truthy codes of the matched pairs that produced a conflict. */
  function ConflictingPairCodes(ps: seq<MatchedPair>, s: Settings): set<string>
    decreases |ps|
  {
    if |ps| == 0 then {}
    else (if ComparePair(ps[0], s).0 != [] && Truthy(PairCode(ps[0])) then {PairCode(ps[0]).value} else {})
         + ConflictingPairCodes(ps[1..], s)
  }

  function CountType(t: ConflictType, cs: seq<Conflict>): nat
  {
    Count((c: Conflict) => c.conflictType == t, cs)
  }

  datatype ComparisonResult = ComparisonResult(
    conflicts: seq<Conflict>,
    missingInBc3: nat,
    missingInIfc: nat,
    codeMismatches: nat,
    quantityMismatches: nat,
    unitMismatches: nat,
    propertyMismatches: nat,
    totalPropertiesCompared: nat,
    totalMatched: nat,
    totalWithConflicts: nat,
    errors: seq<string>)

  /** `Comparator.compare` under the given effective settings. */
  function Compare(mr: MatchResult, s: Settings): (r: ComparisonResult)
    ensures r.conflicts == MissingConflicts(mr.ifcOnly, MissingInBc3) + MissingConflicts(mr.bc3Only, MissingInIfc)
                           + PairsConflicts(mr.matched, s)
    ensures r.missingInBc3 == |mr.ifcOnly| && r.missingInIfc == |mr.bc3Only| && r.totalMatched == |mr.matched|
    ensures r.codeMismatches == CountType(CodeMismatch, r.conflicts)
    ensures r.quantityMismatches == CountType(QuantityMismatch, r.conflicts)
    ensures r.unitMismatches == CountType(UnitMismatch, r.conflicts)
    ensures r.propertyMismatches == CountType(PropertyMismatch, r.conflicts)
    ensures r.errors == []
    ensures r.totalPropertiesCompared == SumPropertiesCompared(mr.matched, s)
  {
    PropertiesComparedSum(mr.matched, s);
    var conflicts := MissingConflicts(mr.ifcOnly, MissingInBc3) + MissingConflicts(mr.bc3Only, MissingInIfc)
                     + PairsConflicts(mr.matched, s);
    var codes := MissingCodes(mr.ifcOnly) + MissingCodes(mr.bc3Only) + ConflictingPairCodes(mr.matched, s);
    ComparisonResult(
      conflicts, |mr.ifcOnly|, |mr.bc3Only|,
      CountType(CodeMismatch, conflicts), CountType(QuantityMismatch, conflicts),
      CountType(UnitMismatch, conflicts), CountType(PropertyMismatch, conflicts),
      PropertiesCompared(mr.matched, s), |mr.matched|, |codes|, [])
  }

  /**
    A comparator object: its tolerance and name switch persist between
    calls, and a phase configuration overwrites them.
   */
  datatype Comparator = Comparator(tolerance: real, compareNames: bool)

  const NewComparator: Comparator := Comparator(DefaultTolerance, DefaultCompareNames)

  /** One `compare` call: the comparator as it is afterwards, and the result. */
  function CompareWith(comp: Comparator, mr: MatchResult, config: Option<PhaseConfig>): (r: (Comparator, ComparisonResult))
    ensures config.None? ==> r.0 == comp
    ensures config.Some? ==> r.0 == Comparator(config.value.quantityTolerance, config.value.checkNames)
    ensures r.1 == Compare(mr, Effective(comp.tolerance, comp.compareNames, config))
  {
    var s := Effective(comp.tolerance, comp.compareNames, config);
    (Comparator(s.tolerance, s.compareNames), Compare(mr, s))
  }

  /** `get_conflicts_by_type`. */
  function ConflictsByType(r: ComparisonResult, t: ConflictType): (cs: seq<Conflict>)
    ensures forall c :: c in cs <==> c in r.conflicts && c.conflictType == t
    ensures IsSubseq(cs, r.conflicts) && |cs| == CountType(t, r.conflicts)
  {
    var keep := (c: Conflict) => c.conflictType == t;
    FilterMembers(keep, r.conflicts);
    FilterSubseq(keep, r.conflicts);
    CountFilter(keep, r.conflicts);
    Filter(keep, r.conflicts)
  }

  function CountSeverity(sev: Severity, cs: seq<Conflict>): nat
  {
    Count((c: Conflict) => c.severity == sev, cs)
  }

  function CountCode(code: string, cs: seq<Conflict>): nat
  {
    Count((c: Conflict) => c.code == Some(code), cs)
  }

  /** `get_conflicts_by_severity`. */
  function ConflictsBySeverity(r: ComparisonResult, sev: Severity): (cs: seq<Conflict>)
    ensures forall c :: c in cs <==> c in r.conflicts && c.severity == sev
    ensures IsSubseq(cs, r.conflicts) && |cs| == CountSeverity(sev, r.conflicts)
  {
    var keep := (c: Conflict) => c.severity == sev;
    FilterMembers(keep, r.conflicts);
    FilterSubseq(keep, r.conflicts);
    CountFilter(keep, r.conflicts);
    Filter(keep, r.conflicts)
  }

  /** `get_conflicts_for_code`. */
  function ConflictsForCode(r: ComparisonResult, code: string): (cs: seq<Conflict>)
    ensures forall c :: c in cs <==> c in r.conflicts && c.code == Some(code)
    ensures IsSubseq(cs, r.conflicts) && |cs| == CountCode(code, r.conflicts)
  {
    var keep := (c: Conflict) => c.code == Some(code);
    FilterMembers(keep, r.conflicts);
    FilterSubseq(keep, r.conflicts);
    CountFilter(keep, r.conflicts);
    Filter(keep, r.conflicts)
  }

  datatype ComparisonSummary = ComparisonSummary(
    totalConflicts: nat, errors: nat, warnings: nat,
    missingInBc3: nat, missingInIfc: nat, codeMismatches: nat, quantityMismatches: nat, unitMismatches: nat,
    propertyMismatches: nat, totalMatched: nat, totalWithConflicts: nat)

  /** `summary()`: error and warning counts by severity, the counters copied. */
  function Summary(r: ComparisonResult): (s: ComparisonSummary)
    ensures s.totalConflicts == |r.conflicts|
    ensures s.errors == |ConflictsBySeverity(r, Error)| && s.warnings == |ConflictsBySeverity(r, Warning)|
    ensures s.errors == CountSeverity(Error, r.conflicts) && s.warnings == CountSeverity(Warning, r.conflicts)
    ensures s.errors + s.warnings <= s.totalConflicts
  {
    SeverityCountsBound(r.conflicts);
    ComparisonSummary(
      |r.conflicts|, |ConflictsBySeverity(r, Error)|, |ConflictsBySeverity(r, Warning)|,
      r.missingInBc3, r.missingInIfc, r.codeMismatches, r.quantityMismatches, r.unitMismatches,
      r.propertyMismatches, r.totalMatched, r.totalWithConflicts)
  }

  /** Errors and warnings are disjoint, so together they number at most the conflicts. */
  lemma {:induction false} SeverityCountsBound(cs: seq<Conflict>)
    ensures |Filter((c: Conflict) => c.severity == Error, cs)| + |Filter((c: Conflict) => c.severity == Warning, cs)| <= |cs|
    decreases |cs|
  {
    if |cs| > 0 {
      SeverityCountsBound(cs[1..]);
    }
  }
}
