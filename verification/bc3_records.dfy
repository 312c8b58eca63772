/**
  Record readers against record writers: each BC3 record written from known
  fields (numbers in fixed-point notation, with a decimal point or a decimal
  comma) reads back as those fields.
 */
module Bc3Records {
  import opened Wrappers
  import opened Text
  import opened Numbers
  import opened Assoc
  import opened Bc3Parser
  import opened Bc3Properties

  /** A field as a BC3 writer emits it: no separator inside, nothing to strip around it. */
  predicate Field(s: string)
  {
    '|' !in s && '\\' !in s && (s == [] || (!IsSpace(s[0]) && !IsSpace(s[|s| - 1])))
  }

  /** The exact value of the fixed-point number `m / 10^k`. */
  function Decimal(m: int, k: nat): real
  {
    m as real / Pow10(k) as real
  }

  /** Reading a number rendering as a price, with or without a decimal comma. */
  lemma ParsePriceFixed(m: int, k: nat)
    ensures ParsePrice(FormatFixed(m, k)) == Decimal(m, k)
    ensures ParsePrice(ReplaceChar(FormatFixed(m, k), '.', ',')) == Decimal(m, k)
  {
    var s := FormatFixed(m, k);
    FormatFixedShape(m, k);
    NumberTextPlain(s);
    FormatFixedRoundTrip(m, k);
    StripUnpadded(s);
    ReplaceAbsent(s, ',', '.');
    var c := ReplaceChar(s, '.', ',');
    assert c[0] == s[0] && c[|c| - 1] == s[|s| - 1];
    StripUnpadded(c);
    ReplaceBack(s, '.', ',');
  }

  /** `~V` data: the second field, or the first when there is no non-empty second field. */
  lemma ParseVersionFields(fields: seq<string>)
    requires |fields| >= 1 && forall i :: 0 <= i < |fields| ==> '|' !in fields[i]
    ensures ParseVersion(Join(fields, "|")) == if |fields| >= 2 && fields[1] != "" then fields[1] else fields[0]
  {
    SplitJoin(fields, '|');
  }

  /** `~C` data as written: code, unit, description, price, then any further fields. */
  function ComponentData(code: string, unit: string, description: string, m: int, k: nat, rest: seq<string>): string
  {
    Join([code, unit, description, FormatFixed(m, k)] + rest, "|")
  }

  /** A component record reads back as a fresh element with the written fields. */
  lemma ParseComponentFields(code: string, unit: string, description: string, m: int, k: nat, rest: seq<string>)
    requires code != [] && Field(code) && code[|code| - 1] != '#'
    requires Field(unit) && Field(description)
    requires forall i :: 0 <= i < |rest| ==> '|' !in rest[i]
    ensures ParseComponent(ComponentData(code, unit, description, m, k, rest))
         == Some(NewElement(code, unit, description, Decimal(m, k)))
  {
    var price := FormatFixed(m, k);
    FormatFixedShape(m, k);
    NumberTextPlain(price);
    var parts := [code, unit, description, price] + rest;
    SplitJoin(parts, '|');
    assert Split(ComponentData(code, unit, description, m, k, rest), '|') == parts;
    assert RStripChar(code, '#') == code;
    StripUnpadded(code);
    StripUnpadded(unit);
    StripUnpadded(description);
    ParsePriceFixed(m, k);
  }

  /** The key/value pairs of `~X` tokens, as the reader takes them. */
  function Pairs(tokens: seq<string>): seq<(string, string)>
    decreases |tokens|
  {
    if |tokens| < 2 then [] else [(Strip(tokens[0]), Strip(tokens[1]))] + Pairs(tokens[2..])
  }

  /** A named field after the pairs: the last value given for its key, else what it was. */
  function NamedAfter(ps: seq<(string, string)>, key: string, before: Option<string>): Option<string>
  {
    match LastGet(ps, key)
    case Some(v) => Some(v)
    case None => before
  }

  /** A property after the pairs: the parsed last value given for its key, else what it was. */
  function PropertyAfter(ps: seq<(string, string)>, key: string, before: Option<Value>): Option<Value>
  {
    match LastGet(ps, key)
    case Some(v) => Some(ParsePropertyValue(v))
    case None => before
  }

  /** The named field an `~X` key sets. */
  function NamedField(e: Bc3Element, key: string): Option<string>
  {
    if key == "Tipo IfcGUID" then e.typeIfcGuid
    else if key == "IfcGUID" then e.ifcGuid
    else if key == "Nombre de familia" then e.familyName
    else e.typeName
  }

  lemma LastGetFront<V>(p: (string, V), rest: seq<(string, V)>, key: string)
    ensures LastGet([p] + rest, key)
         == if LastGet(rest, key).Some? then LastGet(rest, key) else if p.0 == key then Some(p.1) else None
  {
    assert ([p] + rest)[1..] == rest;
  }

  lemma PairsFront(tokens: seq<string>)
    requires |tokens| >= 2
    ensures Pairs(tokens) == [(Strip(tokens[0]), Strip(tokens[1]))] + Pairs(tokens[2..])
  {
  }

  lemma SetPropertyNamed(e: Bc3Element, k: string, v: string, key: string)
    requires key in SpecialKeys
    ensures NamedField(SetProperty(e, k, v), key) == if k == key then Some(v) else NamedField(e, key)
  {
  }

  lemma SetPropertyKey(e: Bc3Element, k: string, v: string, key: string)
    requires key != "" && key !in SpecialKeys
    ensures Get(SetProperty(e, k, v).properties, key)
         == if k == key then Some(ParsePropertyValue(v)) else Get(e.properties, key)
  {
    if k == "" || k == "Tipo IfcGUID" || k == "IfcGUID" || k == "Nombre de familia" || k == "Nombre de tipo" {
      assert SetProperty(e, k, v).properties == e.properties;
      assert k != key;
    } else {
      assert SetProperty(e, k, v).properties == Put(e.properties, k, ParsePropertyValue(v));
    }
  }

  /** A named field takes the last value given for its key. */
  lemma {:induction false} ApplyPropertiesNamed(e: Bc3Element, tokens: seq<string>, key: string)
    requires key in SpecialKeys
    ensures NamedField(ApplyProperties(e, tokens), key) == NamedAfter(Pairs(tokens), key, NamedField(e, key))
    decreases |tokens|
  {
    if |tokens| >= 2 {
      var k0, v0 := Strip(tokens[0]), Strip(tokens[1]);
      var e1, rest := SetProperty(e, k0, v0), tokens[2..];
      assert ApplyProperties(e, tokens) == ApplyProperties(e1, rest);
      ApplyPropertiesNamed(e1, rest, key);
      PairsFront(tokens);
      LastGetFront((k0, v0), Pairs(rest), key);
      SetPropertyNamed(e, k0, v0, key);
    }
  }

  /** An ordinary property key takes the parsed last value given for it. */
  lemma {:induction false} ApplyPropertiesKey(e: Bc3Element, tokens: seq<string>, key: string)
    requires key != "" && key !in SpecialKeys
    ensures Get(ApplyProperties(e, tokens).properties, key)
         == PropertyAfter(Pairs(tokens), key, Get(e.properties, key))
    decreases |tokens|
  {
    if |tokens| >= 2 {
      var k0, v0 := Strip(tokens[0]), Strip(tokens[1]);
      var e1, rest := SetProperty(e, k0, v0), tokens[2..];
      assert ApplyProperties(e, tokens) == ApplyProperties(e1, rest);
      ApplyPropertiesKey(e1, rest, key);
      PairsFront(tokens);
      LastGetFront((k0, v0), Pairs(rest), key);
      SetPropertyKey(e, k0, v0, key);
    }
  }

  /** `~X` pairs: named fields and properties take the last value given for their key. */
  lemma ApplyPropertiesSpec(e: Bc3Element, tokens: seq<string>)
    ensures var r := ApplyProperties(e, tokens);
      var ps := Pairs(tokens);
      r.typeIfcGuid == NamedAfter(ps, "Tipo IfcGUID", e.typeIfcGuid)
      && r.ifcGuid == NamedAfter(ps, "IfcGUID", e.ifcGuid)
      && r.familyName == NamedAfter(ps, "Nombre de familia", e.familyName)
      && r.typeName == NamedAfter(ps, "Nombre de tipo", e.typeName)
      && forall key :: key != "" && key !in SpecialKeys ==>
           Get(r.properties, key) == PropertyAfter(ps, key, Get(e.properties, key))
  {
    ApplyPropertiesNamed(e, tokens, "Tipo IfcGUID");
    ApplyPropertiesNamed(e, tokens, "IfcGUID");
    ApplyPropertiesNamed(e, tokens, "Nombre de familia");
    ApplyPropertiesNamed(e, tokens, "Nombre de tipo");
    forall key | key != "" && key !in SpecialKeys
      ensures Get(ApplyProperties(e, tokens).properties, key)
           == PropertyAfter(Pairs(tokens), key, Get(e.properties, key))
    {
      ApplyPropertiesKey(e, tokens, key);
    }
  }

  /** The tokens a writer emits for key/value pairs: each pair, then the empty token after the last backslash. */
  function PairTokens(ps: seq<(string, string)>): seq<string>
  {
    if |ps| == 0 then [""] else [ps[0].0, ps[0].1] + PairTokens(ps[1..])
  }

  /** A list of fields. */
  predicate Fields(ss: seq<string>)
  {
    forall i :: 0 <= i < |ss| ==> Field(ss[i])
  }

  /** A list of key/value pairs of fields. */
  predicate FieldPairs(ps: seq<(string, string)>)
  {
    |ps| == 0 || (Field(ps[0].0) && Field(ps[0].1) && FieldPairs(ps[1..]))
  }

  lemma FieldStrip(s: string)
    requires Field(s)
    ensures Strip(s) == s
  {
    StripUnpadded(s);
  }

  lemma PairsCons(t: seq<string>)
    requires |t| >= 2 && Field(t[0]) && Field(t[1])
    ensures Pairs(t) == [(t[0], t[1])] + Pairs(t[2..])
  {
    FieldStrip(t[0]);
    FieldStrip(t[1]);
  }

  lemma {:induction false} PairsRoundTrip(ps: seq<(string, string)>)
    requires FieldPairs(ps)
    ensures Pairs(PairTokens(ps)) == ps
    ensures Fields(PairTokens(ps))
  {
    if |ps| > 0 {
      var t := PairTokens(ps);
      assert t[2..] == PairTokens(ps[1..]);
      PairsCons(t);
      PairsRoundTrip(ps[1..]);
      forall i | 2 <= i < |t| ensures Field(t[i]) {
        assert t[i] == t[2..][i - 2];
      }
    }
  }

  /** `~X` data as written: code, then the pairs each followed by a backslash. */
  function ExtendedData(code: string, ps: seq<(string, string)>): string
  {
    code + "|" + Join(PairTokens(ps), "\\") + "|"
  }

  /**
    An extended record for an element already read sets its named fields and
    properties to the last value written for each key; one for a code not yet
    read changes nothing.
   */
  lemma ParseExtendedFields(code: string, ps: seq<(string, string)>, es: seq<(string, Bc3Element)>)
    requires Field(code)
    requires FieldPairs(ps)
    ensures code !in Keys(es) ==> ParseExtended(ExtendedData(code, ps), es) == es
    ensures code in Keys(es) ==>
      var r := Get(ParseExtended(ExtendedData(code, ps), es), code).value;
      var e := Get(es, code).value;
      Keys(ParseExtended(ExtendedData(code, ps), es)) == Keys(es)
      && r.typeIfcGuid == NamedAfter(ps, "Tipo IfcGUID", e.typeIfcGuid)
      && r.ifcGuid == NamedAfter(ps, "IfcGUID", e.ifcGuid)
      && r.familyName == NamedAfter(ps, "Nombre de familia", e.familyName)
      && r.typeName == NamedAfter(ps, "Nombre de tipo", e.typeName)
      && forall key :: key != "" && key !in SpecialKeys ==>
           Get(r.properties, key) == PropertyAfter(ps, key, Get(e.properties, key))
  {
    var tokens := PairTokens(ps);
    PairsRoundTrip(ps);
    var body := Join(tokens, "\\");
    assert '|' !in body by {
      JoinAvoids(tokens);
    }
    var data := ExtendedData(code, ps);
    JoinThree(code, body);
    assert data == Join([code, body, ""], "|");
    SplitJoin([code, body, ""], '|');
    SplitJoin(tokens, '\\');
    StripUnpadded(code);
    if code in Keys(es) {
      ApplyPropertiesSpec(Get(es, code).value, tokens);
    }
  }

  /** Joining fields with a backslash gives text without a '|'. */
  lemma {:induction false} JoinAvoids(parts: seq<string>)
    requires Fields(parts)
    ensures '|' !in Join(parts, "\\")
  {
    if |parts| > 1 {
      JoinAvoids(parts[1..]);
      assert Join(parts, "\\") == parts[0] + "\\" + Join(parts[1..], "\\");
    }
  }

  /** The tokens a writer emits for children `(code, m, k)`: code, factor 1, quantity `m / 10^k`, then the empty last token. */
  function ChildTokens(cs: seq<(string, int, nat)>): seq<string>
  {
    if |cs| == 0 then [""] else [cs[0].0, "1", FormatFixed(cs[0].1, cs[0].2)] + ChildTokens(cs[1..])
  }

  function ChildEdges(cs: seq<(string, int, nat)>): (es: seq<(string, real)>)
    ensures |es| == |cs|
    ensures forall i :: 0 <= i < |cs| ==> es[i] == (cs[i].0, Decimal(cs[i].1, cs[i].2))
  {
    seq(|cs|, i requires 0 <= i < |cs| => (cs[i].0, Decimal(cs[i].1, cs[i].2)))
  }

  lemma ChildQuantityFixed(m: int, k: nat)
    ensures ChildQuantity(FormatFixed(m, k)) == Decimal(m, k)
    ensures Field(FormatFixed(m, k))
  {
    var s := FormatFixed(m, k);
    FormatFixedShape(m, k);
    NumberTextPlain(s);
    StripUnpadded(s);
    ReplaceAbsent(s, ',', '.');
    FormatFixedRoundTrip(m, k);
  }

  /** Children whose codes are usable fields. */
  predicate FieldCodes(cs: seq<(string, int, nat)>)
  {
    |cs| == 0 || (cs[0].0 != [] && Field(cs[0].0) && FieldCodes(cs[1..]))
  }

  lemma ReadChildrenCons(t: seq<string>)
    requires |t| >= 3 && t[0] != [] && Field(t[0])
    ensures ReadChildren(t) == [(t[0], ChildQuantity(t[2]))] + ReadChildren(t[3..])
  {
    FieldStrip(t[0]);
  }

  lemma {:induction false} ChildTokensFields(cs: seq<(string, int, nat)>)
    requires FieldCodes(cs)
    ensures Fields(ChildTokens(cs))
  {
    if |cs| > 0 {
      var t := ChildTokens(cs);
      ChildTokensFields(cs[1..]);
      ChildQuantityFixed(cs[0].1, cs[0].2);
      forall i | 0 <= i < |t| ensures Field(t[i]) {
        if i >= 3 {
          assert t[i] == ChildTokens(cs[1..])[i - 3];
        }
      }
    }
  }

  /** Reading written child triples gives the edges. */
  lemma {:induction false} ReadChildrenRoundTrip(cs: seq<(string, int, nat)>)
    requires FieldCodes(cs)
    ensures ReadChildren(ChildTokens(cs)) == ChildEdges(cs)
  {
    var t := ChildTokens(cs);
    if |cs| == 0 {
      assert ReadChildren(t) == ReadChildren([]);
    } else {
      assert ReadChildren(t) == [(cs[0].0, Decimal(cs[0].1, cs[0].2))] + ReadChildren(ChildTokens(cs[1..])) by {
        assert t[3..] == ChildTokens(cs[1..]);
        ReadChildrenCons(t);
        ChildQuantityFixed(cs[0].1, cs[0].2);
      }
      ReadChildrenRoundTrip(cs[1..]);
      assert ChildEdges(cs) == [(cs[0].0, Decimal(cs[0].1, cs[0].2))] + ChildEdges(cs[1..]);
    }
  }

  /** The data of a record with three fields, the last one empty. */
  lemma JoinThree(a: string, b: string)
    ensures Join([a, b, ""], "|") == a + "|" + b + "|"
  {
    assert Join([a, b, ""], "|") == a + "|" + Join([b, ""], "|");
    assert Join([b, ""], "|") == b + "|" + Join([""], "|");
  }

  /** `~D` data as written, `parent#|children|`: the parent with its '#' marker, then the child triples. */
  function DecompositionData(parent: string, cs: seq<(string, int, nat)>): string
  {
    Join([parent + "#", Join(ChildTokens(cs), "\\"), ""], "|")
  }

  /** The written child triples hold no field separator. */
  lemma ChildBodyField(cs: seq<(string, int, nat)>)
    requires FieldCodes(cs)
    ensures '|' !in Join(ChildTokens(cs), "\\")
  {
    ChildTokensFields(cs);
    JoinAvoids(ChildTokens(cs));
  }

  /** The fields of written `~D` data: the marked parent, the child tokens, and the empty tail. */
  lemma DecompositionSplit(parent: string, cs: seq<(string, int, nat)>)
    requires Field(parent) && FieldCodes(cs)
    ensures Split(DecompositionData(parent, cs), '|') == [parent + "#", Join(ChildTokens(cs), "\\"), ""]
  {
    var parts := [parent + "#", Join(ChildTokens(cs), "\\"), ""];
    ChildBodyField(cs);
    assert forall i :: 0 <= i < |parts| ==> '|' !in parts[i];
    SplitJoin(parts, '|');
  }

  /** A written parent with its '#' marker cleans back to the parent. */
  lemma CleanMarkedParent(parent: string)
    requires parent != [] && Field(parent) && parent[|parent| - 1] != '#'
    ensures CleanCode(parent + "#") == parent
  {
    assert RStripChar(parent + "#", '#') == parent;
    StripUnpadded(parent);
  }

  /** A decomposition record records exactly the written edges under the parent. */
  lemma ParseDecompositionFields(parent: string, cs: seq<(string, int, nat)>, h: seq<(string, seq<(string, real)>)>)
    requires parent != [] && Field(parent) && parent[|parent| - 1] != '#'
    requires cs != [] && FieldCodes(cs)
    ensures ParseDecomposition(DecompositionData(parent, cs), h) == Put(h, parent, ChildEdges(cs))
  {
    var tokens := ChildTokens(cs);
    DecompositionSplit(parent, cs);
    CleanMarkedParent(parent);
    ChildTokensFields(cs);
    SplitJoin(tokens, '\\');
    ReadChildrenRoundTrip(cs);
  }

  /** Stored property values: integer text reads as an integer, fixed-point text (point or comma) as its exact value. */
  lemma ParsePropertyValueNumbers(m: int, k: nat)
    ensures ParsePropertyValue(IntToString(m)) == IntV(m)
    ensures k >= 1 ==> ParsePropertyValue(FormatFixed(m, k)) == RealV(Decimal(m, k))
    ensures k >= 1 ==> ParsePropertyValue(ReplaceChar(FormatFixed(m, k), '.', ',')) == RealV(Decimal(m, k))
  {
    var n := IntToString(m);
    IntToStringShape(m);
    NumberTextPlain(n);
    ParseIntRoundTrip(m);
    if k >= 1 {
      var s := FormatFixed(m, k);
      FormatFixedShape(m, k);
      NumberTextPlain(s);
      FormatFixedRoundTrip(m, k);
      ReplaceAbsent(s, ',', '.');
      var c := ReplaceChar(s, '.', ',');
      var i :| 0 <= i < |s| && s[i] == '.';
      assert c[i] == ',';
      ReplaceBack(s, '.', ',');
    }
  }
}
