/**
  The FIEBDC-3 (".bc3") budget parser: one pass over the lines of the file,
  in file order, reading `~V` (version), `~C` (component), `~X` (extended
  properties) and `~D` (decomposition) records, then linking the collected
  decomposition edges into the elements.
 */
module Bc3Parser {
  import opened Wrappers
  import opened Text
  import opened Numbers
  import opened Assoc
  import opened Lists

  /** One budget element (`BC3Element`). */
  datatype Bc3Element = Bc3Element(
    code: string,
    unit: string,
    description: string,
    price: real,
    ifcGuid: Option<string>,
    typeIfcGuid: Option<string>,
    familyName: Option<string>,
    typeName: Option<string>,
    properties: seq<(string, Value)>,
    parentCode: Option<string>,
    children: seq<(string, real)>,
    quantity: real)

  /** An element as a `~C` record creates it: every optional field at its default. */
  function NewElement(code: string, unit: string, description: string, price: real): Bc3Element
  {
    Bc3Element(code, unit, description, price, None, None, None, None, [], None, [], 0.0)
  }

  /** The result of a parse (`BC3ParseResult`): code -> element, parent code -> (child, quantity) edges. */
  datatype Bc3ParseResult = Bc3ParseResult(
    elements: seq<(string, Bc3Element)>,
    hierarchy: seq<(string, seq<(string, real)>)>,
    version: string,
    errors: seq<string>)

  /** The tag letter and the text after `~L|` of a record line. */
  datatype Record = Record(kind: char, data: string)

  /** `^~([A-Z])\|(.*)$` on a stripped line (`.` does not match a newline). */
  function MatchRecord(line: string): (r: Option<Record>)
    ensures r.Some? ==> 'A' <= r.value.kind <= 'Z' && line == ['~', r.value.kind, '|'] + r.value.data
  {
    if |line| >= 3 && line[0] == '~' && 'A' <= line[1] <= 'Z' && line[2] == '|' && '\n' !in line[3..]
    then
      assert line == ['~', line[1], '|'] + line[3..];
      Some(Record(line[1], line[3..]))
    else None
  }

  /** Every line of the record shape is recognised, with its letter and the rest of the line. */
  lemma MatchRecordOf(kind: char, data: string)
    requires 'A' <= kind <= 'Z' && '\n' !in data
    ensures MatchRecord(['~', kind, '|'] + data) == Some(Record(kind, data))
  {
    var line := ['~', kind, '|'] + data;
    assert line[3..] == data;
  }

  /** `~V`: the second field, or the first when the second is empty or missing. */
  function ParseVersion(data: string): string
  {
    var parts := Split(data, '|');
    if |parts| >= 2 then (if parts[1] != "" then parts[1] else parts[0]) else parts[0]
  }

  /** A usable code: non-empty, with no surrounding whitespace. */
  predicate IsCode(s: string)
  {
    s != [] && !IsSpace(s[0]) && !IsSpace(s[|s| - 1])
  }

  /** A record code: trailing '#' markers removed, then surrounding whitespace. */
  function CleanCode(field: string): (code: string)
    ensures code == [] || IsCode(code)
  {
    Strip(RStripChar(field, '#'))
  }

  /** The price field: decimal comma read as a point; empty or unreadable gives 0.0. */
  function ParsePrice(field: string): (r: real)
    ensures Strip(field) == "" ==> r == 0.0
    ensures ParseDecimal(ReplaceChar(Strip(field), ',', '.')).None? ==> r == 0.0
    ensures ParseDecimal(ReplaceChar(Strip(field), ',', '.')).Some? ==> r == ParseDecimal(ReplaceChar(Strip(field), ',', '.')).value
  {
    var t := Strip(field);
    if t == "" then 0.0 else ParseDecimal(ReplaceChar(t, ',', '.')).GetOr(0.0)
  }

  /** `~C|code|unit|description|price|...`; no element without 4 fields and a code. */
  function ParseComponent(data: string): (r: Option<Bc3Element>)
    ensures r.Some? ==> IsCode(r.value.code)
    ensures r.Some? ==> r.value.properties == [] && r.value.children == [] && r.value.parentCode == None
    ensures r.Some? ==> r.value.typeIfcGuid == None && r.value.familyName == None && r.value.typeName == None
    ensures var parts := Split(data, '|');
      r.None? <==> |parts| < 4 || CleanCode(parts[0]) == ""
    ensures var parts := Split(data, '|');
      r.Some? ==> r.value.code == CleanCode(parts[0]) && r.value.unit == Strip(parts[1])
                  && r.value.description == Strip(parts[2]) && r.value.price == ParsePrice(parts[3])
  {
    var parts := Split(data, '|');
    if |parts| < 4 then None
    else
      var code := CleanCode(parts[0]);
      if code == "" then None
      else Some(NewElement(code, Strip(parts[1]), Strip(parts[2]), ParsePrice(parts[3])))
  }

  /** The keys an `~X` record stores in named fields instead of `properties`. */
  const SpecialKeys: seq<string> := ["Tipo IfcGUID", "IfcGUID", "Nombre de familia", "Nombre de tipo"]

  /** Coercion of a stored property value: empty, then decimal, then integer, else the text. */
  function ParsePropertyValue(value: string): (r: Value)
    ensures r == Null <==> value == ""
    ensures r.IntV? ==> '.' !in value && ',' !in value && ParseInt(value) == Some(r.i)
    ensures r.RealV? ==> ('.' in value || ',' in value) && ParseDecimal(ReplaceChar(value, ',', '.')) == Some(r.r)
    ensures r.StrV? ==> r.s == value && value != ""
    ensures r.StrV? && ('.' in value || ',' in value) ==> ParseDecimal(ReplaceChar(value, ',', '.')).None?
    ensures r.StrV? && '.' !in value && ',' !in value ==> ParseInt(value).None?
  {
    if value == "" then Null
    else if '.' in value || ',' in value then
      match ParseDecimal(ReplaceChar(value, ',', '.'))
      case Some(x) => RealV(x)
      case None => StrV(value)
    else
      match ParseInt(value)
      case Some(n) => IntV(n)
      case None => StrV(value)
  }

  /** One key/value pair of an `~X` record applied to its element. */
  function SetProperty(e: Bc3Element, key: string, value: string): (r: Bc3Element)
    ensures r.code == e.code && r.unit == e.unit && r.description == e.description
    ensures r.children == e.children && r.parentCode == e.parentCode && r.quantity == e.quantity
  {
    if key == "" then e
    else if key == "Tipo IfcGUID" then e.(typeIfcGuid := Some(value))
    else if key == "IfcGUID" then e.(ifcGuid := Some(value))
    else if key == "Nombre de familia" then e.(familyName := Some(value))
    else if key == "Nombre de tipo" then e.(typeName := Some(value))
    else e.(properties := Put(e.properties, key, ParsePropertyValue(value)))
  }

  /** The tokens `k0\v0\k1\v1\...` taken in pairs; a trailing unpaired token is ignored. */
  function ApplyProperties(e: Bc3Element, tokens: seq<string>): (r: Bc3Element)
    ensures r.code == e.code && r.unit == e.unit && r.description == e.description
    ensures r.children == e.children && r.parentCode == e.parentCode && r.quantity == e.quantity
    decreases |tokens|
  {
    if |tokens| < 2 then e
    else ApplyProperties(SetProperty(e, Strip(tokens[0]), Strip(tokens[1])), tokens[2..])
  }

  /** `~X|code|k\v\...|`: attaches properties to an element already read. */
  function ParseExtended(data: string, elements: seq<(string, Bc3Element)>): seq<(string, Bc3Element)>
  {
    var parts := Split(data, '|');
    if |parts| < 2 then elements
    else
      var code := Strip(parts[0]);
      match Get(elements, code)
      case None => elements
      case Some(e) => Put(elements, code, ApplyProperties(e, Split(parts[1], '\\')))
  }

  /** The quantity token of a child; missing or unreadable gives 1.0. */
  function ChildQuantity(token: string): (r: real)
    ensures ParseDecimal(ReplaceChar(Strip(token), ',', '.')).None? ==> r == 1.0
    ensures ParseDecimal(ReplaceChar(Strip(token), ',', '.')).Some? ==> r == ParseDecimal(ReplaceChar(Strip(token), ',', '.')).value
  {
    var q := ReplaceChar(Strip(token), ',', '.');
    if q == "" then 1.0 else ParseDecimal(q).GetOr(1.0)
  }

  /** The child triples `code\factor\quantity\...`; an empty code token is skipped alone. */
  function ReadChildren(tokens: seq<string>): (cs: seq<(string, real)>)
    ensures forall i :: 0 <= i < |cs| ==> IsCode(cs[i].0)
    ensures |cs| <= |tokens|
    decreases |tokens|
  {
    if |tokens| == 0 then []
    else
      var c := Strip(tokens[0]);
      if c == "" then ReadChildren(tokens[1..])
      else
        var q := if 2 < |tokens| then ChildQuantity(tokens[2]) else 1.0;
        var rest := ReadChildren(if |tokens| >= 3 then tokens[3..] else []);
        [(c, q)] + rest
  }

  /** `~D|parent#|c\f\q\...|`: records the parent's children when there is at least one. */
  function ParseDecomposition(data: string, hierarchy: seq<(string, seq<(string, real)>)>): seq<(string, seq<(string, real)>)>
  {
    var parts := Split(data, '|');
    if |parts| < 2 then hierarchy
    else
      var parent := CleanCode(parts[0]);
      if parent == "" then hierarchy
      else
        var children := ReadChildren(Split(parts[1], '\\'));
        if |children| == 0 then hierarchy else Put(hierarchy, parent, children)
  }

  /** What the parser has collected so far. */
  datatype ParseState = ParseState(
    elements: seq<(string, Bc3Element)>,
    hierarchy: seq<(string, seq<(string, real)>)>,
    version: string)

  const Start: ParseState := ParseState([], [], "")

  /** One recognised record. */
  function ApplyRecord(st: ParseState, rec: Record): ParseState
  {
    if rec.kind == 'V' then st.(version := ParseVersion(rec.data))
    else if rec.kind == 'C' then
      match ParseComponent(rec.data)
      case Some(e) => st.(elements := Put(st.elements, e.code, e))
      case None => st
    else if rec.kind == 'X' then st.(elements := ParseExtended(rec.data, st.elements))
    else if rec.kind == 'D' then st.(hierarchy := ParseDecomposition(rec.data, st.hierarchy))
    else st
  }

  /** One line of the file: stripped, skipped when blank or not a record. */
  function Step(st: ParseState, line: string): ParseState
  {
    var l := Strip(line);
    if l == "" then st
    else
      match MatchRecord(l)
      case None => st
      case Some(rec) => ApplyRecord(st, rec)
  }

  /** The lines, in file order. */
  function Run(st: ParseState, lines: seq<string>): ParseState
    decreases |lines|
  {
    if |lines| == 0 then st else Run(Step(st, lines[0]), lines[1..])
  }

  /** One edge `(c, q)` of `p`: append it to `p`'s children and, when `c` is known, make `p` its parent. */
  function LinkEdge(es: seq<(string, Bc3Element)>, p: string, edge: (string, real)): (r: seq<(string, Bc3Element)>)
    requires p in Keys(es)
    ensures Keys(r) == Keys(es)
  {
    SetParent(AppendChild(es, p, edge), p, edge)
  }

  /** `elements[p].children.append(edge)`. */
  function AppendChild(es: seq<(string, Bc3Element)>, p: string, edge: (string, real)): (r: seq<(string, Bc3Element)>)
    requires p in Keys(es)
    ensures Keys(r) == Keys(es)
  {
    var pe := Get(es, p).value;
    Put(es, p, pe.(children := pe.children + [edge]))
  }

  /** The child's parent and quantity, when the child is an element. */
  function SetParent(es: seq<(string, Bc3Element)>, p: string, edge: (string, real)): (r: seq<(string, Bc3Element)>)
    ensures Keys(r) == Keys(es)
  {
    match Get(es, edge.0)
    case Some(ce) => Put(es, edge.0, ce.(parentCode := Some(p), quantity := edge.1))
    case None => es
  }

  /** Every edge of `p`, in order. */
  function LinkChildren(es: seq<(string, Bc3Element)>, p: string, cs: seq<(string, real)>): (r: seq<(string, Bc3Element)>)
    requires p in Keys(es)
    ensures Keys(r) == Keys(es)
    decreases |cs|
  {
    if |cs| == 0 then es else LinkChildren(LinkEdge(es, p, cs[0]), p, cs[1..])
  }

  /** `_link_hierarchy`: the hierarchy entries in order; parents that are not elements are skipped. */
  function LinkHierarchy(es: seq<(string, Bc3Element)>, h: seq<(string, seq<(string, real)>)>): (r: seq<(string, Bc3Element)>)
    ensures Keys(r) == Keys(es)
    decreases |h|
  {
    if |h| == 0 then es
    else
      var es1 := if h[0].0 in Keys(es) then LinkChildren(es, h[0].0, h[0].1) else es;
      LinkHierarchy(es1, h[1..])
  }

  /** `BC3Parser.parse` on the lines of the decoded file. */
  function Parse(lines: seq<string>): Bc3ParseResult
  {
    var st := Run(Start, lines);
    Bc3ParseResult(LinkHierarchy(st.elements, st.hierarchy), st.hierarchy, st.version, [])
  }

  /** The file content split at line feeds, as `content.split('\n')`. */
  function ParseText(content: string): Bc3ParseResult
  {
    Parse(Split(content, '\n'))
  }

  /** An entry whose element carries a non-empty type GUID. */
  predicate HasTypeGuid(entry: (string, Bc3Element))
  {
    Truthy(entry.1.typeIfcGuid)
  }

  /**
    `get_types_with_guid`: the elements carrying a non-empty type GUID, in
    element order, each once; a dict comprehension keeps the source's keys
    unique.
   */
  function GetTypesWithGuid(r: Bc3ParseResult): (g: seq<(string, Bc3Element)>)
    ensures forall i :: 0 <= i < |g| ==> Truthy(g[i].1.typeIfcGuid) && g[i] in r.elements
    ensures forall i :: 0 <= i < |r.elements| && Truthy(r.elements[i].1.typeIfcGuid) ==> r.elements[i] in g
    ensures IsSubseq(g, r.elements) && |g| == Count(HasTypeGuid, r.elements)
    ensures UniqueKeys(r.elements) ==> UniqueKeys(g)
  {
    FilterGuidUnique(r.elements);
    FilterGuid(r.elements)
  }

  function FilterGuid(es: seq<(string, Bc3Element)>): (g: seq<(string, Bc3Element)>)
    ensures forall i :: 0 <= i < |g| ==> Truthy(g[i].1.typeIfcGuid) && g[i] in es
    ensures forall i :: 0 <= i < |es| && Truthy(es[i].1.typeIfcGuid) ==> es[i] in g
    ensures g == Filter(HasTypeGuid, es)
    ensures IsSubseq(g, es) && |g| == Count(HasTypeGuid, es)
  {
    FilterSubseq(HasTypeGuid, es);
    CountFilter(HasTypeGuid, es);
    if |es| == 0 then []
    else
      var rest := FilterGuid(es[1..]);
      assert forall i :: 1 <= i < |es| ==> es[i] == es[1..][i - 1];
      (if Truthy(es[0].1.typeIfcGuid) then [es[0]] else []) + rest
  }

  /** Filtering keeps the keys unique. */
  lemma {:induction false} FilterGuidUnique(es: seq<(string, Bc3Element)>)
    ensures UniqueKeys(es) ==> UniqueKeys(FilterGuid(es))
    decreases |es|
  {
    if |es| > 0 && UniqueKeys(es) {
      var rest := FilterGuid(es[1..]);
      UniqueKeysTail(es);
      FilterGuidUnique(es[1..]);
      if HasTypeGuid(es[0]) {
        forall k | 0 <= k < |rest|
          ensures rest[k].0 != es[0].0
        {
          var m :| 0 <= m < |es[1..]| && es[1..][m] == rest[k];
          assert es[m + 1] == rest[k];
        }
        UniqueKeysCons(es[0], rest);
        assert FilterGuid(es) == [es[0]] + rest;
      } else {
        assert FilterGuid(es) == rest;
      }
    }
  }
}
