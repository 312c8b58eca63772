/**
  The older code/unit/quantity checker: a two-pass reading of a budget's
  `~C` (component) and `~M` (measurement) lines, and the classification of
  codes into red rows (present on both sides but with a different unit or
  quantity) and yellow rows (present on one side only).
 */
module Fase1 {
  import opened Wrappers
  import opened Text
  import opened Numbers
  import opened Assoc
  import opened Lists
  import opened Sorting

  /** One budget entry of the older checker: description, unit and summed quantity. */
  datatype BudgetItem = BudgetItem(desc: string, unit: string, qty: real)

  const NoDescription: string := "Sense descripció"

  // ---------------------------------------------------------------------
  // First pass: components
  // ---------------------------------------------------------------------

  /**
    A component line of the first pass, read from the stripped line: at
    least three `|`-fields; the code is field 1 without backslashes,
    stripped; the description defaults when field 3 is missing.
   */
  function ComponentLine(line: string): (r: Option<(string, BudgetItem)>)
  {
    var l := Strip(line);
    if StartsWith(l, "~C|") then
      var parts := Split(l, '|');
      if |parts| > 2 then
        var code := Strip(RemoveChar(parts[1], '\\'));
        StripInside(RemoveChar(parts[1], '\\'));
        Some((code, BudgetItem(if |parts| > 3 then Strip(parts[3]) else NoDescription, Strip(parts[2]), 0.0)))
      else None
    else None
  }

  /**
    Which lines are component lines: a stripped `~C|` line of at least three
    fields; its code is field 1 without backslashes, stripped, its unit is
    field 2 stripped, its description field 3 stripped when present, and its
    quantity starts at zero.
   */
  lemma ComponentLineShape(line: string)
    ensures ComponentLine(line).Some? <==> StartsWith(Strip(line), "~C|") && |Split(Strip(line), '|')| > 2
    ensures ComponentLine(line).Some? ==> '\\' !in ComponentLine(line).value.0 && ComponentLine(line).value.1.qty == 0.0
    ensures ComponentLine(line).Some? && |Split(Strip(line), '|')| == 3 ==> ComponentLine(line).value.1.desc == NoDescription
    ensures var parts := Split(Strip(line), '|');
      ComponentLine(line).Some? ==>
        ComponentLine(line).value.0 == Strip(RemoveChar(parts[1], '\\'))
        && ComponentLine(line).value.1.unit == Strip(parts[2])
        && (|parts| > 3 ==> ComponentLine(line).value.1.desc == Strip(parts[3]))
  {
    var l := Strip(line);
    if StartsWith(l, "~C|") {
      var parts := Split(l, '|');
      if |parts| > 2 {
        var raw := RemoveChar(parts[1], '\\');
        StripInside(raw);
        assert ComponentLine(line).value.0 == Strip(raw);
      }
    }
  }

  /** A component line as a budget writer emits it: `~C|code|unit|description`. */
  function ComponentText(code: string, unit: string, desc: string): string
  {
    Join(["~C", code, unit, desc], "|")
  }

  /** A written component line is already stripped, starts with `~C|`, and splits back into its four fields. */
  lemma ComponentTextShape(code: string, unit: string, desc: string)
    requires '|' !in code && '|' !in unit && '|' !in desc
    requires Strip(desc) == desc
    ensures var l := ComponentText(code, unit, desc);
      Strip(l) == l && StartsWith(l, "~C|") && Split(l, '|') == ["~C", code, unit, desc]
  {
    var parts := ["~C", code, unit, desc];
    var l := ComponentText(code, unit, desc);
    assert Join(parts[2..], "|") == unit + "|" + desc by {
      assert parts[2..][1..] == [desc];
    }
    assert Join(parts[1..], "|") == code + "|" + Join(parts[2..], "|") by {
      assert parts[1..][1..] == parts[2..];
    }
    assert l == "~C|" + (code + "|" + (unit + "|" + desc));
    assert l[..3] == "~C|";
    assert l[|l| - 1] == if desc == [] then '|' else desc[|desc| - 1];
    StripUnpadded(l);
    SplitJoin(parts, '|');
  }

  /** A written component line reads back as its code, unit and description, with no quantity yet. */
  lemma ComponentLineRoundTrip(code: string, unit: string, desc: string)
    requires '|' !in code && '|' !in unit && '|' !in desc && '\\' !in code
    requires Strip(code) == code && Strip(unit) == unit && Strip(desc) == desc
    ensures ComponentLine(ComponentText(code, unit, desc)) == Some((code, BudgetItem(desc, unit, 0.0)))
  {
    ComponentTextShape(code, unit, desc);
  }

  /** Whether `line` is a component line for `code`. */
  predicate ComponentFor(line: string, code: string)
  {
    ComponentLine(line).Some? && ComponentLine(line).value.0 == code
  }

  /** What each line of the first pass reads. */
  function Components(lines: seq<string>): (cs: seq<Option<(string, BudgetItem)>>)
    ensures |cs| == |lines| && forall i :: 0 <= i < |lines| ==> cs[i] == ComponentLine(lines[i])
  {
    seq(|lines|, i requires 0 <= i < |lines| => ComponentLine(lines[i]))
  }

  /** The components stored in order; a repeated code replaces the earlier entry in place. */
  function PutAll(cs: seq<Option<(string, BudgetItem)>>, data: seq<(string, BudgetItem)>): (r: seq<(string, BudgetItem)>)
    ensures UniqueKeys(data) ==> UniqueKeys(r)
    decreases |cs|
  {
    if |cs| == 0 then data
    else
      var next := match cs[0]
        case Some(kv) => Put(data, kv.0, kv.1)
        case None => data;
      PutAll(cs[1..], next)
  }

  /** The first pass, one line at a time. */
  function ReadComponents(lines: seq<string>, data: seq<(string, BudgetItem)>): (r: seq<(string, BudgetItem)>)
    ensures UniqueKeys(data) ==> UniqueKeys(r)
  {
    PutAll(Components(lines), data)
  }

  /** Whether `c` is a component for `code`. */
  predicate Names(c: Option<(string, BudgetItem)>, code: string)
  {
    c.Some? && c.value.0 == code
  }

  /** The entry of the last component for `code`. */
  function LastFor(cs: seq<Option<(string, BudgetItem)>>, code: string): (r: Option<BudgetItem>)
    ensures r.None? <==> forall i :: 0 <= i < |cs| ==> !Names(cs[i], code)
    ensures r.Some? ==> exists i :: 0 <= i < |cs| && cs[i] == Some((code, r.value))
                         && forall j :: i < j < |cs| ==> !Names(cs[j], code)
    decreases |cs|
  {
    if |cs| == 0 then None
    else
      var rest := LastFor(cs[1..], code);
      assert forall i :: 1 <= i < |cs| ==> cs[1..][i - 1] == cs[i];
      if rest.Some? then rest
      else if Names(cs[0], code) then Some(cs[0].value.1)
      else None
  }

  /** A line's component names `code` exactly when the line is a component line for `code`. */
  lemma NamesComponents(lines: seq<string>, code: string)
    ensures forall i :: 0 <= i < |lines| ==> (Names(Components(lines)[i], code) <==> ComponentFor(lines[i], code))
  {
  }

  /** The last component for `code` comes from a component line for `code` with nothing after it, and has no quantity yet. */
  lemma LastComponentWitness(lines: seq<string>, code: string)
    ensures var r := LastFor(Components(lines), code);
      r.Some? ==> (exists i :: 0 <= i < |lines| && ComponentLine(lines[i]) == Some((code, r.value))
                               && forall j :: i < j < |lines| ==> !ComponentFor(lines[j], code))
                  && r.value.qty == 0.0
  {
    var cs := Components(lines);
    var r := LastFor(cs, code);
    if r.Some? {
      NamesComponents(lines, code);
      var i :| 0 <= i < |cs| && cs[i] == Some((code, r.value)) && forall j :: i < j < |cs| ==> !Names(cs[j], code);
      assert ComponentLine(lines[i]) == Some((code, r.value));
      ComponentLineShape(lines[i]);
    }
  }

  /** The entry given by the last component line for `code`. */
  function LastComponent(lines: seq<string>, code: string): (r: Option<BudgetItem>)
    ensures r.None? <==> forall i :: 0 <= i < |lines| ==> !ComponentFor(lines[i], code)
    ensures r.Some? ==> exists i :: 0 <= i < |lines| && ComponentLine(lines[i]) == Some((code, r.value))
                         && forall j :: i < j < |lines| ==> !ComponentFor(lines[j], code)
    ensures r.Some? ==> r.value.qty == 0.0
  {
    var r := LastFor(Components(lines), code);
    NamesComponents(lines, code);
    LastComponentWitness(lines, code);
    r
  }

  /** After the first pass, each code holds the entry of its last component, or what it held before. */
  lemma {:induction false} PutAllLastWins(cs: seq<Option<(string, BudgetItem)>>, data: seq<(string, BudgetItem)>, code: string)
    ensures Get(PutAll(cs, data), code) == if LastFor(cs, code).Some? then LastFor(cs, code) else Get(data, code)
    decreases |cs|
  {
    if |cs| > 0 {
      var next := match cs[0]
        case Some(kv) => Put(data, kv.0, kv.1)
        case None => data;
      PutAllLastWins(cs[1..], next, code);
    }
  }

  // ---------------------------------------------------------------------
  // Second pass: measurements
  // ---------------------------------------------------------------------

  /** `float(part.replace(',', '.'))`, or none when it raises. */
  function FieldNumber(part: string): Option<real>
  {
    PyFloat(ReplaceChar(part, ',', '.'))
  }

  /** The last value present, scanning from the end. */
  function LastSome(vs: seq<Option<real>>): (r: Option<real>)
    ensures r.None? <==> forall i :: 0 <= i < |vs| ==> vs[i].None?
    ensures r.Some? ==> exists i :: 0 <= i < |vs| && vs[i] == r && forall j :: i < j < |vs| ==> vs[j].None?
    decreases |vs|
  {
    if |vs| == 0 then None
    else if vs[|vs| - 1].Some? then vs[|vs| - 1]
    else
      var front := vs[..|vs| - 1];
      var rest := LastSome(front);
      assert forall i :: 0 <= i < |front| ==> front[i] == vs[i];
      if rest.Some? then
        var i :| 0 <= i < |front| && front[i] == rest && forall j :: i < j < |front| ==> front[j].None?;
        assert vs[i] == rest && forall j :: i < j < |vs| ==> vs[j].None?;
        rest
      else rest
  }

  /** The last field that reads as a number, scanning from the end. */
  function LastNumber(parts: seq<string>): (r: Option<real>)
    ensures r.None? <==> forall i :: 0 <= i < |parts| ==> FieldNumber(parts[i]).None?
    ensures r.Some? ==> exists i :: 0 <= i < |parts| && FieldNumber(parts[i]) == r
                          && forall j :: i < j < |parts| ==> FieldNumber(parts[j]).None?
  {
    var vs := seq(|parts|, i requires 0 <= i < |parts| => FieldNumber(parts[i]));
    assert forall i :: 0 <= i < |parts| ==> vs[i] == FieldNumber(parts[i]);
    var r := LastSome(vs);
    assert r.Some? ==> exists i :: 0 <= i < |vs| && vs[i] == r && forall j :: i < j < |vs| ==> vs[j].None?;
    r
  }

  /**
    A measurement line, read from the unstripped line: at least three
    `|`-fields, the stripped field 1 as code, and the number it adds. A
    line with no numeric field adds nothing.
   */
  function MeasurementLine(line: string): (r: Option<(string, real)>)
    ensures r.Some? <==> StartsWith(line, "~M|") && |Split(line, '|')| > 2 && LastNumber(Split(line, '|')).Some?
    ensures r.Some? ==> r.value.0 == Strip(Split(line, '|')[1])
  {
    if StartsWith(line, "~M|") then
      var parts := Split(line, '|');
      if |parts| > 2 then
        match LastNumber(parts)
        case Some(v) => Some((Strip(parts[1]), v))
        case None => None
      else None
    else None
  }

  /** What one measurement adds to `code`. */
  function Contribution(m: Option<(string, real)>, code: string): real
  {
    match m
    case Some((c, v)) => if c == code then v else 0.0
    case None => 0.0
  }

  /** The sum of the measurements' numbers for `code`. */
  function SumFor(ms: seq<Option<(string, real)>>, code: string): real
    decreases |ms|
  {
    if |ms| == 0 then 0.0
    else Contribution(ms[0], code) + SumFor(ms[1..], code)
  }

  /** Entry `e` with its quantity grown by `v`. */
  function Grown(e: (string, BudgetItem), v: real): (string, BudgetItem)
  {
    (e.0, e.1.(qty := e.1.qty + v))
  }

  /**
    One measurement applied: `data[code]['qty'] += v` when the code is
    known, nothing otherwise. Every entry grows by what the measurement
    adds to its own code, so only the named code changes.
   */
  function ApplyMeasurement(data: seq<(string, BudgetItem)>, m: Option<(string, real)>): (r: seq<(string, BudgetItem)>)
    ensures |r| == |data| && forall i :: 0 <= i < |data| ==> r[i] == Grown(data[i], Contribution(m, data[i].0))
  {
    match m
    case Some((code, v)) =>
      if code in Keys(data) then
        seq(|data|, i requires 0 <= i < |data| => if data[i].0 == code then Grown(data[i], v) else data[i])
      else data
    case None => data
  }

  /** What each line of the second pass measures. */
  function Measurements(lines: seq<string>): (ms: seq<Option<(string, real)>>)
    ensures |ms| == |lines| && forall i :: 0 <= i < |lines| ==> ms[i] == MeasurementLine(lines[i])
  {
    seq(|lines|, i requires 0 <= i < |lines| => MeasurementLine(lines[i]))
  }

  /** The measurements applied in line order. */
  function ApplyAll(ms: seq<Option<(string, real)>>, data: seq<(string, BudgetItem)>): (r: seq<(string, BudgetItem)>)
    ensures |r| == |data| && forall i :: 0 <= i < |data| ==> r[i].0 == data[i].0
    decreases |ms|
  {
    if |ms| == 0 then data
    else ApplyAll(ms[1..], ApplyMeasurement(data, ms[0]))
  }

  /** Each entry ends up grown by the sum of the measurements of its own code. */
  lemma {:induction false} ApplyAllSums(ms: seq<Option<(string, real)>>, data: seq<(string, BudgetItem)>, i: int)
    requires 0 <= i < |data|
    ensures ApplyAll(ms, data)[i] == Grown(data[i], SumFor(ms, data[i].0))
    decreases |ms|
  {
    if |ms| == 0 {
      assert Grown(data[i], 0.0) == data[i];
    } else {
      var next := ApplyMeasurement(data, ms[0]);
      ApplyAllSums(ms[1..], next, i);
    }
  }

  /** The sum of every measurement line's number for `code`. */
  function MeasuredSum(lines: seq<string>, code: string): real
  {
    SumFor(Measurements(lines), code)
  }

  /** The second pass: each measurement of a known code adds to its quantity. */
  function AddMeasurements(lines: seq<string>, data: seq<(string, BudgetItem)>): (r: seq<(string, BudgetItem)>)
    ensures Keys(r) == Keys(data)
    ensures UniqueKeys(data) ==> UniqueKeys(r)
  {
    var r := ApplyAll(Measurements(lines), data);
    assert Keys(r) == Keys(data);
    r
  }

  /** The second pass adds every measurement of a known code to it and leaves unknown codes out. */
  lemma AddMeasurementsSums(lines: seq<string>, data: seq<(string, BudgetItem)>, code: string)
    requires UniqueKeys(data)
    ensures Get(AddMeasurements(lines, data), code)
            == match Get(data, code)
               case None => None
               case Some(item) => Some(item.(qty := item.qty + MeasuredSum(lines, code)))
  {
    var r := AddMeasurements(lines, data);
    if code in Keys(data) {
      var i := IndexOfKey(data, code);
      ApplyAllSums(Measurements(lines), data, i);
      assert r[i] == Grown(data[i], MeasuredSum(lines, code));
    }
  }

  /** `parse_bc3` on the file's lines. */
  function ParseBudget(lines: seq<string>): (r: seq<(string, BudgetItem)>)
    ensures UniqueKeys(r)
  {
    AddMeasurements(lines, ReadComponents(lines, []))
  }

  /**
    A code is read when some component line names it; its description and
    unit come from the last such line and its quantity is the sum of all its
    measurements.
   */
  lemma ParseBudgetEntry(lines: seq<string>, code: string)
    ensures Get(ParseBudget(lines), code)
            == match LastComponent(lines, code)
               case None => None
               case Some(item) => Some(item.(qty := MeasuredSum(lines, code)))
  {
    var first := ReadComponents(lines, []);
    PutAllLastWins(Components(lines), [], code);
    assert Get(first, code) == LastComponent(lines, code);
    AddMeasurementsSums(lines, first, code);
  }

  // ---------------------------------------------------------------------
  // The discrepancy report
  // ---------------------------------------------------------------------

  /** One entry of the model side, as read from the IFC file: summed quantity and unit. */
  datatype ModelItem = ModelItem(qty: real, unit: string)

  /** Red rows are serious discrepancies, yellow rows codes found on one side only. */
  datatype Color = Red | Yellow

  /**
    One row of the report: the code, a description, the kind of
    discrepancy, the model's and the budget's quantity and unit (none where
    the report shows a dash), and the colour.
   */
  datatype Row = Row(code: string, description: string, discrepancy: string,
                     ifcValue: Option<(real, string)>, bc3Value: Option<(real, string)>, color: Color)

  const DefaultTolerance: real := 0.1
  const UnitDiffers: string := "Unitat diferent"
  const QuantityDiffers: string := "Quantitat diferent"
  const NotBudgeted: string := "No pressupostat"
  const NotModelled: string := "No modelat"
  const ModelOnlyDescription: string := "(Només al model IFC)"

  /** Units agree when they are equal once stripped and lower-cased. */
  predicate UnitsMatch(a: string, b: string)
  {
    Lower(Strip(a)) == Lower(Strip(b))
  }

  /** Quantities agree when they differ by at most the tolerance. */
  predicate QuantitiesMatch(a: real, b: real, tolerance: real)
  {
    Abs(a - b) <= tolerance
  }

  /** A code on both sides is a serious discrepancy when its unit or its quantity disagrees. */
  predicate Mismatch(i: ModelItem, b: BudgetItem, tolerance: real)
  {
    !UnitsMatch(i.unit, b.unit) || !QuantitiesMatch(i.qty, b.qty, tolerance)
  }

  /** The discrepancy kinds joined by a comma, the unit first. */
  function DiscrepancyText(i: ModelItem, b: BudgetItem, tolerance: real): (t: string)
    ensures !Mismatch(i, b, tolerance) ==> t == ""
    ensures !UnitsMatch(i.unit, b.unit) && QuantitiesMatch(i.qty, b.qty, tolerance) ==> t == UnitDiffers
    ensures UnitsMatch(i.unit, b.unit) && !QuantitiesMatch(i.qty, b.qty, tolerance) ==> t == QuantityDiffers
    ensures !UnitsMatch(i.unit, b.unit) && !QuantitiesMatch(i.qty, b.qty, tolerance) ==> t == UnitDiffers + ", " + QuantityDiffers
  {
    var unitOk := UnitsMatch(i.unit, b.unit);
    var qtyOk := QuantitiesMatch(i.qty, b.qty, tolerance);
    var kinds := (if !unitOk then [UnitDiffers] else []) + (if !qtyOk then [QuantityDiffers] else []);
    if !unitOk && !qtyOk then
      assert kinds == [UnitDiffers, QuantityDiffers];
      assert Join(kinds, ", ") == UnitDiffers + ", " + Join([QuantityDiffers], ", ");
      Join(kinds, ", ")
    else Join(kinds, ", ")
  }

  /** Whether `code` is on both sides and its two entries agree. */
  predicate Agrees(code: string, ifc: seq<(string, ModelItem)>, bc3: seq<(string, BudgetItem)>, tolerance: real)
  {
    match (Get(ifc, code), Get(bc3, code))
    case (Some(i), Some(b)) => !Mismatch(i, b, tolerance)
    case _ => false
  }

  /** The row the report holds for `code`, if any. */
  function RowFor(code: string, ifc: seq<(string, ModelItem)>, bc3: seq<(string, BudgetItem)>, tolerance: real): (r: Option<Row>)
    ensures r.Some? ==> r.value.code == code
  {
    match (Get(ifc, code), Get(bc3, code))
    case (Some(i), Some(b)) =>
      if Mismatch(i, b, tolerance) then
        Some(Row(code, b.desc, DiscrepancyText(i, b, tolerance), Some((i.qty, i.unit)), Some((b.qty, b.unit)), Red))
      else None
    case (Some(i), None) => Some(Row(code, ModelOnlyDescription, NotBudgeted, Some((i.qty, i.unit)), None, Yellow))
    case (None, Some(b)) => Some(Row(code, b.desc, NotModelled, None, Some((b.qty, b.unit)), Yellow))
    case (None, None) => None
  }

  /**
    Which codes get a row and which: a code on one side only gets a yellow
    row naming the missing side; a code on both sides gets a red row exactly
    when its unit or quantity disagrees.
   */
  lemma RowForClassifies(code: string, ifc: seq<(string, ModelItem)>, bc3: seq<(string, BudgetItem)>, tolerance: real)
    ensures var r := RowFor(code, ifc, bc3, tolerance);
      (r.Some? <==> (code in Keys(ifc) || code in Keys(bc3)) && !Agrees(code, ifc, bc3, tolerance))
      && (r.Some? ==> (r.value.color == Red <==> code in Keys(ifc) && code in Keys(bc3)))
      && (r.Some? ==> (r.value.ifcValue.Some? <==> code in Keys(ifc)) && (r.value.bc3Value.Some? <==> code in Keys(bc3)))
      && (r.Some? && code !in Keys(bc3) ==> r.value.discrepancy == NotBudgeted && r.value.description == ModelOnlyDescription)
      && (r.Some? && code !in Keys(ifc) ==> r.value.discrepancy == NotModelled)
  {
  }

  /** The values shown in a row are the entries of the two sides, and a red row explains its discrepancy. */
  lemma RowForValues(code: string, ifc: seq<(string, ModelItem)>, bc3: seq<(string, BudgetItem)>, tolerance: real)
    ensures var r := RowFor(code, ifc, bc3, tolerance);
      r.Some? ==>
        (code in Keys(ifc) ==> r.value.ifcValue == Some((Get(ifc, code).value.qty, Get(ifc, code).value.unit)))
        && (code in Keys(bc3) ==> r.value.bc3Value == Some((Get(bc3, code).value.qty, Get(bc3, code).value.unit))
                                  && r.value.description == Get(bc3, code).value.desc)
        && (r.value.color == Red ==>
              code in Keys(ifc) && code in Keys(bc3)
              && r.value.discrepancy == DiscrepancyText(Get(ifc, code).value, Get(bc3, code).value, tolerance))
  {
  }

  /** The rows for `codes`, in the order of `codes`. */
  function Rows(codes: seq<string>, ifc: seq<(string, ModelItem)>, bc3: seq<(string, BudgetItem)>, tolerance: real): (rows: seq<Row>)
    ensures forall row :: row in rows ==> row.code in codes && RowFor(row.code, ifc, bc3, tolerance) == Some(row)
    ensures forall c :: c in codes && RowFor(c, ifc, bc3, tolerance).Some? ==> RowFor(c, ifc, bc3, tolerance).value in rows
    decreases |codes|
  {
    if |codes| == 0 then []
    else
      var head := match RowFor(codes[0], ifc, bc3, tolerance)
        case Some(row) => [row]
        case None => [];
      var rest := Rows(codes[1..], ifc, bc3, tolerance);
      assert forall c :: c in codes <==> c == codes[0] || c in codes[1..];
      head + rest
  }

  /** The codes of the rows, in order. */
  function RowCodes(rows: seq<Row>): (cs: seq<string>)
    ensures |cs| == |rows| && forall i :: 0 <= i < |rows| ==> cs[i] == rows[i].code
  {
    seq(|rows|, i requires 0 <= i < |rows| => rows[i].code)
  }

  /** `sorted(...)` of a list of codes: exactly its codes, and strictly ascending when it has no repeats. */
  function SortedCodes(cs: seq<string>): (r: seq<string>)
    ensures forall c :: c in r <==> c in cs
    ensures Distinct(cs) ==> StrictlyAscending(r)
  {
    var r := Sort(cs);
    assert forall c :: c in r <==> c in multiset(r);
    assert forall c :: c in cs <==> c in multiset(cs);
    if Distinct(cs) then SortDistinct(cs); r else r
  }

  /** Some of a dict's keys, taken in order, never repeat. */
  lemma KeptKeysDistinct<V>(keep: string -> bool, a: seq<(string, V)>)
    ensures UniqueKeys(a) ==> Distinct(Filter(keep, Keys(a)))
  {
    if UniqueKeys(a) {
      FilterDistinct(keep, Keys(a));
    }
  }

  /** `sorted(codis_ifc & codis_bc3)`. */
  function SharedCodes(ifc: seq<(string, ModelItem)>, bc3: seq<(string, BudgetItem)>): (cs: seq<string>)
    ensures forall c :: c in cs <==> c in Keys(ifc) && c in Keys(bc3)
    ensures UniqueKeys(ifc) ==> StrictlyAscending(cs)
  {
    var keep := (c: string) => c in Keys(bc3);
    FilterMembers(keep, Keys(ifc));
    KeptKeysDistinct(keep, ifc);
    SortedCodes(Filter(keep, Keys(ifc)))
  }

  /** `sorted(codis_ifc - codis_bc3)`. */
  function ModelOnlyCodes(ifc: seq<(string, ModelItem)>, bc3: seq<(string, BudgetItem)>): (cs: seq<string>)
    ensures forall c :: c in cs <==> c in Keys(ifc) && c !in Keys(bc3)
    ensures UniqueKeys(ifc) ==> StrictlyAscending(cs)
  {
    var keep := (c: string) => c !in Keys(bc3);
    FilterMembers(keep, Keys(ifc));
    KeptKeysDistinct(keep, ifc);
    SortedCodes(Filter(keep, Keys(ifc)))
  }

  /** `sorted(codis_bc3 - codis_ifc)`. */
  function BudgetOnlyCodes(ifc: seq<(string, ModelItem)>, bc3: seq<(string, BudgetItem)>): (cs: seq<string>)
    ensures forall c :: c in cs <==> c in Keys(bc3) && c !in Keys(ifc)
    ensures UniqueKeys(bc3) ==> StrictlyAscending(cs)
  {
    var keep := (c: string) => c !in Keys(ifc);
    FilterMembers(keep, Keys(bc3));
    KeptKeysDistinct(keep, bc3);
    SortedCodes(Filter(keep, Keys(bc3)))
  }

  predicate IsRed(row: Row) { row.color == Red }
  predicate IsYellow(row: Row) { row.color == Yellow }

  /** `sorted(rows, key=lambda x: 0 if red else 1)`: a stable sort putting the red rows first. */
  function RedFirst(rows: seq<Row>): (r: seq<Row>)
    ensures multiset(r) == multiset(rows)
  {
    FilterMultiset(IsRed, IsYellow, rows);
    Filter(IsRed, rows) + Filter(IsYellow, rows)
  }

  /** Red rows come before yellow rows, and within each colour the order is kept (the sort is stable). */
  lemma RedFirstOrdered(rows: seq<Row>)
    ensures var r := RedFirst(rows);
      (forall i, j :: 0 <= i < j < |r| && IsYellow(r[i]) ==> IsYellow(r[j]))
      && Filter(IsRed, r) == Filter(IsRed, rows)
      && Filter(IsYellow, r) == Filter(IsYellow, rows)
  {
    var reds := Filter(IsRed, rows);
    var yellows := Filter(IsYellow, rows);
    var r := RedFirst(rows);
    FilterConcat(IsRed, reds, yellows);
    FilterConcat(IsYellow, reds, yellows);
    FilterAll(IsRed, reds);
    FilterNone(IsRed, yellows);
    FilterNone(IsYellow, reds);
    FilterAll(IsYellow, yellows);
    forall i, j | 0 <= i < j < |r| && IsYellow(r[i])
      ensures IsYellow(r[j])
    {
      if i >= |reds| {
        assert r[j] == yellows[j - |reds|];
      }
    }
  }

  /** `generate_basic_discrepancy_report` without the spreadsheet: the rows, in order. */
  function Report(ifc: seq<(string, ModelItem)>, bc3: seq<(string, BudgetItem)>, tolerance: real): (rows: seq<Row>)
  {
    RedFirst(Rows(SharedCodes(ifc, bc3), ifc, bc3, tolerance)
             + Rows(ModelOnlyCodes(ifc, bc3), ifc, bc3, tolerance)
             + Rows(BudgetOnlyCodes(ifc, bc3), ifc, bc3, tolerance))
  }

  /** The rows after the first code only carry codes above it. */
  lemma RestCodesAbove(codes: seq<string>, ifc: seq<(string, ModelItem)>, bc3: seq<(string, BudgetItem)>, tolerance: real)
    requires |codes| > 0 && StrictlyAscending(codes)
    ensures forall y :: y in RowCodes(Rows(codes[1..], ifc, bc3, tolerance)) ==> StrLe(codes[0], y) && codes[0] != y
  {
    var rest := Rows(codes[1..], ifc, bc3, tolerance);
    var restCodes := RowCodes(rest);
    forall y | y in restCodes
      ensures StrLe(codes[0], y) && codes[0] != y
    {
      var k :| 0 <= k < |restCodes| && restCodes[k] == y;
      assert rest[k] in rest;
      var m :| 0 <= m < |codes[1..]| && codes[1..][m] == y;
      assert codes[m + 1] == y;
    }
  }

  /** The rows of a non-empty code list: the first code's row, if any, then the rest. */
  lemma RowsCons(codes: seq<string>, ifc: seq<(string, ModelItem)>, bc3: seq<(string, BudgetItem)>, tolerance: real)
    requires |codes| > 0
    ensures var r := RowFor(codes[0], ifc, bc3, tolerance);
      Rows(codes, ifc, bc3, tolerance) == (if r.Some? then [r.value] else []) + Rows(codes[1..], ifc, bc3, tolerance)
  {
  }

  lemma RowCodesCons(row: Row, rest: seq<Row>)
    ensures RowCodes([row] + rest) == [row.code] + RowCodes(rest)
  {
  }

  /** One step of `RowsAscending`: the first code's row, if any, goes in front of the rest. */
  lemma RowsAscendingStep(codes: seq<string>, ifc: seq<(string, ModelItem)>, bc3: seq<(string, BudgetItem)>, tolerance: real)
    requires |codes| > 0 && StrictlyAscending(codes)
    requires StrictlyAscending(RowCodes(Rows(codes[1..], ifc, bc3, tolerance)))
    ensures StrictlyAscending(RowCodes(Rows(codes, ifc, bc3, tolerance)))
  {
    var rest := Rows(codes[1..], ifc, bc3, tolerance);
    var r := RowFor(codes[0], ifc, bc3, tolerance);
    RowsCons(codes, ifc, bc3, tolerance);
    if r.Some? {
      assert Rows(codes, ifc, bc3, tolerance) == [r.value] + rest;
      RowCodesCons(r.value, rest);
      RestCodesAbove(codes, ifc, bc3, tolerance);
      AscendingCons(codes[0], RowCodes(rest));
    } else {
      assert Rows(codes, ifc, bc3, tolerance) == [] + rest;
      assert [] + rest == rest;
    }
  }

  /** Rows built from codes in strictly ascending order have strictly ascending codes. */
  lemma {:induction false} RowsAscending(codes: seq<string>, ifc: seq<(string, ModelItem)>, bc3: seq<(string, BudgetItem)>, tolerance: real)
    requires StrictlyAscending(codes)
    ensures StrictlyAscending(RowCodes(Rows(codes, ifc, bc3, tolerance)))
    decreases |codes|
  {
    if |codes| > 0 {
      assert StrictlyAscending(codes[1..]) by {
        assert forall i :: 0 <= i < |codes| - 1 ==> codes[1..][i] == codes[i + 1];
      }
      RowsAscending(codes[1..], ifc, bc3, tolerance);
      RowsAscendingStep(codes, ifc, bc3, tolerance);
    }
  }

  /** Every row of the shared codes is red and every row of the one-side codes is yellow. */
  lemma GroupColours(ifc: seq<(string, ModelItem)>, bc3: seq<(string, BudgetItem)>, tolerance: real)
    ensures forall row :: row in Rows(SharedCodes(ifc, bc3), ifc, bc3, tolerance) ==> IsRed(row)
    ensures forall row ::
              row in Rows(ModelOnlyCodes(ifc, bc3), ifc, bc3, tolerance) + Rows(BudgetOnlyCodes(ifc, bc3), ifc, bc3, tolerance)
              ==> IsYellow(row)
  {
    forall row | row in Rows(SharedCodes(ifc, bc3), ifc, bc3, tolerance)
      ensures IsRed(row)
    {
      RowForClassifies(row.code, ifc, bc3, tolerance);
    }
    forall row | row in Rows(ModelOnlyCodes(ifc, bc3), ifc, bc3, tolerance) + Rows(BudgetOnlyCodes(ifc, bc3), ifc, bc3, tolerance)
      ensures IsYellow(row)
    {
      RowForClassifies(row.code, ifc, bc3, tolerance);
    }
  }

  /** Rows that are already red first are left as they are. */
  lemma RedFirstKeeps(reds: seq<Row>, yellows: seq<Row>)
    requires forall row :: row in reds ==> IsRed(row)
    requires forall row :: row in yellows ==> IsYellow(row)
    ensures RedFirst(reds + yellows) == reds + yellows
  {
    assert Filter(IsRed, reds + yellows) == reds by {
      assert forall k :: 0 <= k < |reds| ==> reds[k] in reds;
      assert forall k :: 0 <= k < |yellows| ==> yellows[k] in yellows;
      FilterConcat(IsRed, reds, yellows);
      FilterAll(IsRed, reds);
      FilterNone(IsRed, yellows);
    }
    assert Filter(IsYellow, reds + yellows) == yellows by {
      assert forall k :: 0 <= k < |reds| ==> reds[k] in reds;
      assert forall k :: 0 <= k < |yellows| ==> yellows[k] in yellows;
      FilterConcat(IsYellow, reds, yellows);
      FilterNone(IsYellow, reds);
      FilterAll(IsYellow, yellows);
    }
  }

  /** The sort by colour moves nothing: the red rows of the shared codes, then the model-only rows, then the budget-only rows. */
  lemma ReportInGroupOrder(ifc: seq<(string, ModelItem)>, bc3: seq<(string, BudgetItem)>, tolerance: real)
    ensures Report(ifc, bc3, tolerance)
            == Rows(SharedCodes(ifc, bc3), ifc, bc3, tolerance)
               + Rows(ModelOnlyCodes(ifc, bc3), ifc, bc3, tolerance)
               + Rows(BudgetOnlyCodes(ifc, bc3), ifc, bc3, tolerance)
  {
    var g1 := Rows(SharedCodes(ifc, bc3), ifc, bc3, tolerance);
    var g2 := Rows(ModelOnlyCodes(ifc, bc3), ifc, bc3, tolerance);
    var g3 := Rows(BudgetOnlyCodes(ifc, bc3), ifc, bc3, tolerance);
    ConcatAssoc(g1, g2, g3);
    assert RedFirst(g1 + (g2 + g3)) == g1 + (g2 + g3) by {
      GroupColours(ifc, bc3, tolerance);
      RedFirstKeeps(g1, g2 + g3);
    }
  }

  /** The report holds exactly the row of every code that has one: nothing missing, nothing extra. */
  lemma ReportCoverage(ifc: seq<(string, ModelItem)>, bc3: seq<(string, BudgetItem)>, tolerance: real, code: string)
    ensures RowFor(code, ifc, bc3, tolerance).Some? ==> RowFor(code, ifc, bc3, tolerance).value in Report(ifc, bc3, tolerance)
    ensures forall row :: row in Report(ifc, bc3, tolerance) ==> RowFor(row.code, ifc, bc3, tolerance) == Some(row)
  {
    var g1 := Rows(SharedCodes(ifc, bc3), ifc, bc3, tolerance);
    var g2 := Rows(ModelOnlyCodes(ifc, bc3), ifc, bc3, tolerance);
    var g3 := Rows(BudgetOnlyCodes(ifc, bc3), ifc, bc3, tolerance);
    ReportInGroupOrder(ifc, bc3, tolerance);
    assert forall row :: row in g1 + g2 + g3 <==> row in g1 || row in g2 || row in g3;
    if RowFor(code, ifc, bc3, tolerance).Some? {
      assert code in Keys(ifc) || code in Keys(bc3) by {
        RowForClassifies(code, ifc, bc3, tolerance);
      }
    }
  }

  lemma RowCodesConcat(a: seq<Row>, b: seq<Row>)
    ensures RowCodes(a + b) == RowCodes(a) + RowCodes(b)
  {
  }

  /** Every row code comes from the codes the rows were built from. */
  lemma RowCodesFrom(codes: seq<string>, ifc: seq<(string, ModelItem)>, bc3: seq<(string, BudgetItem)>, tolerance: real)
    ensures forall c :: c in RowCodes(Rows(codes, ifc, bc3, tolerance)) ==> c in codes
  {
    var rows := Rows(codes, ifc, bc3, tolerance);
    forall c | c in RowCodes(rows)
      ensures c in codes
    {
      var k :| 0 <= k < |rows| && RowCodes(rows)[k] == c;
      assert rows[k] in rows;
    }
  }

  /** With dicts on both sides, no code has two rows. */
  lemma ReportCodesDistinct(ifc: seq<(string, ModelItem)>, bc3: seq<(string, BudgetItem)>, tolerance: real)
    requires UniqueKeys(ifc) && UniqueKeys(bc3)
    ensures Distinct(RowCodes(Report(ifc, bc3, tolerance)))
  {
    var s1, s2, s3 := SharedCodes(ifc, bc3), ModelOnlyCodes(ifc, bc3), BudgetOnlyCodes(ifc, bc3);
    var g1, g2, g3 := Rows(s1, ifc, bc3, tolerance), Rows(s2, ifc, bc3, tolerance), Rows(s3, ifc, bc3, tolerance);
    var c1, c2, c3 := RowCodes(g1), RowCodes(g2), RowCodes(g3);
    assert Distinct(c1) && Distinct(c2) && Distinct(c3) by {
      RowsAscending(s1, ifc, bc3, tolerance);
      RowsAscending(s2, ifc, bc3, tolerance);
      RowsAscending(s3, ifc, bc3, tolerance);
    }
    assert (forall c :: c in c1 ==> c in Keys(ifc) && c in Keys(bc3))
           && (forall c :: c in c2 ==> c in Keys(ifc) && c !in Keys(bc3))
           && (forall c :: c in c3 ==> c !in Keys(ifc) && c in Keys(bc3)) by {
      RowCodesFrom(s1, ifc, bc3, tolerance);
      RowCodesFrom(s2, ifc, bc3, tolerance);
      RowCodesFrom(s3, ifc, bc3, tolerance);
    }
    assert Distinct(c1 + c2 + c3) by {
      DistinctConcat(c1, c2);
      DistinctConcat(c1 + c2, c3);
    }
    assert RowCodes(Report(ifc, bc3, tolerance)) == c1 + c2 + c3 by {
      ReportInGroupOrder(ifc, bc3, tolerance);
      RowCodesConcat(g1, g2);
      RowCodesConcat(g1 + g2, g3);
    }
  }

  /** A quantity exactly the tolerance away still agrees: the bound is inclusive. */
  lemma ToleranceInclusive(q: real, tolerance: real)
    requires tolerance >= 0.0
    ensures QuantitiesMatch(q, q + tolerance, tolerance) && QuantitiesMatch(q + tolerance, q, tolerance)
    ensures !QuantitiesMatch(q, q + tolerance + 0.01, tolerance)
  {
  }
}
