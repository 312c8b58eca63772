/**
  The ignore-term filter: elements whose code or description mentions a
  view, sheet, room, area, opening and the like are not building elements
  and are kept out of matching.
 */
module IgnoreFilter {
  import opened Wrappers
  import opened Text
  import opened Lists

  /** Spanish terms. */
  const IgnoreTermsEs: seq<string> := [
    "información", "plano", "vista",
    "zona de", "climatización", "topografía",
    "habitaciones", "áreas", "ocupacion",
    "sup.libre", "sup.construida",
    "almacén", "salón", "cocina", "aseo", "archivo", "circulación",
    "área de trabajo", "sala de reuniones", "dep. limpieza",
    "aseos femeninos", "aseos masculinos",
    "aberturas", "hueco", "corte", "líneas",
    "materiales", "tubería", "segmentos"]

  /** English terms. */
  const IgnoreTermsEn: seq<string> := [
    "project info", "sheet", "view",
    "rooms", "areas",
    "opening", "void", "lines",
    "materials", "pipe",
    "system panel", "empty panel"]

  const IgnoreTerms: seq<string> := IgnoreTermsEs + IgnoreTermsEn

  /** The text that is searched: the lower-cased code and a blank, then the lower-cased description. */
  function CheckText(code: Option<string>, description: Option<string>): (t: string)
    ensures Truthy(code) && Truthy(description) ==> t == Lower(code.value + " " + description.value)
    ensures !Truthy(code) && !Truthy(description) ==> t == ""
  {
    LowerConcat(code.GetOr(""), " ");
    LowerConcat(code.GetOr("") + " ", description.GetOr(""));
    (if Truthy(code) then Lower(code.value) + " " else "") + (if Truthy(description) then Lower(description.value) else "")
  }

  /** Some term, lower-cased, occurs in `text`. */
  function AnyTermIn(text: string, terms: seq<string>): (r: bool)
    ensures r <==> exists i :: 0 <= i < |terms| && Contains(text, Lower(terms[i]))
    decreases |terms|
  {
    if |terms| == 0 then false
    else if Contains(text, Lower(terms[0])) then true
    else
      var rest := AnyTermIn(text, terms[1..]);
      assert forall i :: 1 <= i < |terms| ==> terms[i] == terms[1..][i - 1];
      rest
  }

  /**
    `is_ignored_element`: a blank text is never ignored; otherwise the
    element is ignored when one of the standard terms or of the custom
    terms occurs in it.
   */
  function IsIgnored(code: Option<string>, description: Option<string>, customTerms: seq<string>): (r: bool)
    ensures IsBlank(CheckText(code, description)) ==> !r
    ensures !IsBlank(CheckText(code, description)) ==>
              (r <==> exists term :: term in IgnoreTerms + customTerms && Contains(CheckText(code, description), Lower(term)))
  {
    var text := CheckText(code, description);
    var terms := IgnoreTerms + customTerms;
    if IsBlank(text) then false
    else
      var r := AnyTermIn(text, terms);
      assert r ==> exists term :: term in terms && Contains(text, Lower(term));
      assert (exists term :: term in terms && Contains(text, Lower(term))) ==> r by {
        if exists term :: term in terms && Contains(text, Lower(term)) {
          var term :| term in terms && Contains(text, Lower(term));
          var i :| 0 <= i < |terms| && terms[i] == term;
        }
      }
      r
  }

  /** Whether the element's code attribute exists, and its value when it does. */
  datatype Attr = Absent | Present(value: Option<string>)

  /** The code that is checked: the attribute when the element has one, else the key. */
  function CodeFor(key: string, code: Attr): (c: Option<string>)
    ensures code.Absent? ==> c == Some(key)
    ensures code.Present? ==> c == code.value
  {
    match code
    case Absent => Some(key)
    case Present(v) => v
  }

  /** The description that is checked: the attribute, or none. */
  function DescriptionFor(description: Attr): (d: Option<string>)
    ensures description.Absent? ==> d.None?
    ensures description.Present? ==> d == description.value
  {
    match description
    case Absent => None
    case Present(v) => v
  }

  /** Whether the entry `(key, elem)` is ignored, reading its attributes through `codeOf` and `descriptionOf`. */
  predicate EntryIgnored<T>(codeOf: T -> Attr, descriptionOf: T -> Attr, customTerms: seq<string>, entry: (string, T))
  {
    IsIgnored(CodeFor(entry.0, codeOf(entry.1)), DescriptionFor(descriptionOf(entry.1)), customTerms)
  }

  /** `filter_elements`: the entries that are not ignored, in order and unchanged. */
  function FilterElements<T(!new)>(elements: seq<(string, T)>, codeOf: T -> Attr, descriptionOf: T -> Attr,
                             customTerms: seq<string>): (r: seq<(string, T)>)
    ensures forall e :: e in r <==> e in elements && !EntryIgnored(codeOf, descriptionOf, customTerms, e)
    ensures IsSubseq(r, elements)
  {
    var keep := (e: (string, T)) => !EntryIgnored(codeOf, descriptionOf, customTerms, e);
    FilterMembers(keep, elements);
    FilterSubseq(keep, elements);
    Filter(keep, elements)
  }

  /** `get_ignored_elements`: the entries that are ignored, in order and unchanged. */
  function IgnoredElements<T(!new)>(elements: seq<(string, T)>, codeOf: T -> Attr, descriptionOf: T -> Attr,
                              customTerms: seq<string>): (r: seq<(string, T)>)
    ensures forall e :: e in r <==> e in elements && EntryIgnored(codeOf, descriptionOf, customTerms, e)
    ensures IsSubseq(r, elements)
  {
    var drop := (e: (string, T)) => EntryIgnored(codeOf, descriptionOf, customTerms, e);
    FilterMembers(drop, elements);
    FilterSubseq(drop, elements);
    Filter(drop, elements)
  }

  /** The kept and the ignored entries split the input: disjoint, together everything, sizes adding up. */
  lemma FilterPartition<T(!new)>(elements: seq<(string, T)>, codeOf: T -> Attr, descriptionOf: T -> Attr, customTerms: seq<string>)
    ensures var kept := FilterElements(elements, codeOf, descriptionOf, customTerms);
      var ignored := IgnoredElements(elements, codeOf, descriptionOf, customTerms);
      (forall e :: e in elements <==> e in kept || e in ignored)
      && (forall e :: !(e in kept && e in ignored))
      && |kept| + |ignored| == |elements|
  {
    FilterComplement((e: (string, T)) => !EntryIgnored(codeOf, descriptionOf, customTerms, e),
                     (e: (string, T)) => EntryIgnored(codeOf, descriptionOf, customTerms, e), elements);
  }

  /** Extra terms can only turn a kept element into an ignored one, never the reverse. */
  lemma CustomTermsOnlyAdd(code: Option<string>, description: Option<string>, custom: seq<string>, more: seq<string>)
    requires IsIgnored(code, description, custom)
    ensures IsIgnored(code, description, custom + more)
  {
    var text := CheckText(code, description);
    var term :| term in IgnoreTerms + custom && Contains(text, Lower(term));
    assert term in IgnoreTerms + (custom + more);
  }

  /** Upper- or lower-case spelling of code and description does not change the outcome. */
  lemma IgnoreCaseInsensitive(code: string, description: string, customTerms: seq<string>)
    ensures IsIgnored(Some(Lower(code)), Some(Lower(description)), customTerms)
            == IsIgnored(Some(code), Some(description), customTerms)
  {
    LowerIdempotent(code);
    LowerIdempotent(description);
    assert CheckText(Some(Lower(code)), Some(Lower(description))) == CheckText(Some(code), Some(description));
  }

  /** A description naming the project information is ignored, whatever its case. */
  lemma ProjectInfoIgnored()
    ensures IsIgnored(None, Some("PROJECT INFO"), [])
  {
    var text := CheckText(None, Some("PROJECT INFO"));
    assert text == "project info";
    assert !IsSpace(text[0]);
    assert IgnoreTerms[29] == "project info";
    assert OccursAt(text, Lower("project info"), 0);
  }

  /** The code is searched too: a code mentioning a sheet is ignored despite an ordinary description. */
  lemma CodeIsSearched()
    ensures IsIgnored(Some("sheet_01"), Some("Normal description"), [])
  {
    var text := CheckText(Some("sheet_01"), Some("Normal description"));
    assert text[..5] == Lower("sheet_01")[..5] == "sheet";
    assert !IsSpace(text[0]);
    assert IgnoreTerms[30] == "sheet";
    assert OccursAt(text, Lower("sheet"), 0);
  }
}
