/**
  The IFC side as already-extracted data: instances, types and the tag
  indexes of the IFC parse result, with the pure helpers that split a Revit
  type name and look instances up by type tag or by class.
 */
module Ifc {
  import opened Wrappers
  import opened Text
  import opened Numbers
  import opened Assoc
  import opened Lists

  /** An instance taken from the building model. */
  datatype IfcElement = IfcElement(
    globalId: string,
    tag: Option<string>,
    name: string,
    ifcClass: string,
    typeId: Option<string>,
    typeName: Option<string>,
    familyName: Option<string>,
    typeMark: Option<string>,
    properties: seq<(string, Value)>,
    quantities: seq<(string, Value)>,
    level: Option<string>,
    parentId: Option<string>)

  /** A type definition; `instanceCount` is the number of instances of the type. */
  datatype IfcType = IfcType(
    globalId: string,
    tag: Option<string>,
    name: string,
    ifcClass: string,
    familyName: Option<string>,
    typeName: Option<string>,
    properties: seq<(string, Value)>,
    instanceCount: int)

  /** Instances and types by global id, and both again by Revit tag. */
  datatype IfcParseResult = IfcParseResult(
    elements: seq<(string, IfcElement)>,
    types: seq<(string, IfcType)>,
    elementsByTag: seq<(string, IfcElement)>,
    typesByTag: seq<(string, IfcType)>,
    schema: string,
    projectName: string,
    errors: seq<string>)

  /**
    A Revit name `Family:Type` split at its first colon, both halves
    stripped; a name without a colon is all family; an empty name is neither.
   */
  function ParseTypeName(name: string): (r: (Option<string>, Option<string>))
    ensures r.0.None? <==> name == []
    ensures r.1.Some? <==> ':' in name
    ensures ':' !in name && name != [] ==> r.0 == Some(name)
    ensures r.0.Some? ==> ':' !in r.0.value
    ensures r.1.Some? ==> forall c :: c in r.1.value ==> c in name
  {
    if name == [] then (None, None)
    else if ':' in name then
      var i := IndexOf(name, ':');
      StripInside(name[..i]);
      StripInside(name[i + 1..]);
      (Some(Strip(name[..i])), Some(Strip(name[i + 1..])))
    else (Some(name), None)
  }

  /**
    A name with a colon splits at its first colon: every such name is a
    colon-free `family`, the colon, and any `typ`, and the two halves come
    back stripped.
   */
  lemma ParseTypeNameSplit(family: string, typ: string)
    requires ':' !in family
    ensures ParseTypeName(family + ":" + typ) == (Some(Strip(family)), Some(Strip(typ)))
  {
    var name := family + ":" + typ;
    IndexOfAfterPrefix(family, typ, ':');
    assert name == family + [':'] + typ;
    assert name[..|family|] == family;
    assert name[|family| + 1..] == typ;
  }

  /** Joining an unpadded, colon-free family and an unpadded type name with `:` splits back into the two. */
  lemma ParseTypeNameJoin(family: string, typ: string)
    requires ':' !in family
    requires Strip(family) == family && Strip(typ) == typ
    ensures ParseTypeName(family + ":" + typ) == (Some(family), Some(typ))
  {
    ParseTypeNameSplit(family, typ);
  }

  /** Every name with a colon is a colon-free part, the colon, and the rest. */
  lemma FirstColonSplit(name: string)
    requires ':' in name
    ensures var i := IndexOf(name, ':');
      ':' !in name[..i] && name == name[..i] + ":" + name[i + 1..]
  {
    var i := IndexOf(name, ':');
    assert name == name[..i] + [name[i]] + name[i + 1..];
  }

  /** The instances whose type is `typeGlobalId`, in instance order. */
  function InstancesOf(es: seq<IfcElement>, typeGlobalId: string): (r: seq<IfcElement>)
  {
    Filter((e: IfcElement) => e.typeId == Some(typeGlobalId), es)
  }

  /** `get_elements_by_type_tag`: no instances for an unknown tag, else the instances of the tagged type. */
  function GetElementsByTypeTag(result: IfcParseResult, typeTag: string): (r: seq<IfcElement>)
    ensures typeTag !in Keys(result.typesByTag) ==> r == []
    ensures typeTag in Keys(result.typesByTag) ==>
      var t := Get(result.typesByTag, typeTag).value;
      (forall e :: e in r <==> e in Values(result.elements) && e.typeId == Some(t.globalId))
      && IsSubseq(r, Values(result.elements))
  {
    match Get(result.typesByTag, typeTag)
    case None => []
    case Some(t) =>
      var r := InstancesOf(Values(result.elements), t.globalId);
      FilterMembers((e: IfcElement) => e.typeId == Some(t.globalId), Values(result.elements));
      FilterSubseq((e: IfcElement) => e.typeId == Some(t.globalId), Values(result.elements));
      r
  }

  /** `get_elements_by_class`: equality or prefix, so a class also selects its subclasses named after it. */
  function GetElementsByClass(result: IfcParseResult, ifcClass: string): (r: seq<IfcElement>)
    ensures forall e :: e in r <==> e in Values(result.elements) && StartsWith(e.ifcClass, ifcClass)
    ensures IsSubseq(r, Values(result.elements))
  {
    var keep := (e: IfcElement) => e.ifcClass == ifcClass || StartsWith(e.ifcClass, ifcClass);
    FilterMembers(keep, Values(result.elements));
    FilterSubseq(keep, Values(result.elements));
    Filter(keep, Values(result.elements))
  }

  /** For example "IfcWall" selects an "IfcWallStandardCase" instance. */
  lemma ClassPrefixSelects(result: IfcParseResult, e: IfcElement)
    requires e in Values(result.elements) && e.ifcClass == "IfcWallStandardCase"
    ensures e in GetElementsByClass(result, "IfcWall")
  {
    assert e.ifcClass[..|"IfcWall"|] == "IfcWall";
  }
}
