/**
 * Property metadata standing in for .NET reflection, and the two part-name
 * strategies (`IPartNameExtractor` implementations).
 */
module PartNames {
  import opened Wrappers

  /** A CLR type, by name. */
  type TypeId = string

  /**
   * How a property's declared type is treated when the full tree is reflected:
   * the `IsPrimitive()` and `IsIEnumerable()` tests and `GetSingleGenericParameter()`,
   * resolved once into the metadata.
   */
  datatype Kind =
    | Primitive                          // a leaf: never expanded
    | Object(typeId: TypeId)             // expanded through its own type
    | Collection(elementType: TypeId)    // an IEnumerable<T>: expanded through T

  /** `[JsonProperty("name")]`; an attribute whose name is null is represented with the empty name. */
  datatype JsonPropertyAttribute = JsonPropertyAttribute(propertyName: string)

  /** A `PropertyInfo`: its member name, its optional JSON annotation and its kind. */
  datatype PropertyInfo = PropertyInfo(name: string, jsonProperty: Option<JsonPropertyAttribute>, kind: Kind)

  /** The public properties each type declares, in declaration order (`Type.GetProperties()`). */
  type Schema = map<TypeId, seq<PropertyInfo>>

  /** A type the schema does not list declares no properties. */
  function GetProperties(schema: Schema, t: TypeId): seq<PropertyInfo>
  {
    if t in schema then schema[t] else []
  }

  predicate IsPrimitive(k: Kind)
  {
    k.Primitive?
  }

  predicate IsIEnumerable(k: Kind)
  {
    k.Collection?
  }

  /** The type whose properties a non-primitive property expands into. */
  function NextType(k: Kind): TypeId
    requires !IsPrimitive(k)
  {
    if IsIEnumerable(k) && !IsPrimitive(k) then k.elementType else k.typeId
  }

  /** The two `IPartNameExtractor` implementations. */
  datatype PartNameExtractor = JsonPropertyPartNameExtractor | PropertyNamePartNameExtractor

  /** `JsonPropertyPartNameExtractor.ExtractPartName`: the annotation's name verbatim, else the member name. */
  function JsonPropertyExtractPartName(propertyInfo: Option<PropertyInfo>): (r: Result<string>)
    ensures r.Failure? <==> propertyInfo.None?
    ensures r.Failure? ==> r.error == ArgumentNull
  {
    match propertyInfo
    case None => Failure(ArgumentNull)
    case Some(p) =>
      match p.jsonProperty
      case None => Success(p.name)
      case Some(attribute) => Success(attribute.propertyName)
  }

  /** `PropertyNamePartNameExtractor.ExtractPartName`: the member name. */
  function PropertyNameExtractPartName(propertyInfo: Option<PropertyInfo>): (r: Result<string>)
    ensures r.Failure? <==> propertyInfo.None?
    ensures r.Failure? ==> r.error == ArgumentNull
  {
    match propertyInfo
    case None => Failure(ArgumentNull)
    case Some(p) => Success(p.name)
  }

  /** The interface call `partNameExtractor.ExtractPartName(propertyInfo)` on a present property. */
  function ExtractPartName(e: PartNameExtractor, p: PropertyInfo): string
  {
    match e
    case JsonPropertyPartNameExtractor => JsonPropertyExtractPartName(Some(p)).value
    case PropertyNamePartNameExtractor => PropertyNameExtractPartName(Some(p)).value
  }

  /** Without a JSON annotation the JSON extractor falls back to the member name. */
  lemma JsonExtractorFallsBackToMemberName(p: PropertyInfo)
    requires p.jsonProperty.None?
    ensures JsonPropertyExtractPartName(Some(p)) == Success(p.name)
  {
  }

  /** With an annotation the JSON extractor returns its name verbatim, even an empty one. */
  lemma JsonExtractorUsesAnnotationVerbatim(p: PropertyInfo, attribute: JsonPropertyAttribute)
    requires p.jsonProperty == Some(attribute)
    ensures JsonPropertyExtractPartName(Some(p)) == Success(attribute.propertyName)
    ensures attribute.propertyName == "" ==> JsonPropertyExtractPartName(Some(p)) == Success("")
  {
  }

  /** The member-name extractor ignores annotations entirely. */
  lemma PropertyNameExtractorIgnoresAnnotation(p: PropertyInfo, annotation: Option<JsonPropertyAttribute>)
    ensures PropertyNameExtractPartName(Some(p)) == PropertyNameExtractPartName(Some(p.(jsonProperty := annotation)))
    ensures PropertyNameExtractPartName(Some(p)) == Success(p.name)
  {
  }

  /** The two extractors agree on every property that has no JSON annotation. */
  lemma ExtractorsAgreeWithoutAnnotation(p: PropertyInfo)
    requires p.jsonProperty.None?
    ensures JsonPropertyExtractPartName(Some(p)) == PropertyNameExtractPartName(Some(p))
    ensures ExtractPartName(JsonPropertyPartNameExtractor, p) == ExtractPartName(PropertyNamePartNameExtractor, p)
  {
  }
}
