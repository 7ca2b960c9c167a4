/**
 * `GoogleSchemaEntity`: resources compare equal by ETag when both carry a
 * non-blank one, and by reference otherwise; the hash code follows the same rule.
 */
module GoogleSchemaEntities {
  import opened Wrappers

  /**
   * A resource as the equality rule sees it: `identity` stands for the object
   * reference, `kind` for the abstract `Kind`, `eTag` for the nullable `ETag`.
   */
  datatype GoogleSchemaEntity = GoogleSchemaEntity(identity: nat, kind: string, eTag: Option<string>)

  /** The argument of `Equals(object)`: null, an object of some other type, or a resource. */
  datatype Object = Null | Other(identity: nat) | Entity(entity: GoogleSchemaEntity)

  /** `Char.IsWhiteSpace`: the Unicode separator characters and the control characters U+0009-U+000D and U+0085. */
  predicate IsWhiteSpace(c: char) {
    || ('\U{0009}' <= c <= '\U{000D}') || c == ' ' || c == '\U{0085}' || c == '\U{00A0}' || c == '\U{1680}'
    || ('\U{2000}' <= c <= '\U{200A}') || c == '\U{2028}' || c == '\U{2029}' || c == '\U{202F}' || c == '\U{205F}'
    || c == '\U{3000}'
  }

  /** `String.IsNullOrWhiteSpace`. */
  predicate IsNullOrWhiteSpace(s: Option<string>) {
    s.None? || forall i :: 0 <= i < |s.value| ==> IsWhiteSpace(s.value[i])
  }

  /** The entity carries an ETag the equality rule uses. */
  predicate HasETag(e: GoogleSchemaEntity) {
    !IsNullOrWhiteSpace(e.eTag)
  }

  /** `object.Equals`: reference equality. */
  predicate ReferenceEquals(e: GoogleSchemaEntity, compareMe: Object) {
    compareMe == Entity(e)
  }

  /**
   * `Equals(compareMe)`: when the other object is a resource and both ETags are
   * non-blank, the ETags decide; otherwise the base (reference) equality does.
   */
  predicate Equals(e: GoogleSchemaEntity, compareMe: Object)
    ensures compareMe == Entity(e) ==> Equals(e, compareMe)
    ensures Equals(e, compareMe) ==> compareMe.Entity?
    ensures Equals(e, compareMe) && !HasETag(e) ==> compareMe == Entity(e)
  {
    if compareMe.Entity? && HasETag(e) && HasETag(compareMe.entity) then e.eTag == compareMe.entity.eTag
    else ReferenceEquals(e, compareMe)
  }

  /**
   * `GetHashCode()`: the ETag's string hash when the ETag is non-blank, the base
   * (reference) hash otherwise; both hash functions are parameters.
   */
  function GetHashCode(e: GoogleSchemaEntity, stringHash: string -> int, referenceHash: nat -> int): (h: int)
    ensures HasETag(e) ==> h == stringHash(e.eTag.value)
    ensures !HasETag(e) ==> h == referenceHash(e.identity)
  {
    if HasETag(e) then stringHash(e.eTag.value) else referenceHash(e.identity)
  }

  /** Two resources with non-blank ETags are equal exactly when the ETags are. */
  lemma EqualsByETag(a: GoogleSchemaEntity, b: GoogleSchemaEntity)
    requires HasETag(a) && HasETag(b)
    ensures Equals(a, Entity(b)) <==> a.eTag == b.eTag
  {
  }

  /**
   * Without two non-blank ETags, or against anything but a resource, only the
   * same object is equal: a blank ETag never makes two resources equal.
   */
  lemma EqualsFallsBackToReference(a: GoogleSchemaEntity, compareMe: Object)
    requires !compareMe.Entity? || !HasETag(a) || !HasETag(compareMe.entity)
    ensures Equals(a, compareMe) <==> compareMe == Entity(a)
    ensures compareMe.Null? || compareMe.Other? ==> !Equals(a, compareMe)
  {
  }

  /** `Kind` and identity play no part once both ETags are non-blank. */
  lemma KindIrrelevant(a: GoogleSchemaEntity, b: GoogleSchemaEntity)
    requires HasETag(a) && a.eTag == b.eTag && a.kind != b.kind
    ensures Equals(a, Entity(b)) && Equals(b, Entity(a))
  {
  }

  /** The rule is an equivalence on resources: reflexive, symmetric and transitive. */
  lemma EqualsIsEquivalence(a: GoogleSchemaEntity, b: GoogleSchemaEntity, c: GoogleSchemaEntity)
    ensures Equals(a, Entity(a))
    ensures Equals(a, Entity(b)) ==> Equals(b, Entity(a))
    ensures Equals(a, Entity(b)) && Equals(b, Entity(c)) ==> Equals(a, Entity(c))
  {
  }

  /** Equal resources have equal hash codes, whatever the two hash functions. */
  lemma HashCodeConsistent(a: GoogleSchemaEntity, b: GoogleSchemaEntity, stringHash: string -> int, referenceHash: nat -> int)
    requires Equals(a, Entity(b))
    ensures GetHashCode(a, stringHash, referenceHash) == GetHashCode(b, stringHash, referenceHash)
  {
  }
}
