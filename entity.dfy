// Identity-based equality of domain entities, and the part entity that the
// planners place.
module Entities {
  import opened Common

  /** The runtime type of an entity (GetType()). */
  datatype Kind = PartKind | AssemblyKind | JointKind | OtherKind(name: string)

  /** An entity object: its runtime type, its Id, and the reference that identifies the object itself. */
  datatype EntityRef = EntityRef(kind: Kind, id: int, reference: nat)

  /** Whatever Equals(object) may receive: null, an object that is no entity, or an entity. */
  datatype Obj = NullObj | NonEntity | Ent(entity: EntityRef)

  /** One reference denotes one object: two views of the same reference agree on type and Id. */
  predicate SameObjectAgrees(a: EntityRef, b: EntityRef)
  {
    a.reference == b.reference ==> a == b
  }

  /** Entity.Equals(object). */
  predicate Equals(self: EntityRef, obj: Obj)
  {
    if !obj.Ent? then false
    else if self.reference == obj.entity.reference then true
    else if self.kind != obj.entity.kind then false
    else self.id == obj.entity.id
  }

  /** Entity.GetHashCode(): Int32.GetHashCode of the Id, which is the Id itself. */
  function HashCode(e: EntityRef): int
  {
    e.id
  }

  /** operator ==: two nulls are equal, null and an entity are not, otherwise Equals decides. */
  predicate Eq(left: Option<EntityRef>, right: Option<EntityRef>)
  {
    if left.None? && right.None? then true
    else if left.None? || right.None? then false
    else Equals(left.value, Ent(right.value))
  }

  /** operator !=. */
  predicate Neq(left: Option<EntityRef>, right: Option<EntityRef>)
  {
    !Eq(left, right)
  }

  // ---------------------------------------------------------------------
  // Properties
  // ---------------------------------------------------------------------

  /** Equality is same runtime type and same Id; null and non-entities are never equal to an entity. */
  lemma EqualsIff(a: EntityRef, obj: Obj)
    requires obj.Ent? ==> SameObjectAgrees(a, obj.entity)
    ensures Equals(a, obj) <==> obj.Ent? && obj.entity.kind == a.kind && obj.entity.id == a.id
  {
  }

  /** Reflexive, symmetric and transitive on entities. */
  lemma EqualsEquivalence(a: EntityRef, b: EntityRef, c: EntityRef)
    requires SameObjectAgrees(a, b) && SameObjectAgrees(b, c) && SameObjectAgrees(a, c)
    ensures Equals(a, Ent(a))
    ensures Equals(a, Ent(b)) == Equals(b, Ent(a))
    ensures Equals(a, Ent(b)) && Equals(b, Ent(c)) ==> Equals(a, Ent(c))
  {
  }

  /** Equal entities have equal hash codes. */
  lemma HashAgreesWithEquals(a: EntityRef, b: EntityRef)
    requires SameObjectAgrees(a, b)
    ensures Equals(a, Ent(b)) ==> HashCode(a) == HashCode(b)
  {
  }

  /** The null cases of == and the negation !=. */
  lemma OperatorFacts(left: Option<EntityRef>, right: Option<EntityRef>)
    ensures Eq(None, None)
    ensures right.Some? ==> !Eq(None, right) && !Eq(right, None)
    ensures Neq(left, right) <==> !Eq(left, right)
    ensures left.Some? && right.Some? ==> (Eq(left, right) <==> Equals(left.value, Ent(right.value)))
  {
  }

  /** A part as the planners see it: the entity, its display name and its planning index. */
  datatype Part = Part(entity: EntityRef, name: string, indexId: int)
}
