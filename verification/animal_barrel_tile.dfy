/** A barrel holds at most one animal. */
module Barrels {
  import opened Optional
  import opened Animals

  /** `available` is the barrel's IsAvailable flag, which only a reset touches. */
  datatype Barrel = Barrel(animal: Option<Animal>, available: bool)

  predicate IsEmpty(b: Barrel): (r: bool)
    ensures r <==> !HasAnimal(b)
  {
    b.animal.None?
  }

  predicate HasAnimal(b: Barrel)
  {
    b.animal.Some?
  }

  /** `AddAnimal`: only an empty barrel accepts, and only a real animal. */
  function AddAnimal(b: Barrel, a: Option<Animal>): (r: Barrel)
    ensures IsEmpty(b) && a.Some? ==> r.animal == a && r.available == b.available
    ensures !IsEmpty(b) || a.None? ==> r == b
  {
    if b.animal.None? && a.Some? then b.(animal := a) else b
  }

  /** `RemoveAnimal`: the barrel empties only when `a` is the animal it holds. */
  function RemoveAnimal(b: Barrel, a: Option<Animal>): (r: Barrel)
    ensures a.Some? && b.animal == a ==> IsEmpty(r) && r.available == b.available
    ensures a.None? || b.animal != a ==> r == b
  {
    if b.animal == a && a.Some? then b.(animal := None) else b
  }

  /** `ResetObject`: empty and available again. */
  function ResetObject(b: Barrel): (r: Barrel)
    ensures IsEmpty(r) && r.available
  {
    Barrel(None, true)
  }

  /** Putting an animal into an empty barrel and taking it out again restores the barrel. */
  lemma AddThenRemove(b: Barrel, a: Animal)
    requires IsEmpty(b)
    ensures RemoveAnimal(AddAnimal(b, Some(a)), Some(a)) == b
    ensures HasAnimal(AddAnimal(b, Some(a)))
  {
  }
}
