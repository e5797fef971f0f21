/**
 * Animals. An animal's identity and type never change during a level; the
 * two mutable facts about it, whether it has left its starting block and
 * its stacking order while carried, are kept beside it in AnimalFlags.
 */
module Animals {

  /** `kind` stands for the animal's TileType, which decides pairs. */
  datatype Animal = Animal(id: nat, kind: nat)

  datatype AnimalFlags = AnimalFlags(pickedUp: set<Animal>, sortingOrder: map<Animal, int>)

  /** `AnimalTile.ResetObject`: the animal is back on its block. */
  function ResetObject(f: AnimalFlags, a: Animal): (r: AnimalFlags)
    ensures a !in r.pickedUp
    ensures forall b :: b != a ==> (b in r.pickedUp <==> b in f.pickedUp)
    ensures r.sortingOrder == f.sortingOrder
  {
    f.(pickedUp := f.pickedUp - {a})
  }
}
