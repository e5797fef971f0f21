/**
 * A shepherd: its drawn path with the walking cursor, and the animals it
 * carries. The start cell stands for the shepherd's position, which is
 * where it stands whenever its path is edited.
 */
module Shepherds {
  import opened Optional
  import opened Geometry
  import opened Seqs
  import opened PathTiles
  import opened Animals
  import opened ArkEntrance

  datatype Shepherd = Shepherd(
    id: ShepherdId,
    start: Cell,
    priority: int,
    path: seq<Cell>,
    index: nat,
    animals: seq<Animal>)

  /** The result of `NextTile`: the tile handed out, and the advanced shepherd. */
  datatype Step = Step(tile: Option<Cell>, shepherd: Shepherd)

  /** A shepherd together with the animal flags an operation on it updates. */
  datatype Carry = Carry(shepherd: Shepherd, flags: AnimalFlags)

  /** A shepherd together with the path cells an operation on it updates. */
  datatype PathEdit = PathEdit(shepherd: Shepherd, board: Board)

  // ---------------------------------------------------------------- cursor

  /** `ResetIndex`: walking starts again from the first path tile. */
  function ResetIndex(s: Shepherd): (r: Shepherd)
    ensures HasTileToWalkOn(r) <==> |s.path| > 0
    ensures r.index == 0 && r.path == s.path && r.animals == s.animals
    ensures r.id == s.id && r.start == s.start && r.priority == s.priority
  {
    s.(index := 0)
  }

  predicate HasTileToWalkOn(s: Shepherd)
  {
    s.index < |s.path|
  }

  /**
   * `NextTile`: hand out the tile under the cursor and advance, or null with
   * the cursor left where it is once the path is used up.
   */
  function NextTile(s: Shepherd): (r: Step)
    ensures HasTileToWalkOn(s) ==> r.tile == Some(s.path[s.index]) && r.shepherd == s.(index := s.index + 1)
    ensures !HasTileToWalkOn(s) ==> r.tile.None? && r.shepherd == s
  {
    if s.index < |s.path| then Step(Some(s.path[s.index]), s.(index := s.index + 1))
    else Step(None, s)
  }

  /** The tiles `k` calls of `NextTile` hand out, and the shepherd afterwards. */
  function Walk(s: Shepherd, k: nat): (r: (seq<Option<Cell>>, Shepherd))
    ensures |r.0| == k
    decreases k
  {
    if k == 0 then ([], s)
    else
      var st := NextTile(s);
      var rest := Walk(st.shepherd, k - 1);
      ([st.tile] + rest.0, rest.1)
  }

  /**
   * Walking from the cursor hands out the path in order, one tile per call,
   * then nulls once the path is used up; nothing but the cursor changes.
   */
  lemma {:induction false} WalkFollowsPath(s: Shepherd, k: nat)
    ensures var r := Walk(s, k);
      && (forall i :: 0 <= i < k && s.index + i < |s.path| ==> r.0[i] == Some(s.path[s.index + i]))
      && (forall i :: 0 <= i < k && s.index + i >= |s.path| ==> r.0[i].None?)
      && r.1 == s.(index := if s.index + k <= |s.path| then s.index + k else if s.index >= |s.path| then s.index else |s.path|)
    decreases k
  {
    if k > 0 {
      var st := NextTile(s);
      WalkFollowsPath(st.shepherd, k - 1);
      var r := Walk(s, k);
      var rest := Walk(st.shepherd, k - 1);
      assert r.0 == [st.tile] + rest.0;
      forall i | 0 < i < k
        ensures r.0[i] == rest.0[i - 1]
      {
      }
    }
  }

  // ------------------------------------------------------------------ path

  /** `LastTileIsEntrance`: the path ends on an ark entrance. */
  predicate LastTileIsEntrance(s: Shepherd, entrances: map<Cell, Entrance>)
  {
    |s.path| > 0 && s.path[|s.path| - 1] in entrances
  }

  /** `AddPathTile`: a real tile goes on the end of the path; null is ignored. */
  function AddPathTile(s: Shepherd, t: Option<Cell>): (r: Shepherd)
    ensures t.Some? ==> r.path == s.path + [t.value] && LastOrNone(r.path) == t
    ensures t.None? ==> r == s
    ensures r.id == s.id && r.start == s.start && r.animals == s.animals && r.index == s.index
  {
    if t.Some? then s.(path := s.path + [t.value]) else s
  }

  /** `ResetPath`: every path tile is reset for this shepherd and the path emptied. */
  function ResetPath(s: Shepherd, b: Board): (r: PathEdit)
    ensures r.shepherd == s.(path := [])
    ensures r.board == ResetTiles(b, s.path, Some(s.id))
    ensures forall c :: c in s.path && c in b.lanes && c !in b.entrances ==>
      !IsOwnedBy(r.board.lanes[c], Some(s.id))
    ensures forall c :: c in b.lanes && c !in s.path ==> r.board.lanes[c] == b.lanes[c]
  {
    ResetTilesClears(b, s.path, Some(s.id));
    PathEdit(s.(path := []), ResetTiles(b, s.path, Some(s.id)))
  }

  /**
   * `RemovePathTilesFrom`: nothing happens unless `t` is on the path;
   * otherwise the path is cut back to what came before the last visit of
   * `t`, and every removed tile is reset for this shepherd.
   */
  function RemovePathTilesFrom(s: Shepherd, b: Board, t: Option<Cell>): (r: PathEdit)
    ensures t.None? || t.value !in s.path ==> r == PathEdit(s, b)
    ensures t.Some? && t.value in s.path ==>
      var k := LastIndexOf(s.path, t.value);
      && r.shepherd == s.(path := s.path[..k])
      && t.value !in s.path[k + 1..]
      && r.board == ResetTiles(b, s.path[k..], Some(s.id))
    ensures forall c :: c in b.lanes && c !in s.path ==> r.board.lanes[c] == b.lanes[c]
    ensures r.shepherd.id == s.id && r.shepherd.start == s.start && r.shepherd.animals == s.animals
    ensures |r.shepherd.path| <= |s.path| && r.shepherd.path == s.path[..|r.shepherd.path|]
  {
    if t.None? || t.value !in s.path then PathEdit(s, b)
    else
      var k := LastIndexOf(s.path, t.value);
      assert forall c :: c in s.path[k..] ==> c in s.path;
      PathEdit(s.(path := s.path[..k]), ResetTiles(b, s.path[k..], Some(s.id)))
  }

  // --------------------------------------------------------------- animals

  /** `SetAnimalsSortingOrder` from position `i` on: the animal at index j gets order j. */
  function SetSortingOrder(carried: seq<Animal>, order: map<Animal, int>, i: nat): (r: map<Animal, int>)
    requires i <= |carried|
    ensures Distinct(carried) ==> forall j :: i <= j < |carried| ==> carried[j] in r && r[carried[j]] == j
    ensures forall a :: a !in carried[i..] ==> (a in r <==> a in order) && (a in order ==> r[a] == order[a])
    decreases |carried| - i
  {
    if i == |carried| then order
    else
      var r := SetSortingOrder(carried, order[carried[i] := i], i + 1);
      assert forall a :: a in carried[i + 1..] ==> a in carried[i..];
      assert Distinct(carried) ==> carried[i] !in carried[i + 1..];
      r
  }

  /** Each carried animal's sorting order is its index in the carried list. */
  predicate OrderedByIndex(s: Shepherd, f: AnimalFlags)
  {
    forall i :: 0 <= i < |s.animals| ==> s.animals[i] in f.sortingOrder && f.sortingOrder[s.animals[i]] == i
  }

  /**
   * `AnimalPickedUp`: a real animal not yet carried goes on the end of the
   * list and is marked picked up; anything else changes nothing. The list
   * never holds an animal twice.
   */
  function AnimalPickedUp(s: Shepherd, f: AnimalFlags, a: Option<Animal>): (r: Carry)
    ensures a.Some? && a.value !in s.animals ==>
      && r.shepherd == s.(animals := s.animals + [a.value])
      && r.flags.pickedUp == f.pickedUp + {a.value}
      && (Distinct(s.animals) ==> OrderedByIndex(r.shepherd, r.flags))
    ensures a.None? || a.value in s.animals ==> r == Carry(s, f)
    ensures Distinct(s.animals) ==> Distinct(r.shepherd.animals)
    ensures a.Some? ==> a.value in r.shepherd.animals
  {
    if a.Some? && a.value !in s.animals then
      var carried := s.animals + [a.value];
      Carry(s.(animals := carried),
            AnimalFlags(f.pickedUp + {a.value}, SetSortingOrder(carried, f.sortingOrder, 0)))
    else Carry(s, f)
  }

  /**
   * `AnimalDroppedOff`: an animal actually carried leaves the list, the
   * others keep their order and are renumbered; anything else changes
   * nothing. The picked-up marks are not touched.
   */
  function AnimalDroppedOff(s: Shepherd, f: AnimalFlags, a: Option<Animal>): (r: Carry)
    ensures a.Some? && a.value in s.animals ==>
      && r.shepherd == s.(animals := RemoveFirst(s.animals, a.value))
      && |r.shepherd.animals| == |s.animals| - 1
      && r.flags.pickedUp == f.pickedUp
      && (Distinct(s.animals) ==> a.value !in r.shepherd.animals && OrderedByIndex(r.shepherd, r.flags))
    ensures a.None? || a.value !in s.animals ==> r == Carry(s, f)
    ensures Distinct(s.animals) ==> Distinct(r.shepherd.animals)
    ensures multiset(r.shepherd.animals) <= multiset(s.animals)
  {
    if a.Some? && a.value in s.animals then
      var carried := RemoveFirst(s.animals, a.value);
      assert Distinct(s.animals) ==> Distinct(carried) && a.value !in carried by {
        if Distinct(s.animals) { RemoveFirstDistinct(s.animals, a.value); }
      }
      Carry(s.(animals := carried), f.(sortingOrder := SetSortingOrder(carried, f.sortingOrder, 0)))
    else Carry(s, f)
  }

  /** `CanCarryMoreAnimals`: fewer animals carried than the maximum. */
  predicate CanCarryMoreAnimals(s: Shepherd, maxAnimals: int)
  {
    |s.animals| < maxAnimals
  }

  /** `HasPair`: exactly two animals, of the same type. */
  predicate HasPair(s: Shepherd)
  {
    |s.animals| == 2 && s.animals[0].kind == s.animals[1].kind
  }

  /** `ResetObject`: the shepherd puts every animal down (position and looks are not modelled). */
  function ResetObject(s: Shepherd): (r: Shepherd)
    ensures r.animals == [] && !HasPair(r) && CanCarryMoreAnimals(r, 1)
    ensures r.path == s.path && r.index == s.index && r.id == s.id
  {
    s.(animals := [])
  }

  /**
   * Picking an animal up and dropping it again leaves the carried list as
   * it was.
   */
  lemma PickUpThenDrop(s: Shepherd, f: AnimalFlags, a: Animal)
    requires a !in s.animals
    ensures var c := AnimalPickedUp(s, f, Some(a));
      AnimalDroppedOff(c.shepherd, c.flags, Some(a)).shepherd == s
  {
    var c := AnimalPickedUp(s, f, Some(a));
    assert IndexOf(c.shepherd.animals, a) == |s.animals|;
    assert c.shepherd.animals[..|s.animals|] == s.animals;
  }
}
