/**
 * A path cell with two lanes, bottom and top. Each lane records which
 * shepherd owns it (if any) and which shape of track it shows. Two
 * shepherds can share a cell by owning one lane each.
 */
module PathTiles {
  import opened Optional
  import opened Enums
  import opened Geometry

  /** A shepherd is named by its index in the level's shepherd list. */
  type ShepherdId = nat

  datatype Lane = Lane(owner: Option<ShepherdId>, kind: PathType)

  const FreeLane: Lane := Lane(None, Empty)

  datatype PathCell = PathCell(bottom: Lane, top: Lane)

  const EmptyCell: PathCell := PathCell(FreeLane, FreeLane)

  /** Both lanes show track. */
  predicate IsDoubleBooked(p: PathCell): (b: bool)
    ensures b ==> !IsEmpty(p)
  {
    p.bottom.kind != Empty && p.top.kind != Empty
  }

  /** Neither lane shows track. */
  predicate IsEmpty(p: PathCell): (b: bool)
    ensures b ==> forall o :: GetPathTypeOwnedBy(p, o) == Empty
  {
    p.bottom.kind == Empty && p.top.kind == Empty
  }

  predicate IsStraightOrEmpty(p: PathCell)
  {
    (p.bottom.kind == Empty && p.top.kind == Empty) || IsStraight(p.bottom.kind) || IsStraight(p.top.kind)
  }

  /** The same shepherd holds both lanes. */
  predicate OwnsBoth(p: PathCell)
  {
    p.bottom.owner.Some? && p.bottom.owner == p.top.owner
  }

  /**
   * The shape every controller edit keeps: no shepherd holds both lanes and
   * an unowned lane shows no track.
   */
  predicate WellFormed(p: PathCell)
  {
    && !OwnsBoth(p)
    && (p.bottom.owner.None? ==> p.bottom.kind == Empty)
    && (p.top.owner.None? ==> p.top.kind == Empty)
  }

  /** `IsTileOwnedByShepherd`: the shepherd owns at least one lane. */
  predicate IsOwnedBy(p: PathCell, owner: Option<ShepherdId>)
  {
    p.bottom.owner == owner || p.top.owner == owner
  }

  /**
   * `UpdatePathType`: writing `Empty` for a real shepherd clears every lane
   * it holds. Otherwise the lane the shepherd already holds is rewritten
   * (bottom checked first), and failing that a real shepherd takes the
   * first unowned lane, bottom before top. With both lanes held by others
   * nothing changes.
   */
  function UpdatePathType(p: PathCell, owner: Option<ShepherdId>, t: PathType): (r: PathCell)
    // clearing: every lane the owner holds is freed, the other lane is kept
    ensures t == Empty && owner.Some? ==>
      && !IsOwnedBy(r, owner)
      && r.bottom == (if p.bottom.owner == owner then FreeLane else p.bottom)
      && r.top == (if p.top.owner == owner then FreeLane else p.top)
    // a lane the owner already holds is retyped in place, bottom first
    ensures (t != Empty || owner.None?) && p.bottom.owner == owner ==>
      r == p.(bottom := Lane(owner, t))
    ensures (t != Empty || owner.None?) && p.bottom.owner != owner && p.top.owner == owner ==>
      r == p.(top := Lane(owner, t))
    // a newcomer takes the bottom lane if free, else the top lane if free
    ensures owner.Some? && t != Empty && !IsOwnedBy(p, owner) ==>
      r == (if p.bottom.owner.None? then p.(bottom := Lane(owner, t))
            else if p.top.owner.None? then p.(top := Lane(owner, t))
            else p)
    // no real shepherd ever ends up holding both lanes
    ensures owner.Some? && !OwnsBoth(p) ==> !OwnsBoth(r)
    ensures owner.Some? && WellFormed(p) ==> WellFormed(r)
  {
    if t == Empty && owner.Some? then
      var b := if p.bottom.owner == owner then FreeLane else p.bottom;
      var u := if p.top.owner == owner then FreeLane else p.top;
      PathCell(b, u)
    else if p.bottom.owner == owner then
      p.(bottom := p.bottom.(kind := t))
    else if p.top.owner == owner then
      p.(top := p.top.(kind := t))
    else if owner.Some? then
      if p.bottom.owner.None? then p.(bottom := Lane(owner, t))
      else if p.top.owner.None? then p.(top := Lane(owner, t))
      else p
    else
      p
  }

  /** `GetPathTypeOwnedByShepherd`: the shape on the owner's lane, bottom first. */
  function GetPathTypeOwnedBy(p: PathCell, owner: Option<ShepherdId>): (t: PathType)
    ensures !IsOwnedBy(p, owner) ==> t == Empty
    ensures p.bottom.owner == owner ==> t == p.bottom.kind
    ensures p.bottom.owner != owner && p.top.owner == owner ==> t == p.top.kind
  {
    if p.bottom.owner == owner then p.bottom.kind
    else if p.top.owner == owner then p.top.kind
    else Empty
  }

  /** `IsTileOwnedByShepherdStraight`: the owner's lane is straight. */
  predicate IsOwnedStraight(p: PathCell, owner: Option<ShepherdId>): (b: bool)
    ensures b <==> IsOwnedBy(p, owner) && IsStraight(GetPathTypeOwnedBy(p, owner))
  {
    if p.bottom.owner == owner then IsStraight(p.bottom.kind)
    else if p.top.owner == owner then IsStraight(p.top.kind)
    else false
  }

  /**
   * `GetOwner`: the expected shepherd when it holds either lane, else the
   * bottom owner, else the top owner, else null.
   */
  function GetOwner(p: PathCell, expected: Option<ShepherdId>): (r: Option<ShepherdId>)
    ensures expected.Some? && IsOwnedBy(p, expected) ==> r == expected
    ensures (expected.None? || !IsOwnedBy(p, expected)) ==>
      r == (if p.bottom.owner.Some? then p.bottom.owner else p.top.owner)
    ensures r.None? <==> p.bottom.owner.None? && p.top.owner.None?
    ensures r.Some? ==> IsOwnedBy(p, r)
  {
    var owner :=
      if expected.Some? && (p.bottom.owner == expected || p.top.owner == expected) then expected
      else None;
    if owner.None? then
      (if p.bottom.owner.Some? then p.bottom.owner else p.top.owner)
    else owner
  }

  /** The cardinal directions a shape of track connects. */
  function Openings(t: PathType): set<Vec>
  {
    match t
    case Empty => {}
    case Horizontal => {Left, Right}
    case Vertical => {Up, Down}
    case TopLeftCorner => {Down, Right}
    case BottomLeftCorner => {Up, Right}
    case BottomRightCorner => {Up, Left}
    case TopRightCorner => {Down, Left}
    case Cross => {Up, Down, Left, Right}
  }

  /**
   * True when `prev` or `next` points one unit in the direction of the
   * cardinal `d` along `d`'s axis (`Mathf.Approximately(prev.y, 1f) || ...`).
   */
  predicate Heads(prev: Vec, next: Vec, d: Vec)
  {
    if d.dx == 0 then prev.dy == d.dy || next.dy == d.dy
    else prev.dx == d.dx || next.dx == d.dx
  }

  /**
   * The shape inferred from the previous and next neighbour directions
   * (`UpdateSpriteBasedOnNeigborsPositon`).
   */
  function InferShape(prev: Vec, next: Vec): (r: PathType)
    ensures r != Cross
    // two distinct neighbours: the shape connects exactly those two
    ensures IsCardinal(prev) && IsCardinal(next) && prev != next ==> Openings(r) == {prev, next}
    // a path end: a straight piece running towards the one neighbour
    ensures IsCardinal(prev) && next == Zero ==> IsStraight(r) && prev in Openings(r)
    ensures IsCardinal(next) && prev == Zero ==> IsStraight(r) && next in Openings(r)
    // both neighbours on the same side: a straight piece towards it
    ensures IsCardinal(prev) && next == prev ==> IsStraight(r) && prev in Openings(r)
    // no neighbour at all: no track
    ensures prev == Zero && next == Zero ==> r == Empty
  {
    var north := prev.dy == 1 || next.dy == 1;
    var south := prev.dy == -1 || next.dy == -1;
    var west := prev.dx == -1 || next.dx == -1;
    var east := prev.dx == 1 || next.dx == 1;
    if !north && !west && south && east then TopLeftCorner
    else if north && !west && !south && east then BottomLeftCorner
    else if north && west && !south && !east then BottomRightCorner
    else if !north && west && south && !east then TopRightCorner
    else if !north && !south && (east || west) then Horizontal
    else if !east && !west && (north || south) then Vertical
    else Empty
  }

  /** Shape inference followed by `UpdatePathType` for the shepherd. */
  function UpdateFromNeighbours(p: PathCell, prev: Vec, next: Vec, shepherd: Option<ShepherdId>): (r: PathCell)
    ensures shepherd.Some? && IsOwnedBy(p, shepherd) && InferShape(prev, next) != Empty ==>
      GetPathTypeOwnedBy(r, shepherd) == InferShape(prev, next)
    ensures shepherd.Some? && InferShape(prev, next) == Empty ==> !IsOwnedBy(r, shepherd)
    ensures shepherd.Some? && WellFormed(p) ==> WellFormed(r)
  {
    UpdatePathType(p, shepherd, InferShape(prev, next))
  }

  /**
   * Assigning a fresh shepherd to a well-formed cell and then clearing it
   * gives the cell back.
   */
  lemma AssignThenClear(p: PathCell, s: ShepherdId, t: PathType)
    requires WellFormed(p) && t != Empty && !IsOwnedBy(p, Some(s))
    ensures UpdatePathType(UpdatePathType(p, Some(s), t), Some(s), Empty) == p
  {
  }

  /**
   * A shepherd writing a track shape reads that shape back, whenever it
   * held a lane of the cell or one of the lanes was free.
   */
  lemma UpdatePathTypeReadBack(p: PathCell, s: ShepherdId, t: PathType)
    requires t != Empty
    ensures IsOwnedBy(p, Some(s)) || p.bottom.owner.None? || p.top.owner.None? ==>
      GetPathTypeOwnedBy(UpdatePathType(p, Some(s), t), Some(s)) == t
    ensures !IsOwnedBy(p, Some(s)) && p.bottom.owner.Some? && p.top.owner.Some? ==>
      UpdatePathType(p, Some(s), t) == p
  {
  }
}
