/**
 * What every tile has: a neighbour map keyed by direction, a priority
 * comparison, and the highlight rule for the path tiles around it.
 */
module Tiles {
  import opened Optional
  import opened Geometry
  import opened PathTiles
  import opened ArkEntrance

  /**
   * A tile's neighbour map. A stored `None` is a stored null: a tile on the
   * grid's edge keeps a null entry for each off-grid direction.
   */
  type Neighbors<T> = map<Vec, Option<T>>

  /** `AddNeighbor`: store (or overwrite) the entry for a direction. */
  function AddNeighbor<T>(n: Neighbors<T>, d: Vec, t: Option<T>): (r: Neighbors<T>)
    ensures d in r && r[d] == t
    ensures forall e :: e != d ==> GetNeighbor(r, e) == GetNeighbor(n, e)
    ensures forall e :: e != d && e in n ==> e in r && r[e] == n[e]
    ensures r.Keys == n.Keys + {d}
  {
    n[d := t]
  }

  /** `GetNeighbor`: the stored entry, or null for a direction never stored. */
  function GetNeighbor<T>(n: Neighbors<T>, d: Vec): (r: Option<T>)
    ensures d !in n ==> r.None?
    ensures r.Some? ==> d in n && n[d] == r
  {
    if d in n then n[d] else None
  }

  /** `HasNeighbor`: `t` is stored under some direction. */
  predicate HasNeighbor<T(==)>(n: Neighbors<T>, t: Option<T>): (b: bool)
    ensures b <==> exists d :: d in n && n[d] == t
  {
    t in n.Values
  }

  /**
   * `CompareTo`: -1, 0 or 1 as this tile's priority is below, equal to or
   * above the other's.
   */
  function CompareTo(priority: int, other: int): (r: int)
    ensures r == -1 || r == 0 || r == 1
    ensures r < 0 <==> priority < other
    ensures r > 0 <==> priority > other
  {
    if priority < other then -1 else if priority > other then 1 else 0
  }

  lemma CompareToAntisymmetric(a: int, b: int)
    ensures CompareTo(a, b) == -CompareTo(b, a)
  {
  }

  /**
   * `GetPathNeighbors`: the neighbours that are path tiles (entrances
   * included); without `includeOccupiedDoors`, entrances that are closed or
   * already assigned are left out.
   */
  function PathNeighbors(n: Neighbors<Cell>, b: Board, includeOccupiedDoors: bool): (r: set<Cell>)
    ensures forall c :: c in r <==>
      (Some(c) in n.Values && c in b.lanes &&
       (includeOccupiedDoors || c !in b.entrances || IsAvailable(b.entrances[c])))
  {
    set c | Some(c) in n.Values && c in b.lanes &&
            (includeOccupiedDoors || c !in b.entrances || IsAvailable(b.entrances[c]))
  }

  /**
   * `HighlightNeighbors`: the highlight each path neighbour is given. A
   * neighbour is lit exactly when it is straight-or-empty and not
   * double-booked; unavailable entrances are skipped.
   */
  function HighlightNeighbors(n: Neighbors<Cell>, b: Board): (r: map<Cell, bool>)
    ensures forall c :: c in r <==> c in PathNeighbors(n, b, false)
    ensures forall c :: c in r ==>
      (r[c] <==> IsStraightOrEmpty(b.lanes[c]) && !IsDoubleBooked(b.lanes[c]))
    ensures forall c :: c in b.entrances && !IsAvailable(b.entrances[c]) ==> c !in r
  {
    map c | c in PathNeighbors(n, b, false) ::
      IsStraightOrEmpty(b.lanes[c]) && !IsDoubleBooked(b.lanes[c])
  }

  /** `RemoveHighlightFromNeighbors`: every path neighbour, entrances included, goes dark. */
  function RemoveHighlightFromNeighbors(n: Neighbors<Cell>, b: Board): (r: map<Cell, bool>)
    ensures forall c :: c in r <==> (Some(c) in n.Values && c in b.lanes)
    ensures forall c :: c in r ==> !r[c]
  {
    map c | c in PathNeighbors(n, b, true) :: false
  }
}
