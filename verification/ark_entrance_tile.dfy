/**
 * Ark entrances: path cells where a shepherd's path may end. A door may
 * start a level closed; a closed door is never reset.
 */
module ArkEntrance {
  import opened Optional
  import opened Enums
  import opened PathTiles
  import opened Geometry

  /**
   * `matchIcon` is the match sprite: Some(true) for a matched pair,
   * Some(false) for a mismatch, None when cleared. The shepherd icon is
   * derived from `shepherd` and not kept.
   */
  datatype Entrance = Entrance(
    state: EntranceState,
    startingState: EntranceState,
    shepherd: Option<ShepherdId>,
    matchIcon: Option<bool>)

  /** The door is open and no shepherd's path ends here. */
  predicate IsAvailable(e: Entrance)
  {
    e.state == Opened && e.shepherd.None?
  }

  function CloseDoor(e: Entrance): (r: Entrance)
    ensures r.state == Closed && !IsAvailable(r)
    ensures r.startingState == e.startingState && r.shepherd == e.shepherd && r.matchIcon == e.matchIcon
  {
    e.(state := Closed)
  }

  function OpenDoor(e: Entrance): (r: Entrance)
    ensures r.state == Opened
    ensures IsAvailable(r) <==> e.shepherd.None?
    ensures r.startingState == e.startingState && r.shepherd == e.shepherd && r.matchIcon == e.matchIcon
  {
    e.(state := Opened)
  }

  /**
   * `ResetObject`: a door that started closed is left alone; otherwise the
   * starting state returns and the match icon is cleared, while the
   * assigned shepherd stays.
   */
  function ResetObject(e: Entrance): (r: Entrance)
    ensures e.startingState == Closed ==> r == e
    ensures e.startingState == Opened ==>
      r.state == Opened && r.matchIcon.None? && r.shepherd == e.shepherd && r.startingState == Opened
  {
    if e.startingState == Closed then e
    else e.(state := e.startingState, matchIcon := None)
  }

  /**
   * `ResetSprite` as overridden for entrances, run when the entrance leaves
   * a path: a door that started closed is left alone, otherwise it is
   * unassigned. Its lanes are never touched.
   */
  function ResetSprite(e: Entrance): (r: Entrance)
    ensures e.startingState == Closed ==> r == e
    ensures e.startingState == Opened ==> r == e.(shepherd := None)
    ensures r.state == e.state && r.matchIcon == e.matchIcon
  {
    if e.startingState == Closed then e else e.(shepherd := None)
  }

  /** The path cells of a level: every path tile's lanes, and which of them are entrances. */
  datatype Board = Board(lanes: map<Cell, PathCell>, entrances: map<Cell, Entrance>)

  /**
   * The virtual `ResetSprite(owner)` on the path tile at `c`: an entrance
   * runs its override, any other path tile clears the owner's lanes.
   */
  function ResetTile(b: Board, c: Cell, owner: Option<ShepherdId>): (r: Board)
    ensures r.lanes.Keys == b.lanes.Keys && r.entrances.Keys == b.entrances.Keys
    ensures c in b.entrances ==> r.lanes == b.lanes && r.entrances == b.entrances[c := ResetSprite(b.entrances[c])]
    ensures c !in b.entrances ==> r.entrances == b.entrances
    ensures c !in b.entrances && c in b.lanes && owner.Some? ==> !IsOwnedBy(r.lanes[c], owner)
    ensures forall d :: d in b.lanes && d != c ==> r.lanes[d] == b.lanes[d]
  {
    if c in b.entrances then b.(entrances := b.entrances[c := ResetSprite(b.entrances[c])])
    else if c in b.lanes then b.(lanes := b.lanes[c := UpdatePathType(b.lanes[c], owner, Empty)])
    else b
  }

  /** The lanes of every path cell are well formed. */
  predicate LanesWellFormed(b: Board)
  {
    forall c :: c in b.lanes ==> WellFormed(b.lanes[c])
  }

  /**
   * `ResetSprite(owner)` on each of `cells` in turn; cells that are
   * neither paths nor entrances, and every cell not listed, are untouched.
   */
  function ResetTiles(b: Board, cells: seq<Cell>, owner: Option<ShepherdId>): (r: Board)
    ensures r.lanes.Keys == b.lanes.Keys && r.entrances.Keys == b.entrances.Keys
    ensures forall c :: c in b.lanes && (c !in cells || c in b.entrances) ==> r.lanes[c] == b.lanes[c]
    ensures forall c :: c in b.entrances && c !in cells ==> r.entrances[c] == b.entrances[c]
    decreases |cells|
  {
    if |cells| == 0 then b
    else
      assert forall c :: c in cells ==> c == cells[0] || c in cells[1..];
      ResetTiles(ResetTile(b, cells[0], owner), cells[1..], owner)
  }

  /** After `ResetTiles` the owner holds no lane on any listed cell that is not an entrance. */
  lemma {:induction false} ResetTilesClears(b: Board, cells: seq<Cell>, owner: Option<ShepherdId>)
    requires owner.Some?
    ensures var r := ResetTiles(b, cells, owner);
      forall c :: c in cells && c in b.lanes && c !in b.entrances ==> !IsOwnedBy(r.lanes[c], owner)
    decreases |cells|
  {
    if |cells| > 0 {
      var b' := ResetTile(b, cells[0], owner);
      ResetTilesClears(b', cells[1..], owner);
      var r := ResetTiles(b', cells[1..], owner);
      forall c | c in cells && c in b.lanes && c !in b.entrances ensures !IsOwnedBy(r.lanes[c], owner) {
        if c !in cells[1..] {
          assert c == cells[0];
        }
      }
    }
  }

  /** After `ResetTiles` each listed entrance has been reset once: a second reset changes nothing. */
  lemma {:induction false} ResetTilesResetsEntrances(b: Board, cells: seq<Cell>, owner: Option<ShepherdId>)
    ensures var r := ResetTiles(b, cells, owner);
      forall c :: c in cells && c in b.entrances ==> r.entrances[c] == ResetSprite(b.entrances[c])
    decreases |cells|
  {
    if |cells| > 0 {
      var b' := ResetTile(b, cells[0], owner);
      ResetTilesResetsEntrances(b', cells[1..], owner);
      var r := ResetTiles(b', cells[1..], owner);
      forall c | c in cells && c in b.entrances ensures r.entrances[c] == ResetSprite(b.entrances[c]) {
        if c == cells[0] {
          assert b'.entrances[c] == ResetSprite(b.entrances[c]);
          if c in cells[1..] {
            assert ResetSprite(ResetSprite(b.entrances[c])) == ResetSprite(b.entrances[c]);
          }
        } else {
          assert c in cells[1..];
        }
      }
    }
  }

  /** Resetting tiles for a real owner keeps every lane well formed. */
  lemma {:induction false} ResetTilesWellFormed(b: Board, cells: seq<Cell>, owner: Option<ShepherdId>)
    requires owner.Some? && LanesWellFormed(b)
    ensures LanesWellFormed(ResetTiles(b, cells, owner))
    decreases |cells|
  {
    if |cells| > 0 {
      ResetTilesWellFormed(ResetTile(b, cells[0], owner), cells[1..], owner);
    }
  }
}
