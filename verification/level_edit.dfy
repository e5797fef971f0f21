/**
 * Path drawing in `LevelController`: clicks on shepherds, path tiles and
 * ark entrances while the level is not playing, the redrawing of a path's
 * track shapes, and the mode switches around play.
 */
module LevelEdit {
  import opened Optional
  import opened Enums
  import opened Geometry
  import opened Seqs
  import opened PathTiles
  import opened Animals
  import opened Barrels
  import opened ArkEntrance
  import opened Shepherds
  import opened Levels

  // ------------------------------------------------------------ redrawing

  /**
   * The direction from path tile i back to the tile before it, or to the
   * shepherd for the first tile.
   */
  function PrevDir(s: Shepherd, i: nat): Vec
    requires i < |s.path|
  {
    if i >= 1 then Normalize(Diff(s.path[i - 1], s.path[i])) else Normalize(Diff(s.start, s.path[i]))
  }

  /** The direction from path tile i on to the next one, or Zero for the last tile. */
  function NextDir(s: Shepherd, i: nat): Vec
    requires i < |s.path|
  {
    if i + 1 < |s.path| then Normalize(Diff(s.path[i + 1], s.path[i])) else Zero
  }

  /** The redraw of one cell for path position i: a cross is kept, any other shape is inferred again. */
  function Redraw(p: PathCell, s: Shepherd, i: nat): PathCell
    requires i < |s.path|
  {
    if GetPathTypeOwnedBy(p, Some(s.id)) == Cross then p
    else UpdateFromNeighbours(p, PrevDir(s, i), NextDir(s, i), Some(s.id))
  }

  /** The path positions 0..from, or nothing when `from` is negative. */
  function Upto(s: Shepherd, from: int): seq<Cell>
    requires from < |s.path|
  {
    if from < 0 then [] else s.path[..from + 1]
  }

  /**
   * `UpdatePathSprites`: redraw the path tiles from position `from` down
   * to the first. Cells off that stretch of the path are untouched.
   */
  function UpdatePathSprites(b: Board, s: Shepherd, from: int): (r: Board)
    requires from < |s.path| && PathOnBoard(s, b)
    ensures r.lanes.Keys == b.lanes.Keys && r.entrances == b.entrances
    ensures forall c :: c in b.lanes && c !in Upto(s, from) ==> r.lanes[c] == b.lanes[c]
    decreases from + 1
  {
    if from < 0 then b
    else
      var c := s.path[from];
      var b' := b.(lanes := b.lanes[c := Redraw(b.lanes[c], s, from)]);
      assert forall d :: d in Upto(s, from - 1) ==> d in Upto(s, from);
      UpdatePathSprites(b', s, from - 1)
  }

  /** Redrawing keeps lanes well formed and brings in no owner but the shepherd. */
  lemma {:induction false} SpritesKeepLanes(b: Board, s: Shepherd, from: int, n: nat)
    requires from < |s.path| && PathOnBoard(s, b) && s.id < n
    requires BoardWellFormed(b, n)
    ensures BoardWellFormed(UpdatePathSprites(b, s, from), n)
    decreases from + 1
  {
    if from >= 0 {
      var c := s.path[from];
      var b' := b.(lanes := b.lanes[c := Redraw(b.lanes[c], s, from)]);
      SpritesKeepLanes(b', s, from - 1, n);
    }
  }

  /** Path position j holds a cell met nowhere else among positions 0..from. */
  predicate OnlyVisit(s: Shepherd, from: int, j: nat)
    requires from < |s.path|
  {
    j <= from && forall k :: 0 <= k <= from && k != j ==> s.path[k] != s.path[j]
  }

  /**
   * A cell met only once between position 0 and `from` ends up redrawn
   * from its own neighbours on the path.
   */
  lemma {:induction false} SpritesRedrawOnce(b: Board, s: Shepherd, from: int, j: nat)
    requires from < |s.path| && PathOnBoard(s, b) && OnlyVisit(s, from, j)
    ensures UpdatePathSprites(b, s, from).lanes[s.path[j]] == Redraw(b.lanes[s.path[j]], s, j)
    decreases from + 1
  {
    var c := s.path[from];
    var b' := b.(lanes := b.lanes[c := Redraw(b.lanes[c], s, from)]);
    assert UpdatePathSprites(b, s, from) == UpdatePathSprites(b', s, from - 1);
    if j == from {
      assert c !in Upto(s, from - 1) by {
        if from >= 1 {
          forall d | d in s.path[..from] ensures d != c {
            var k :| 0 <= k < from && s.path[..from][k] == d;
          }
        }
      }
    } else {
      assert s.path[j] != c;
      SpritesRedrawOnce(b', s, from - 1, j);
    }
  }

  /** The redraw leaves a cell alone when the shepherd's lane there is a cross. */
  lemma {:induction false} SpritesKeepCross(b: Board, s: Shepherd, from: int, x: Cell)
    requires from < |s.path| && PathOnBoard(s, b)
    requires x in b.lanes && GetPathTypeOwnedBy(b.lanes[x], Some(s.id)) == Cross
    ensures UpdatePathSprites(b, s, from).lanes[x] == b.lanes[x]
    decreases from + 1
  {
    if from >= 0 {
      var c := s.path[from];
      var b' := b.(lanes := b.lanes[c := Redraw(b.lanes[c], s, from)]);
      SpritesKeepCross(b', s, from - 1, x);
    }
  }

  // ------------------------------------------------------- level updates

  /** Cells other than `cells` keep their lanes. */
  predicate LanesKeptOutside(b: Board, b': Board, cells: seq<Cell>)
  {
    forall d :: d in b.lanes && d !in cells ==> d in b'.lanes && b'.lanes[d] == b.lanes[d]
  }

  /** Everything but the mode, the shepherds and the board is the same. */
  predicate SameSetting(l: Level, r: Level)
  {
    r.current == l.current && r.stage == l.stage
  }

  /**
   * r differs from l at most in the mode (which can only become Drawing),
   * shepherd c, the lanes of `cells`, and which shepherd each entrance
   * records.
   */
  predicate Keeps(l: Level, r: Level, c: ShepherdId, cells: seq<Cell>)
  {
    && SameSetting(l, r)
    && (r.mode == l.mode || r.mode == Drawing)
    && OthersKept(l.shepherds, r.shepherds, c)
    && BoardKept(l.board, r.board, cells)
  }

  /** Only shepherd c may differ. */
  predicate OthersKept(ss: seq<Shepherd>, ss': seq<Shepherd>, c: ShepherdId)
  {
    c < |ss| && |ss'| == |ss| && ss' == ss[c := ss'[c]]
  }

  /**
   * The same path cells and entrances, entrance states unchanged, and
   * lanes off `cells` unchanged.
   */
  predicate BoardKept(b: Board, b': Board, cells: seq<Cell>)
  {
    && b'.lanes.Keys == b.lanes.Keys
    && b'.entrances.Keys == b.entrances.Keys
    && (forall e :: e in b.entrances ==> b'.entrances[e].state == b.entrances[e].state)
    && LanesKeptOutside(b, b', cells)
  }

  lemma KeepsTrans(l: Level, m: Level, r: Level, c: ShepherdId, a: seq<Cell>, b: seq<Cell>, cells: seq<Cell>)
    requires Keeps(l, m, c, a) && Keeps(m, r, c, b)
    requires forall d :: d in a ==> d in cells
    requires forall d :: d in b ==> d in cells
    ensures Keeps(l, r, c, cells)
  {
  }

  /**
   * The mode, shepherd c and the board replaced: a valid level as long as
   * the shepherd keeps its number and place, its path runs over the new
   * board, and the board has the same cells with well-formed lanes.
   */
  lemma ReplaceValid(l: Level, m: LevelMode, c: ShepherdId, s: Shepherd, b: Board)
    requires Valid(l) && c < |l.shepherds|
    requires s.id == c && s.start == l.shepherds[c].start && PathOnBoard(s, b)
    requires b.lanes.Keys == l.board.lanes.Keys && BoardWellFormed(b, |l.shepherds|)
    ensures Valid(l.(mode := m, shepherds := l.shepherds[c := s], board := b))
  {
    var r := l.(mode := m, shepherds := l.shepherds[c := s], board := b);
    forall i | 0 <= i < |r.shepherds| ensures PathOnBoard(r.shepherds[i], b) {
      if i != c {
        assert PathOnBoard(l.shepherds[i], l.board);
      }
    }
  }

  /** Only the mode and the board replaced, with the same cells and well-formed lanes. */
  lemma BoardValid(l: Level, m: LevelMode, b: Board)
    requires Valid(l)
    requires b.lanes.Keys == l.board.lanes.Keys && BoardWellFormed(b, |l.shepherds|)
    ensures Valid(l.(mode := m, board := b))
  {
    forall i | 0 <= i < |l.shepherds| ensures PathOnBoard(l.shepherds[i], b) {
      assert PathOnBoard(l.shepherds[i], l.board);
    }
  }

  /**
   * Cut shepherd c's path back to its first k tiles, resetting the tiles
   * cut off for it. `ResetPath` and `RemovePathTilesFrom` are both this.
   */
  function Retract(l: Level, c: ShepherdId, k: nat): (r: Level)
    requires Valid(l) && c < |l.shepherds| && k <= |l.shepherds[c].path|
    ensures Valid(r) && (AllConnected(l.shepherds) ==> AllConnected(r.shepherds))
    ensures Keeps(l, r, c, l.shepherds[c].path) && r.mode == l.mode
    ensures r.shepherds[c] == l.shepherds[c].(path := l.shepherds[c].path[..k])
    ensures r.board == ResetTiles(l.board, l.shepherds[c].path[k..], Some(c))
  {
    var s := l.shepherds[c];
    var s' := s.(path := s.path[..k]);
    assert AllConnected(l.shepherds) ==> AllConnected(l.shepherds[c := s']) by {
      if AllConnected(l.shepherds) {
        PrefixConnected(s, k);
        UpdateConnected(l.shepherds, c, s');
      }
    }
    var cut := s.path[k..];
    var b := ResetTiles(l.board, cut, Some(c));
    ResetTilesKeepsOwners(l.board, cut, Some(c), |l.shepherds|);
    ResetTilesWellFormed(l.board, cut, Some(c));
    ResetTilesResetsEntrances(l.board, cut, Some(c));
    assert PathOnBoard(s', b) by {
      assert forall d :: d in s'.path ==> d in s.path;
    }
    ReplaceValid(l, l.mode, c, s', b);
    assert LanesKeptOutside(l.board, b, s.path) by {
      assert forall d :: d in cut ==> d in s.path;
    }
    l.(mode := l.mode, shepherds := l.shepherds[c := s'], board := b)
  }

  /** `ResetPath` on shepherd c. */
  function ClearPath(l: Level, c: ShepherdId): (r: Level)
    requires Valid(l) && c < |l.shepherds|
    ensures r == Retract(l, c, 0) && r.shepherds[c].path == []
  {
    var e := ResetPath(l.shepherds[c], l.board);
    assert l.shepherds[c].path[0..] == l.shepherds[c].path;
    l.(shepherds := l.shepherds[c := e.shepherd], board := e.board)
  }

  /** `RemovePathTilesFrom(t)` on shepherd c, for a tile on its path. */
  function RemoveFrom(l: Level, c: ShepherdId, t: Cell): (r: Level)
    requires Valid(l) && c < |l.shepherds| && t in l.shepherds[c].path
    ensures r == Retract(l, c, LastIndexOf(l.shepherds[c].path, t))
  {
    var e := RemovePathTilesFrom(l.shepherds[c], l.board, Some(t));
    l.(shepherds := l.shepherds[c := e.shepherd], board := e.board)
  }

  /** `AddPathTile(t)` on shepherd c. */
  function AddTile(l: Level, c: ShepherdId, t: Cell): (r: Level)
    requires Valid(l) && c < |l.shepherds| && t in l.board.lanes
    ensures Valid(r) && Keeps(l, r, c, []) && r.mode == l.mode && r.board == l.board
    ensures r.shepherds[c] == l.shepherds[c].(path := l.shepherds[c].path + [t])
    ensures AllConnected(l.shepherds) && Joins(l.shepherds[c], t) ==> AllConnected(r.shepherds)
  {
    var s := AddPathTile(l.shepherds[c], Some(t));
    var r := l.(shepherds := l.shepherds[c := s]);
    assert AllConnected(l.shepherds) && Joins(l.shepherds[c], t) ==> AllConnected(r.shepherds) by {
      if AllConnected(l.shepherds) && Joins(l.shepherds[c], t) {
        AppendConnected(l.shepherds[c], t);
        UpdateConnected(l.shepherds, c, s);
      }
    }
    r
  }

  /**
   * `UpdatePathSprites(from)` for shepherd c on the level: only the board
   * changes, and stays well formed.
   */
  function Redrawn(l: Level, c: ShepherdId, from: int): (r: Level)
    requires Valid(l) && c < |l.shepherds| && from < |l.shepherds[c].path|
    ensures Valid(r) && r == l.(board := r.board)
    ensures r.board == UpdatePathSprites(l.board, l.shepherds[c], from)
  {
    var b := UpdatePathSprites(l.board, l.shepherds[c], from);
    SpritesKeepLanes(l.board, l.shepherds[c], from, |l.shepherds|);
    BoardValid(l, l.mode, b);
    l.(board := b)
  }

  /**
   * The common ending of a path-tile click: back to drawing mode and the
   * whole path of shepherd c redrawn.
   */
  function Finish(l: Level, c: ShepherdId): (r: Level)
    requires Valid(l) && c < |l.shepherds|
    ensures Valid(r) && (AllConnected(l.shepherds) ==> AllConnected(r.shepherds))
    ensures Keeps(l, r, c, l.shepherds[c].path) && r.mode == Drawing
    ensures r.shepherds == l.shepherds && r.board.entrances == l.board.entrances
    ensures r.board == UpdatePathSprites(l.board, l.shepherds[c], |l.shepherds[c].path| - 1)
  {
    var s := l.shepherds[c];
    var r := Redrawn(l.(mode := Drawing), c, |s.path| - 1);
    assert r.shepherds == l.shepherds && OthersKept(l.shepherds, r.shepherds, c);
    assert BoardKept(l.board, r.board, s.path) by {
      assert forall d :: d in Upto(s, |s.path| - 1) ==> d in s.path;
    }
    r
  }

  /** Extend shepherd c's path by `t` and redraw it. */
  function AddAndFinish(l: Level, c: ShepherdId, t: Cell): (r: Level)
    requires Valid(l) && c < |l.shepherds| && t in l.board.lanes
    ensures Valid(r) && Keeps(l, r, c, l.shepherds[c].path + [t]) && r.mode == Drawing
    ensures r.shepherds[c].path == l.shepherds[c].path + [t]
    ensures AllConnected(l.shepherds) && Joins(l.shepherds[c], t) ==> AllConnected(r.shepherds)
    // a tile shepherd c already crosses keeps its lanes
    ensures GetPathTypeOwnedBy(l.board.lanes[t], Some(c)) == Cross ==> r.board.lanes[t] == l.board.lanes[t]
  {
    var m := AddTile(l, c, t);
    var r := Finish(m, c);
    assert GetPathTypeOwnedBy(l.board.lanes[t], Some(c)) == Cross ==> r.board.lanes[t] == l.board.lanes[t] by {
      if GetPathTypeOwnedBy(l.board.lanes[t], Some(c)) == Cross {
        SpritesKeepCross(m.board, m.shepherds[c], |m.shepherds[c].path| - 1, t);
      }
    }
    KeepsTrans(l, m, r, c, [], m.shepherds[c].path, l.shepherds[c].path + [t]);
    r
  }

  /** Cut shepherd c's path back to k tiles and redraw it. */
  function RetractAndFinish(l: Level, c: ShepherdId, k: nat): (r: Level)
    requires Valid(l) && c < |l.shepherds| && k <= |l.shepherds[c].path|
    ensures Valid(r) && (AllConnected(l.shepherds) ==> AllConnected(r.shepherds))
    ensures Keeps(l, r, c, l.shepherds[c].path) && r.mode == Drawing
    ensures r.shepherds[c].path == l.shepherds[c].path[..k]
  {
    var m := Retract(l, c, k);
    var r := Finish(m, c);
    assert forall d :: d in m.shepherds[c].path ==> d in l.shepherds[c].path;
    KeepsTrans(l, m, r, c, l.shepherds[c].path, m.shepherds[c].path, l.shepherds[c].path);
    r
  }

  /**
   * A self-crossing: the tile's lane for shepherd c becomes a cross, the
   * tile is added again and the path redrawn.
   */
  function CrossOver(l: Level, c: ShepherdId, t: Cell): (r: Level)
    requires Valid(l) && c < |l.shepherds| && t in l.shepherds[c].path
    ensures Valid(r) && Keeps(l, r, c, l.shepherds[c].path) && r.mode == Drawing
    ensures r.shepherds[c].path == l.shepherds[c].path + [t]
    ensures AllConnected(l.shepherds) && Adjacent(l.shepherds[c].path[|l.shepherds[c].path| - 1], t) ==> AllConnected(r.shepherds)
    // the lane at t becomes a cross, unless two other shepherds hold the cell
    ensures var p := l.board.lanes[t];
      IsOwnedBy(p, Some(c)) || p.bottom.owner.None? || p.top.owner.None? ==>
        GetPathTypeOwnedBy(r.board.lanes[t], Some(c)) == Cross
  {
    UpdatePathTypeReadBack(l.board.lanes[t], c, Cross);
    var lanes := l.board.lanes[t := UpdatePathType(l.board.lanes[t], Some(c), Cross)];
    var l1 := l.(board := l.board.(lanes := lanes));
    BoardValid(l, l.mode, l1.board);
    assert Keeps(l, l1, c, l.shepherds[c].path);
    assert Adjacent(l.shepherds[c].path[|l.shepherds[c].path| - 1], t) ==> Joins(l1.shepherds[c], t);
    assert forall d :: d in l.shepherds[c].path + [t] ==> d in l.shepherds[c].path;
    var r := AddAndFinish(l1, c, t);
    KeepsTrans(l, l1, r, c, l.shepherds[c].path, l.shepherds[c].path + [t], l.shepherds[c].path);
    r
  }

  // ------------------------------------------------------------- clicks

  /**
   * `OnShepheredTileClicked`: outside play and before game over the
   * shepherd becomes the current one, a one-tile path is cleared, and the
   * level enters drawing mode.
   */
  function ShepherdClicked(l: Level, s: ShepherdId): (r: Level)
    requires Valid(l) && s < |l.shepherds|
    ensures Valid(r) && (AllConnected(l.shepherds) ==> AllConnected(r.shepherds))
    ensures l.mode == Playing || l.stage.gameOver ==> r == l
    ensures l.mode != Playing && !l.stage.gameOver ==>
      && r.current == Some(s) && r.mode == Drawing
      && Keeps(l.(current := Some(s)), r, s, l.shepherds[s].path)
      && (|l.shepherds[s].path| == 1 ==> r.shepherds[s].path == [])
      && (|l.shepherds[s].path| != 1 ==> r.shepherds == l.shepherds && r.board == l.board)
  {
    if l.mode == Playing || l.stage.gameOver then l
    else
      var l1 := l.(current := Some(s));
      var l2 := if |l.shepherds[s].path| == 1 then ClearPath(l1, s) else l1;
      l2.(mode := Drawing)
  }

  /** Everything `OnArkEntanceTileClicked` demands before it takes an entrance. */
  predicate EntranceAccepts(l: Level, tile: Cell)
    requires Valid(l) && tile in l.board.entrances
  {
    && l.mode != Playing
    && l.board.entrances[tile].state == Opened
    && l.board.entrances[tile].shepherd.None?
    && l.current.Some?
    && |l.shepherds[l.current.value].path| > 0
    && !LastTileIsEntrance(l.shepherds[l.current.value], l.board.entrances)
    && Adjacent(tile, l.shepherds[l.current.value].path[|l.shepherds[l.current.value].path| - 1])
  }

  /**
   * The accepting end of `OnArkEntanceTileClicked`: edit mode, the
   * entrance appended to shepherd c's path and assigned to it, and the
   * path before the entrance redrawn.
   */
  function TakeEntrance(l: Level, c: ShepherdId, tile: Cell): (r: Level)
    requires Valid(l) && c < |l.shepherds| && tile in l.board.entrances && |l.shepherds[c].path| > 0
    requires Adjacent(tile, l.shepherds[c].path[|l.shepherds[c].path| - 1])
    ensures Valid(r) && (AllConnected(l.shepherds) ==> AllConnected(r.shepherds))
    ensures r.current == l.current && r.mode == LevelMode.Edit && |r.shepherds| == |l.shepherds|
    ensures r.shepherds[c].path == l.shepherds[c].path + [tile]
    ensures r.shepherds == l.shepherds[c := r.shepherds[c]]
    ensures r.board.entrances == l.board.entrances[tile := l.board.entrances[tile].(shepherd := Some(c))]
    ensures LanesKeptOutside(l.board, r.board, l.shepherds[c].path)
  {
    var p := l.shepherds[c].path;
    AdjacentSymmetric(tile, p[|p| - 1]);
    var s := AddPathTile(l.shepherds[c], Some(tile));
    var e := l.board.entrances[tile];
    var b1 := l.board.(entrances := l.board.entrances[tile := e.(shepherd := Some(c))]);
    assert Upto(s, |s.path| - 2) == p;
    assert PathOnBoard(s, b1);
    assert AllConnected(l.shepherds) ==> AllConnected(l.shepherds[c := s]) by {
      if AllConnected(l.shepherds) {
        AppendConnected(l.shepherds[c], tile);
        UpdateConnected(l.shepherds, c, s);
      }
    }
    ReplaceValid(l, LevelMode.Edit, c, s, b1);
    Redrawn(l.(mode := LevelMode.Edit, shepherds := l.shepherds[c := s], board := b1), c, |s.path| - 2)
  }

  /**
   * `OnArkEntanceTileClicked`: an open, unassigned entrance next to the
   * tail of the current shepherd's path (a tail that is not itself an
   * entrance) ends that path; the entrance records the shepherd and the
   * level returns to edit mode. Any other click changes nothing.
   */
  function EntranceClicked(l: Level, tile: Cell): (r: Level)
    requires Valid(l) && tile in l.board.entrances
    ensures Valid(r) && (AllConnected(l.shepherds) ==> AllConnected(r.shepherds))
    ensures !EntranceAccepts(l, tile) ==> r == l
    ensures EntranceAccepts(l, tile) ==>
      var c := l.current.value;
      && r.current == l.current && r.mode == LevelMode.Edit
      && r.shepherds[c].path == l.shepherds[c].path + [tile]
      && r.shepherds == l.shepherds[c := r.shepherds[c]]
      && LastTileIsEntrance(r.shepherds[c], r.board.entrances)
      && r.board.entrances == l.board.entrances[tile := l.board.entrances[tile].(shepherd := Some(c))]
      && LanesKeptOutside(l.board, r.board, l.shepherds[c].path)
  {
    var e := l.board.entrances[tile];
    if l.mode == Playing || e.state == Closed then l
    else if e.shepherd.Some? then l
    else if l.current.None? then l
    else
      var c := l.current.value;
      var last := LastOrNone(l.shepherds[c].path);
      if last.None? then l
      else if last.value in l.board.entrances then l
      else if !Adjacent(tile, last.value) then l
      else
        TakeEntrance(l, c, tile)
  }

  /**
   * `IsMovementFromCrossOverAllowed`, and the same checks inline in
   * `OnPathTileClicked`: stepping onto a tile of another shepherd, which
   * must not be that shepherd's last tile, must not already be crossed,
   * and must be straight for that shepherd; when the current path is not
   * empty the tile must touch its tail, and a tail that is itself a
   * crossing may only be left straight on. `Path.Last()` on an empty path
   * throws, which is read as a refusal.
   */
  predicate CrossAllowed(l: Level, cur: ShepherdId, owner: ShepherdId, tile: Cell)
    requires Valid(l) && cur < |l.shepherds| && owner < |l.shepherds| && tile in l.board.lanes
  {
    var op := l.shepherds[owner].path;
    var cp := l.shepherds[cur].path;
    && |op| > 0
    && op[|op| - 1] != tile
    && !IsDoubleBooked(l.board.lanes[tile])
    && IsOwnedStraight(l.board.lanes[tile], Some(owner))
    && (|cp| > 0 ==>
      var fin := cp[|cp| - 1];
      && Adjacent(tile, fin)
      && (IsDoubleBooked(l.board.lanes[fin]) ==>
        Diff(fin, tile) == (if |cp| > 1 then Diff(cp[|cp| - 2], fin) else Diff(l.shepherds[cur].start, fin))))
  }

  /** The corrected removal behind an earlier tile: the path ends at that tile. */
  function TruncateAfter(l: Level, c: ShepherdId, ti: nat): (r: Level)
    requires Valid(l) && c < |l.shepherds| && ti < |l.shepherds[c].path|
    ensures r == RetractAndFinish(l, c, ti + 1)
    ensures LastOrNone(r.shepherds[c].path) == Some(l.shepherds[c].path[ti])
  {
    RetractAndFinish(l, c, ti + 1)
  }

  /**
   * The removal behind an earlier tile as `OnPathTileClicked` writes it:
   * `RemovePathTilesFrom(Path[tileIndex + 1])`, which cuts at the LAST
   * visit of the following tile.
   */
  function TruncateAfterAsWritten(l: Level, c: ShepherdId, ti: nat): (r: Level)
    requires Valid(l) && c < |l.shepherds| && ti + 1 < |l.shepherds[c].path|
    ensures r == RetractAndFinish(l, c, LastIndexOf(l.shepherds[c].path, l.shepherds[c].path[ti + 1]))
  {
    Finish(RemoveFrom(l, c, l.shepherds[c].path[ti + 1]), c)
  }

  /**
   * On a path that crosses back over the tile after the clicked one, the
   * removal as written keeps tiles past the clicked tile, where the
   * corrected removal ends the path exactly at it.
   */
  lemma TruncateAsWrittenKeepsTooMuch(l: Level, c: ShepherdId, ti: nat)
    requires Valid(l) && c < |l.shepherds| && ti + 1 < |l.shepherds[c].path|
    requires l.shepherds[c].path[ti + 1] in l.shepherds[c].path[ti + 2..]
    ensures |TruncateAfterAsWritten(l, c, ti).shepherds[c].path| > ti + 1
    ensures |TruncateAfter(l, c, ti).shepherds[c].path| == ti + 1
  {
    var p := l.shepherds[c].path;
    var j :| 0 <= j < |p[ti + 2..]| && p[ti + 2..][j] == p[ti + 1];
    assert p[ti + 2 + j] == p[ti + 1];
    var k := LastIndexOf(p, p[ti + 1]);
    assert k >= ti + 2 + j;
    var r := RetractAndFinish(l, c, k);
    assert TruncateAfterAsWritten(l, c, ti) == r;
    assert r.shepherds[c].path == p[..k];
  }

  /**
   * The removal as written and the corrected removal agree exactly when
   * the path does not come back to the tile after the clicked one.
   */
  lemma TruncateAgreeIff(l: Level, c: ShepherdId, ti: nat)
    requires Valid(l) && c < |l.shepherds| && ti + 1 < |l.shepherds[c].path|
    ensures TruncateAfterAsWritten(l, c, ti) == TruncateAfter(l, c, ti) <==>
      l.shepherds[c].path[ti + 1] !in l.shepherds[c].path[ti + 2..]
  {
    var p := l.shepherds[c].path;
    if p[ti + 1] in p[ti + 2..] {
      TruncateAsWrittenKeepsTooMuch(l, c, ti);
    }
  }

  /**
   * A tile next to the shepherd but away from the tail starts the path
   * afresh: the path is reset, and the tile becomes its first tile unless
   * the old tail was an entrance.
   */
  function Restart(l: Level, c: ShepherdId, tile: Cell, lastWasEntrance: bool): (r: Level)
    requires Valid(l) && c < |l.shepherds| && tile in l.board.lanes && Adjacent(l.shepherds[c].start, tile)
    ensures Valid(r) && (AllConnected(l.shepherds) ==> AllConnected(r.shepherds))
    ensures Keeps(l, r, c, l.shepherds[c].path + [tile])
    ensures r.shepherds[c].path == (if lastWasEntrance then [] else [tile])
    ensures r.mode == (if lastWasEntrance then l.mode else Drawing)
  {
    var s := l.shepherds[c];
    var l1 := ClearPath(l, c);
    KeepsTrans(l, l1, l1, c, s.path, [], s.path + [tile]);
    if lastWasEntrance then l1
    else
      var r := AddAndFinish(l1, c, tile);
      KeepsTrans(l, l1, r, c, s.path, [tile], s.path + [tile]);
      r
  }

  /**
   * A tile off shepherd c's path continues it: it touches the shepherd
   * when the path is empty, or touches the tail, which is not an entrance.
   */
  predicate Appends(l: Level, c: ShepherdId, tile: Cell)
    requires c < |l.shepherds|
  {
    var p := l.shepherds[c].path;
    if |p| == 0 then Adjacent(l.shepherds[c].start, tile)
    else Adjacent(p[|p| - 1], tile) && p[|p| - 1] !in l.board.entrances
  }

  /** A tile off shepherd c's path touches the shepherd but not the tail. */
  predicate Restarts(l: Level, c: ShepherdId, tile: Cell)
    requires c < |l.shepherds|
  {
    var p := l.shepherds[c].path;
    |p| > 0 && !Adjacent(p[|p| - 1], tile) && Adjacent(l.shepherds[c].start, tile)
  }

  /**
   * `OnPathTileClicked` for a tile not on shepherd c's path: the tile is
   * appended when it continues the path; a tile that touches only the
   * shepherd starts the path afresh (and an entrance tail leaves it
   * empty); any other tile is refused.
   */
  function Extend(l: Level, c: ShepherdId, tile: Cell): (r: Level)
    requires Valid(l) && c < |l.shepherds| && tile in l.board.lanes && tile !in l.shepherds[c].path
    ensures Valid(r) && (AllConnected(l.shepherds) ==> AllConnected(r.shepherds))
    ensures Keeps(l, r, c, l.shepherds[c].path + [tile])
    ensures r.shepherds[c].path in [l.shepherds[c].path, l.shepherds[c].path + [tile], [], [tile]]
    ensures Appends(l, c, tile) ==> r.shepherds[c].path == l.shepherds[c].path + [tile] && r.mode == Drawing
    ensures Restarts(l, c, tile) ==>
      var p := l.shepherds[c].path;
      var entrance := p[|p| - 1] in l.board.entrances;
      && r.shepherds[c].path == (if entrance then [] else [tile])
      && r.mode == (if entrance then l.mode else Drawing)
    ensures !Appends(l, c, tile) && !Restarts(l, c, tile) ==> r == l
    ensures r.shepherds[c].path == l.shepherds[c].path + [tile] <==> Appends(l, c, tile)
  {
    var s := l.shepherds[c];
    assert Keeps(l, l, c, s.path + [tile]);
    if |s.path| == 0 then
      if !Adjacent(s.start, tile) then l
      else AddAndFinish(l, c, tile)
    else
      var last := s.path[|s.path| - 1];
      if !Adjacent(last, tile) then
        if !Adjacent(s.start, tile) then l
        else Restart(l, c, tile, last in l.board.entrances)
      else if last in l.board.entrances then l
      else AddAndFinish(l, c, tile)
  }

  /**
   * Crossing back over tile from the tail of shepherd c's path is refused
   * when c's own track there is a corner, or when the tail is already a
   * crossing and the new step turns away from the step onto it.
   */
  predicate CrossRefused(l: Level, c: ShepherdId, tile: Cell)
    requires Valid(l) && c < |l.shepherds| && tile in l.board.lanes && |l.shepherds[c].path| >= 2
  {
    var p := l.shepherds[c].path;
    var last := p[|p| - 1];
    var lanes := l.board.lanes;
    || (GetPathTypeOwnedBy(lanes[tile], Some(c)) != Empty && !IsOwnedStraight(lanes[tile], Some(c)))
    || (GetPathTypeOwnedBy(lanes[last], Some(c)) == Cross
        && Normalize(Diff(last, p[|p| - 2])) != Normalize(Diff(tile, last)))
  }

  /**
   * `OnPathTileClicked` for a tile on shepherd c's path other than the
   * tail: the tile before the tail takes the tail off; in edit mode a tile
   * away from the tail cuts the path back to it (the corrected removal, see
   * `TruncateAfter`), and outside edit mode nothing happens; a tile next to
   * the tail is crossed again unless `CrossRefused`.
   */
  function Retreat(l: Level, c: ShepherdId, tile: Cell): (r: Level)
    requires Valid(l) && c < |l.shepherds| && tile in l.shepherds[c].path
    requires tile != l.shepherds[c].path[|l.shepherds[c].path| - 1]
    ensures Valid(r) && (AllConnected(l.shepherds) ==> AllConnected(r.shepherds))
    ensures Keeps(l, r, c, l.shepherds[c].path)
  {
    var s := l.shepherds[c];
    var li := |s.path| - 1;
    var last := s.path[li];
    var ti := LastIndexOf(s.path, tile);
    if tile == s.path[li - 1] then
      RetractAndFinish(l, c, LastIndexOf(s.path, s.path[ti + 1]))
    else if !Adjacent(last, tile) then
      if l.mode != LevelMode.Edit then l
      else TruncateAfter(l, c, ti)
    else if CrossRefused(l, c, tile) then l
    else CrossOver(l, c, tile)
  }

  /** Which branch of `Retreat` a click on the tile before the tail takes. */
  lemma RetreatBeforeTailBranch(l: Level, c: ShepherdId, tile: Cell)
    requires Valid(l) && c < |l.shepherds| && tile in l.shepherds[c].path
    requires tile != l.shepherds[c].path[|l.shepherds[c].path| - 1]
    requires tile == l.shepherds[c].path[|l.shepherds[c].path| - 2]
    ensures Retreat(l, c, tile) == RetractAndFinish(l, c, |l.shepherds[c].path| - 1)
  {
    var p := l.shepherds[c].path;
    RetreatFirstBranch(l, c, tile);
    LastIndexOfBeforeLast(p);
  }

  /** The first branch of `Retreat`, the cut as written behind the clicked tile. */
  lemma RetreatFirstBranch(l: Level, c: ShepherdId, tile: Cell)
    requires Valid(l) && c < |l.shepherds| && tile in l.shepherds[c].path
    requires tile != l.shepherds[c].path[|l.shepherds[c].path| - 1]
    requires tile == l.shepherds[c].path[|l.shepherds[c].path| - 1 - 1]
    ensures var p := l.shepherds[c].path;
      Retreat(l, c, tile) == RetractAndFinish(l, c, LastIndexOf(p, p[LastIndexOf(p, tile) + 1]))
  {
    var s := l.shepherds[c];
    var li := |s.path| - 1;
    assert tile == s.path[li - 1];
  }

  /** Which branch of `Retreat` a click on a far tile takes in edit mode. */
  lemma RetreatFarBranch(l: Level, c: ShepherdId, tile: Cell)
    requires Valid(l) && c < |l.shepherds| && tile in l.shepherds[c].path
    requires tile != l.shepherds[c].path[|l.shepherds[c].path| - 1]
    requires var p := l.shepherds[c].path;
      tile != p[|p| - 2] && !Adjacent(p[|p| - 1], tile)
    requires l.mode == LevelMode.Edit
    ensures Retreat(l, c, tile) == TruncateAfter(l, c, LastIndexOf(l.shepherds[c].path, tile))
  {
    var s := l.shepherds[c];
    var li := |s.path| - 1;
    assert tile != s.path[li - 1];
    assert !Adjacent(s.path[li], tile);
  }

  /** Which branch of `Retreat` a click on a tile next to the tail takes. */
  lemma RetreatNearBranch(l: Level, c: ShepherdId, tile: Cell)
    requires Valid(l) && c < |l.shepherds| && tile in l.shepherds[c].path
    requires tile != l.shepherds[c].path[|l.shepherds[c].path| - 1]
    requires var p := l.shepherds[c].path;
      tile != p[|p| - 2] && Adjacent(p[|p| - 1], tile)
    ensures Retreat(l, c, tile) == if CrossRefused(l, c, tile) then l else CrossOver(l, c, tile)
  {
    var s := l.shepherds[c];
    var li := |s.path| - 1;
    assert tile != s.path[li - 1];
    assert Adjacent(s.path[li], tile);
  }

  /** Clicking the tile before the tail takes the tail off. */
  lemma RetreatDropsTail(l: Level, c: ShepherdId, tile: Cell, r: Level)
    requires Valid(l) && c < |l.shepherds| && tile in l.shepherds[c].path
    requires tile != l.shepherds[c].path[|l.shepherds[c].path| - 1]
    requires r == Retreat(l, c, tile)
    requires tile == l.shepherds[c].path[|l.shepherds[c].path| - 2]
    ensures var p := l.shepherds[c].path;
      r.shepherds[c].path == p[..|p| - 1] && r.mode == Drawing
  {
    RetreatBeforeTailBranch(l, c, tile);
  }

  /** Outside edit mode, clicking a tile away from the tail does nothing. */
  lemma RetreatIgnoresFarTile(l: Level, c: ShepherdId, tile: Cell, r: Level)
    requires Valid(l) && c < |l.shepherds| && tile in l.shepherds[c].path
    requires tile != l.shepherds[c].path[|l.shepherds[c].path| - 1]
    requires r == Retreat(l, c, tile)
    requires var p := l.shepherds[c].path;
      tile != p[|p| - 2] && !Adjacent(p[|p| - 1], tile)
    requires l.mode != LevelMode.Edit
    ensures r == l
  {
    var s := l.shepherds[c];
    var li := |s.path| - 1;
    assert tile != s.path[li - 1];
    assert !Adjacent(s.path[li], tile);
  }

  /** In edit mode, clicking a tile away from the tail cuts the path back to end at it. */
  lemma RetreatCutsBack(l: Level, c: ShepherdId, tile: Cell, r: Level)
    requires Valid(l) && c < |l.shepherds| && tile in l.shepherds[c].path
    requires tile != l.shepherds[c].path[|l.shepherds[c].path| - 1]
    requires r == Retreat(l, c, tile)
    requires var p := l.shepherds[c].path;
      tile != p[|p| - 2] && !Adjacent(p[|p| - 1], tile)
    requires l.mode == LevelMode.Edit
    ensures var p := l.shepherds[c].path;
      r.shepherds[c].path == p[..LastIndexOf(p, tile) + 1] && r.mode == Drawing
  {
    RetreatFarBranch(l, c, tile);
  }

  /** Clicking a tile next to the tail crosses it again unless refused. */
  lemma RetreatCrosses(l: Level, c: ShepherdId, tile: Cell, r: Level)
    requires Valid(l) && c < |l.shepherds| && tile in l.shepherds[c].path
    requires tile != l.shepherds[c].path[|l.shepherds[c].path| - 1]
    requires r == Retreat(l, c, tile)
    requires var p := l.shepherds[c].path;
      tile != p[|p| - 2] && Adjacent(p[|p| - 1], tile)
    ensures CrossRefused(l, c, tile) ==> r == l
    ensures !CrossRefused(l, c, tile) ==>
      r.shepherds[c].path == l.shepherds[c].path + [tile] && r.mode == Drawing
    ensures var p := l.board.lanes[tile];
      !CrossRefused(l, c, tile) && (IsOwnedBy(p, Some(c)) || p.bottom.owner.None? || p.top.owner.None?) ==>
        GetPathTypeOwnedBy(r.board.lanes[tile], Some(c)) == Cross
  {
    RetreatNearBranch(l, c, tile);
  }

  /**
   * The part of `OnPathTileClicked` after the current shepherd c is
   * settled: re-engage drawing on the tail, extend the path, or go back
   * along it.
   */
  function DrawFrom(l: Level, c: ShepherdId, tile: Cell): (r: Level)
    requires Valid(l) && c < |l.shepherds| && tile in l.board.lanes
    ensures Valid(r) && (AllConnected(l.shepherds) ==> AllConnected(r.shepherds))
    ensures Keeps(l, r, c, l.shepherds[c].path + [tile])
    ensures LastOrNone(l.shepherds[c].path) == Some(tile) ==> r == l.(mode := Drawing)
    ensures tile !in l.shepherds[c].path ==> r == Extend(l, c, tile)
    ensures tile in l.shepherds[c].path && LastOrNone(l.shepherds[c].path) != Some(tile) ==>
      r == Retreat(l, c, tile)
  {
    var s := l.shepherds[c];
    if LastOrNone(s.path) == Some(tile) then l.(mode := Drawing)
    else if tile !in s.path then Extend(l, c, tile)
    else
      var r := Retreat(l, c, tile);
      KeepsTrans(l, r, r, c, s.path, [], s.path + [tile]);
      r
  }

  /** Another shepherd becomes the current one. */
  lemma SwitchValid(l: Level, c: ShepherdId)
    requires Valid(l) && c < |l.shepherds|
    ensures Valid(l.(current := Some(c)))
  {
  }

  /**
   * `OnPathTileClicked` on a tile owned by a shepherd other than the
   * current one, cur: in edit mode, away from cur's tail, it switches to
   * the owner; otherwise the crossing checks decide whether cur draws.
   */
  function ClickOthersTile(l: Level, cur: ShepherdId, owner: ShepherdId, tile: Cell): (r: Level)
    requires Valid(l) && l.current == Some(cur) && owner < |l.shepherds| && tile in l.board.lanes
    requires IsOwnedBy(l.board.lanes[tile], Some(owner))
    ensures Valid(r) && (AllConnected(l.shepherds) ==> AllConnected(r.shepherds))
    ensures r.current == Some(cur) || (r.current == Some(owner) && l.mode == LevelMode.Edit)
    ensures r.current.Some? && Keeps(l.(current := r.current), r, r.current.value,
      l.shepherds[r.current.value].path + [tile])
  {
    var last := LastOrNone(l.shepherds[cur].path);
    if l.mode == LevelMode.Edit && last.Some? && !Adjacent(last.value, tile) then
      SwitchValid(l, owner);
      DrawFrom(l.(current := Some(owner)), owner, tile)
    else if !CrossAllowed(l, cur, owner, tile) then
      assert Keeps(l, l, cur, []);
      l
    else DrawFrom(l, cur, tile)
  }

  /**
   * The checks on another shepherd's tile, one by one. In edit mode, away
   * from cur's tail, the click switches to the owner. Otherwise each
   * failed check leaves the level as it was: the tile ends the owner's
   * path (or that path is empty), it is double-booked, the owner's track
   * there is not straight, it does not touch cur's tail, or cur's tail is
   * a crossing and the step onto the tile turns. Passing them all lets
   * cur draw onto the tile.
   */
  lemma ClickOthersTileChecks(l: Level, cur: ShepherdId, owner: ShepherdId, tile: Cell, r: Level)
    requires Valid(l) && l.current == Some(cur) && owner < |l.shepherds| && tile in l.board.lanes
    requires IsOwnedBy(l.board.lanes[tile], Some(owner))
    requires r == ClickOthersTile(l, cur, owner, tile)
    ensures var cp := l.shepherds[cur].path;
      l.mode == LevelMode.Edit && |cp| > 0 && !Adjacent(cp[|cp| - 1], tile) ==>
        r == DrawFrom(l.(current := Some(owner)), owner, tile)
    ensures var cp := l.shepherds[cur].path;
      var op := l.shepherds[owner].path;
      var lanes := l.board.lanes;
      !(l.mode == LevelMode.Edit && |cp| > 0 && !Adjacent(cp[|cp| - 1], tile)) ==>
        && ((|op| == 0 || op[|op| - 1] == tile) ==> r == l)
        && (IsDoubleBooked(lanes[tile]) ==> r == l)
        && (!IsOwnedStraight(lanes[tile], Some(owner)) ==> r == l)
        && (|cp| > 0 && !Adjacent(tile, cp[|cp| - 1]) ==> r == l)
        && ((|cp| > 1 && IsDoubleBooked(lanes[cp[|cp| - 1]])
             && Diff(cp[|cp| - 1], tile) != Diff(cp[|cp| - 2], cp[|cp| - 1])) ==> r == l)
        && ((|cp| == 1 && IsDoubleBooked(lanes[cp[0]])
             && Diff(cp[0], tile) != Diff(l.shepherds[cur].start, cp[0])) ==> r == l)
        && (CrossAllowed(l, cur, owner, tile) ==> r == DrawFrom(l, cur, tile))
  {
    var cp := l.shepherds[cur].path;
    if l.mode == LevelMode.Edit && |cp| > 0 && !Adjacent(cp[|cp| - 1], tile) {
      ClickOthersTileSwitchBranch(l, cur, owner, tile);
    } else {
      ClickOthersTileCheckBranch(l, cur, owner, tile);
      CrossAllowedChecks(l, cur, owner, tile);
    }
  }

  /** Each failed check on its own refuses the crossing. */
  lemma CrossAllowedChecks(l: Level, cur: ShepherdId, owner: ShepherdId, tile: Cell)
    requires Valid(l) && cur < |l.shepherds| && owner < |l.shepherds| && tile in l.board.lanes
    ensures var cp := l.shepherds[cur].path;
      var op := l.shepherds[owner].path;
      var lanes := l.board.lanes;
      CrossAllowed(l, cur, owner, tile) ==>
        && |op| > 0 && op[|op| - 1] != tile
        && !IsDoubleBooked(lanes[tile])
        && IsOwnedStraight(lanes[tile], Some(owner))
        && (|cp| > 0 ==> Adjacent(tile, cp[|cp| - 1]))
        && (|cp| > 1 && IsDoubleBooked(lanes[cp[|cp| - 1]]) ==>
              Diff(cp[|cp| - 1], tile) == Diff(cp[|cp| - 2], cp[|cp| - 1]))
        && (|cp| == 1 && IsDoubleBooked(lanes[cp[0]]) ==>
              Diff(cp[0], tile) == Diff(l.shepherds[cur].start, cp[0]))
  {
  }

  /** Which branch of `ClickOthersTile` a click away from cur's tail takes in edit mode. */
  lemma ClickOthersTileSwitchBranch(l: Level, cur: ShepherdId, owner: ShepherdId, tile: Cell)
    requires Valid(l) && l.current == Some(cur) && owner < |l.shepherds| && tile in l.board.lanes
    requires IsOwnedBy(l.board.lanes[tile], Some(owner))
    requires var cp := l.shepherds[cur].path;
      l.mode == LevelMode.Edit && |cp| > 0 && !Adjacent(cp[|cp| - 1], tile)
    ensures ClickOthersTile(l, cur, owner, tile) == DrawFrom(l.(current := Some(owner)), owner, tile)
  {
    var last := LastOrNone(l.shepherds[cur].path);
    assert l.mode == LevelMode.Edit && last.Some? && !Adjacent(last.value, tile);
  }

  /** Which branch of `ClickOthersTile` any other click takes. */
  lemma ClickOthersTileCheckBranch(l: Level, cur: ShepherdId, owner: ShepherdId, tile: Cell)
    requires Valid(l) && l.current == Some(cur) && owner < |l.shepherds| && tile in l.board.lanes
    requires IsOwnedBy(l.board.lanes[tile], Some(owner))
    requires var cp := l.shepherds[cur].path;
      !(l.mode == LevelMode.Edit && |cp| > 0 && !Adjacent(cp[|cp| - 1], tile))
    ensures ClickOthersTile(l, cur, owner, tile) ==
      if CrossAllowed(l, cur, owner, tile) then DrawFrom(l, cur, tile) else l
  {
    var last := LastOrNone(l.shepherds[cur].path);
    assert !(l.mode == LevelMode.Edit && last.Some? && !Adjacent(last.value, tile));
  }

  /**
   * `OnPathTileClicked`. Outside play, the tile's owner (the current
   * shepherd first) becomes current when there is none. A click on
   * another shepherd's tile away from the tail in edit mode switches to
   * that shepherd; otherwise it must pass the crossing checks. The current
   * shepherd then draws. Only that shepherd's path, the lanes along it and
   * the clicked tile can change.
   */
  function PathTileClicked(l: Level, tile: Cell): (r: Level)
    requires Valid(l) && tile in l.board.lanes
    ensures Valid(r) && (AllConnected(l.shepherds) ==> AllConnected(r.shepherds))
    ensures l.mode == Playing ==> r == l
    ensures r.current.None? ==> r == l
    ensures |r.shepherds| == |l.shepherds|
    ensures l.current.Some? && r.current != l.current ==>
      l.mode == LevelMode.Edit && r.current.Some? && IsOwnedBy(l.board.lanes[tile], r.current)
  {
    if l.mode == Playing then l
    else
      var owner := GetOwner(l.board.lanes[tile], l.current);
      var cur := if l.current.None? then owner else l.current;
      if cur.None? then l
      else
        SwitchValid(l, cur.value);
        var l1 := l.(current := cur);
        if owner.Some? && cur != owner then
          var r := ClickOthersTile(l1, cur.value, owner.value, tile);
          r
        else
          var r := DrawFrom(l1, cur.value, tile);
          r
  }

  /**
   * Outside play, a click on a free tile or on a tile of the current
   * shepherd is that shepherd's `DrawFrom`; with no current shepherd the
   * tile's owner becomes current and draws.
   */
  lemma PathTileClickDispatch(l: Level, tile: Cell)
    requires Valid(l) && tile in l.board.lanes && l.mode != Playing
    ensures var owner := GetOwner(l.board.lanes[tile], l.current);
      l.current.Some? && (owner.None? || owner == l.current) ==>
        PathTileClicked(l, tile) == DrawFrom(l, l.current.value, tile)
    ensures var owner := GetOwner(l.board.lanes[tile], None);
      l.current.None? && owner.Some? && owner.value < |l.shepherds| ==>
        PathTileClicked(l, tile) == DrawFrom(l.(current := owner), owner.value, tile)
    ensures var owner := GetOwner(l.board.lanes[tile], l.current);
      l.current.Some? && owner.Some? && owner != l.current ==>
        owner.value < |l.shepherds| && IsOwnedBy(l.board.lanes[tile], owner) &&
        PathTileClicked(l, tile) == ClickOthersTile(l, l.current.value, owner.value, tile)
  {
    if l.current.Some? {
      assert l.(current := l.current) == l;
    }
  }

  /**
   * A path-tile click changes only the shepherd that ends up current: its
   * path, the lanes of that path and of the clicked tile, entrances'
   * assigned shepherds, and the mode (to drawing). Everything else,
   * animals and barrels included, is untouched.
   */
  lemma PathTileClickFrame(l: Level, tile: Cell)
    requires Valid(l) && tile in l.board.lanes
    ensures var r := PathTileClicked(l, tile);
      r.current.Some? ==>
        r.current.value < |l.shepherds| &&
        Keeps(l.(current := r.current), r, r.current.value, l.shepherds[r.current.value].path + [tile])
  {
    var r := PathTileClicked(l, tile);
    if l.mode != Playing {
      var owner := GetOwner(l.board.lanes[tile], l.current);
      var cur := if l.current.None? then owner else l.current;
      if cur.Some? {
        var l1 := l.(current := cur);
        if owner.Some? && cur != owner {
          assert r == ClickOthersTile(l1, cur.value, owner.value, tile);
          assert l1.(current := r.current) == l.(current := r.current);
        } else {
          assert r == DrawFrom(l1, cur.value, tile);
          assert l.(current := r.current) == l1;
        }
      }
    }
  }
}
