/**
 * The state `LevelController` works on: the mode, the shepherd whose path
 * is being drawn, every shepherd, the path cells with their lanes and ark
 * entrances, the barrels and the animals' starting blocks.
 */
module Levels {
  import opened Optional
  import opened Enums
  import opened Geometry
  import opened PathTiles
  import opened Animals
  import opened Barrels
  import opened ArkEntrance
  import opened Shepherds

  /**
   * What editing never changes: `animalHomes` maps each animal's starting
   * block to the animal (the block stays the animal's grid slot for the
   * whole level, picked up or not) and `gameOver` stands for
   * `GameManager.GameOver`.
   */
  datatype Stage = Stage(
    fastForward: bool,
    gameOver: bool,
    barrels: map<Cell, Barrel>,
    animalHomes: map<Cell, Animal>,
    flags: AnimalFlags,
    maxAnimals: int)

  datatype Level = Level(
    mode: LevelMode,
    current: Option<ShepherdId>,
    shepherds: seq<Shepherd>,
    board: Board,
    stage: Stage)

  /** Every lane owner names a shepherd of the level. */
  predicate OwnersBelow(p: PathCell, n: nat)
  {
    && (p.bottom.owner.Some? ==> p.bottom.owner.value < n)
    && (p.top.owner.Some? ==> p.top.owner.value < n)
  }

  predicate BoardOwnersBelow(b: Board, n: nat)
  {
    forall c :: c in b.lanes ==> OwnersBelow(b.lanes[c], n)
  }

  /** Every cell on a shepherd's path is a path cell of the board. */
  predicate PathOnBoard(s: Shepherd, b: Board)
  {
    forall c :: c in s.path ==> c in b.lanes
  }

  /**
   * Shepherds are numbered by position, their paths run over path tiles
   * and none of them stands on one.
   */
  predicate ShepherdsPlaced(ss: seq<Shepherd>, b: Board)
  {
    && (forall i :: 0 <= i < |ss| ==> ss[i].id == i)
    && (forall i :: 0 <= i < |ss| ==> PathOnBoard(ss[i], b))
    && (forall i :: 0 <= i < |ss| ==> ss[i].start !in b.lanes)
  }

  /** Entrances are path tiles, and lanes are well formed and held by one of n shepherds. */
  predicate BoardWellFormed(b: Board, n: nat)
  {
    && b.entrances.Keys <= b.lanes.Keys
    && LanesWellFormed(b)
    && BoardOwnersBelow(b, n)
  }

  /**
   * What every reference in the C# object graph guarantees by its type:
   * shepherds are numbered by position, the current shepherd and every
   * lane owner is one of them, paths run over path tiles, entrances are
   * path tiles, shepherds do not stand on path tiles, and lanes are well
   * formed.
   */
  predicate Valid(l: Level)
  {
    && ShepherdsPlaced(l.shepherds, l.board)
    && (l.current.Some? ==> l.current.value < |l.shepherds|)
    && BoardWellFormed(l.board, |l.shepherds|)
  }

  /**
   * A drawn path is a walk over neighbouring cells that starts next to the
   * shepherd.
   */
  predicate Connected(s: Shepherd)
  {
    && (|s.path| > 0 ==> Adjacent(s.start, s.path[0]))
    && (forall j :: 0 < j < |s.path| ==> Linked(s.path, j))
  }

  /** Path position j touches the position before it. */
  predicate Linked(p: seq<Cell>, j: int)
    requires 0 < j < |p|
  {
    Adjacent(p[j - 1], p[j])
  }

  predicate AllConnected(ss: seq<Shepherd>)
  {
    forall i :: 0 <= i < |ss| ==> Connected(ss[i])
  }

  /** Clearing tiles for a shepherd never brings in a new lane owner. */
  lemma {:induction false} ResetTilesKeepsOwners(b: Board, cells: seq<Cell>, owner: Option<ShepherdId>, n: nat)
    requires BoardOwnersBelow(b, n) && owner.Some?
    ensures BoardOwnersBelow(ResetTiles(b, cells, owner), n)
    decreases |cells|
  {
    if |cells| > 0 {
      var b' := ResetTile(b, cells[0], owner);
      assert BoardOwnersBelow(b', n) by {
        forall c | c in b'.lanes ensures OwnersBelow(b'.lanes[c], n) {
          assert c in b.lanes && OwnersBelow(b.lanes[c], n);
        }
      }
      ResetTilesKeepsOwners(b', cells[1..], owner, n);
    }
  }

  /** A prefix of a connected path is connected. */
  lemma PrefixConnected(s: Shepherd, k: nat)
    requires Connected(s) && k <= |s.path|
    ensures Connected(s.(path := s.path[..k]))
  {
    forall j | 0 < j < k ensures Linked(s.path[..k], j) {
      assert Linked(s.path, j);
    }
  }

  /** Cell c touches the tail of the path, or the shepherd when the path is empty. */
  predicate Joins(s: Shepherd, c: Cell)
  {
    if |s.path| == 0 then Adjacent(s.start, c) else Adjacent(s.path[|s.path| - 1], c)
  }

  /** Appending a cell that joins the path keeps it connected. */
  lemma AppendConnected(s: Shepherd, c: Cell)
    requires Connected(s) && Joins(s, c)
    ensures Connected(s.(path := s.path + [c]))
  {
    var p := s.path + [c];
    forall j | 0 < j < |p| ensures Linked(p, j) {
      if j < |s.path| {
        assert Linked(s.path, j);
        assert p[j - 1] == s.path[j - 1] && p[j] == s.path[j];
      }
    }
  }

  /** Replacing one shepherd by a connected one keeps every path connected. */
  lemma UpdateConnected(ss: seq<Shepherd>, c: nat, s: Shepherd)
    requires AllConnected(ss) && c < |ss| && Connected(s)
    ensures AllConnected(ss[c := s])
  {
    var r := ss[c := s];
    forall i | 0 <= i < |r| ensures Connected(r[i]) {
      if i != c { assert r[i] == ss[i]; }
    }
  }
}
