/**
 * The level's rectangular tile array, indexed by integer coordinates, and
 * the neighbour maps built from it when the level starts.
 */
module Grid {
  import opened Optional
  import opened Geometry
  import opened Tiles

  /** `slots` holds the non-null entries of the `width` by `height` array. */
  datatype Grid<T> = Grid(width: int, height: int, slots: map<Cell, T>)

  predicate TileInBounds<T>(g: Grid<T>, x: int, y: int)
  {
    0 <= x < g.width && 0 <= y < g.height
  }

  /** `GetTile`: the tile in that slot, or null when the slot is empty or off the grid. */
  function GetTile<T>(g: Grid<T>, x: int, y: int): (r: Option<T>)
    ensures !TileInBounds(g, x, y) ==> r.None?
    ensures r.Some? ==> Cell(x, y) in g.slots && g.slots[Cell(x, y)] == r.value
  {
    if TileInBounds(g, x, y) && Cell(x, y) in g.slots then Some(g.slots[Cell(x, y)]) else None
  }

  /** `SetTile`: writes the slot when in bounds (a null clears it); otherwise nothing changes. */
  function SetTile<T>(g: Grid<T>, x: int, y: int, t: Option<T>): (r: Grid<T>)
    ensures !TileInBounds(g, x, y) ==> r == g
    ensures TileInBounds(g, x, y) ==> GetTile(r, x, y) == t
    ensures r.width == g.width && r.height == g.height
    ensures forall i, j :: (i, j) != (x, y) ==> GetTile(r, i, j) == GetTile(g, i, j)
  {
    if !TileInBounds(g, x, y) then g
    else match t
      case Some(v) => g.(slots := g.slots[Cell(x, y) := v])
      case None => g.(slots := g.slots - {Cell(x, y)})
  }

  /** The tile one step from `pos` along `d`, or null off the grid. */
  function TileAt<T>(g: Grid<T>, pos: Cell, d: Vec): Option<T>
  {
    GetTile(g, pos.x + d.dx, pos.y + d.dy)
  }

  /**
   * `SetNeighborgs`: for each cardinal direction, in order, store the tile
   * found one step that way, or null off the grid.
   */
  function SetNeighbors<T>(g: Grid<T>, pos: Cell, n: Neighbors<T>): (r: Neighbors<T>)
    ensures r.Keys == n.Keys + {Up, Down, Left, Right}
  {
    var n1 := AddNeighbor(n, Up, TileAt(g, pos, Up));
    var n2 := AddNeighbor(n1, Down, TileAt(g, pos, Down));
    var n3 := AddNeighbor(n2, Left, TileAt(g, pos, Left));
    AddNeighbor(n3, Right, TileAt(g, pos, Right))
  }

  /**
   * After `SetNeighborgs` each cardinal direction holds the tile one step
   * that way (null off the grid), and every other entry is as it was.
   */
  lemma SetNeighborsStores<T>(g: Grid<T>, pos: Cell, n: Neighbors<T>)
    ensures var r := SetNeighbors(g, pos, n);
      forall d :: d in Cardinals ==> d in r && r[d] == TileAt(g, pos, d)
    ensures var r := SetNeighbors(g, pos, n);
      forall d :: d !in Cardinals ==> GetNeighbor(r, d) == GetNeighbor(n, d)
  {
    var r := SetNeighbors(g, pos, n);
    assert r[Up] == TileAt(g, pos, Up) && r[Down] == TileAt(g, pos, Down) && r[Left] == TileAt(g, pos, Left);
    assert forall d :: d in Cardinals <==> d == Up || d == Down || d == Left || d == Right;
  }

  /** The largest x (and y) among the tiles, as `Max` computes it. */
  function MaxX(ps: seq<Cell>): (m: int)
    requires |ps| > 0
    ensures forall i :: 0 <= i < |ps| ==> ps[i].x <= m
    ensures exists i :: 0 <= i < |ps| && ps[i].x == m
  {
    if |ps| == 1 then ps[0].x
    else
      var m := MaxX(ps[1..]);
      assert forall i :: 1 <= i < |ps| ==> ps[i] == ps[1..][i - 1];
      if ps[0].x >= m then ps[0].x else m
  }

  function MaxY(ps: seq<Cell>): (m: int)
    requires |ps| > 0
    ensures forall i :: 0 <= i < |ps| ==> ps[i].y <= m
    ensures exists i :: 0 <= i < |ps| && ps[i].y == m
  {
    if |ps| == 1 then ps[0].y
    else
      var m := MaxY(ps[1..]);
      assert forall i :: 1 <= i < |ps| ==> ps[i] == ps[1..][i - 1];
      if ps[0].y >= m then ps[0].y else m
  }

  /**
   * The size `CreateGrid` gives the array: one more than the largest
   * coordinate on each axis. With no tiles `Max` throws, and a negative
   * size makes the array allocation throw; both give None.
   */
  function GridSize(ps: seq<Cell>): (r: Option<(int, int)>)
    ensures |ps| == 0 ==> r.None?
    ensures r.Some? ==> r.value.0 >= 0 && r.value.1 >= 0
    ensures r.Some? ==> forall i :: 0 <= i < |ps| && ps[i].x >= 0 && ps[i].y >= 0 ==>
      0 <= ps[i].x < r.value.0 && 0 <= ps[i].y < r.value.1
    ensures |ps| > 0 && (forall i :: 0 <= i < |ps| ==> ps[i].x >= 0 && ps[i].y >= 0) ==> r.Some?
  {
    if |ps| == 0 then None
    else
      var w, h := MaxX(ps) + 1, MaxY(ps) + 1;
      if w < 0 || h < 0 then None else Some((w, h))
  }

  /** `SetTile` for each tile at its own coordinates, in order. */
  function PlaceAll(g: Grid<Cell>, ps: seq<Cell>): (r: Grid<Cell>)
    ensures r.width == g.width && r.height == g.height
    ensures forall i :: 0 <= i < |ps| && TileInBounds(g, ps[i].x, ps[i].y) ==>
      GetTile(r, ps[i].x, ps[i].y) == Some(ps[i])
    ensures forall x, y :: Cell(x, y) !in ps ==> GetTile(r, x, y) == GetTile(g, x, y)
    decreases |ps|
  {
    if |ps| == 0 then g
    else
      var g' := SetTile(g, ps[0].x, ps[0].y, Some(ps[0]));
      var r := PlaceAll(g', ps[1..]);
      assert forall i :: 1 <= i < |ps| ==> ps[i] == ps[1..][i - 1];
      r
  }

  /**
   * `CreateGrid` without the scene search: size the array from the tiles'
   * coordinates and place every tile at its own coordinates.
   */
  function CreateGrid(ps: seq<Cell>): (r: Option<Grid<Cell>>)
    ensures r.Some? ==> forall i :: 0 <= i < |ps| && ps[i].x >= 0 && ps[i].y >= 0 ==>
      TileInBounds(r.value, ps[i].x, ps[i].y) && GetTile(r.value, ps[i].x, ps[i].y) == Some(ps[i])
    ensures r.Some? ==> forall x, y :: GetTile(r.value, x, y).Some? ==> Cell(x, y) in ps
  {
    match GridSize(ps)
    case None => None
    case Some((w, h)) => Some(PlaceAll(Grid(w, h, map[]), ps))
  }

  /**
   * On a grid where every tile sits at its own coordinates, a tile's
   * neighbour map holds exactly the tiles one cardinal step away.
   */
  lemma {:induction false} NeighborsAreAdjacent(g: Grid<Cell>, pos: Cell, c: Cell)
    requires forall c :: c in g.slots ==> g.slots[c] == c
    ensures HasNeighbor(SetNeighbors(g, pos, map[]), Some(c)) <==>
      Adjacent(pos, c) && GetTile(g, c.x, c.y) == Some(c)
  {
    var n := SetNeighbors(g, pos, map[]);
    SetNeighborsStores(g, pos, map[]);
    if HasNeighbor(n, Some(c)) {
      var d :| d in n && n[d] == Some(c);
      assert d in Cardinals;
      assert TileAt(g, pos, d) == Some(c);
      assert c == Offset(pos, d);
      OffsetDiff(pos, d);
    }
    if Adjacent(pos, c) && GetTile(g, c.x, c.y) == Some(c) {
      var d := Diff(c, pos);
      assert d in Cardinals;
      assert Offset(pos, d) == c;
      assert n[d] == TileAt(g, pos, d);
    }
  }
}
