/**
 * Play mode in `LevelController`: entering and leaving it, and the
 * routine that runs while it lasts. The shepherds walk their paths in
 * lock-step; after every step each of them, in priority order, drops
 * animals into the empty barrels next to it and then picks animals up;
 * a shepherd that reached the end of its path on an ark entrance shows
 * whether it carries a pair, and with a pair the door closes. The level
 * is won when every shepherd ends on an entrance with a pair.
 */
module LevelPlay {
  import opened Optional
  import opened Enums
  import opened Geometry
  import opened Seqs
  import opened Animals
  import opened Barrels
  import opened ArkEntrance
  import opened Shepherds
  import opened Levels
  import opened Handling
  import LevelEdit

  // ----------------------------------------------------------------- modes

  /**
   * The drawing a play leaves alone: the current shepherd, every
   * shepherd's place and path, the lanes, which shepherd each entrance
   * records and how it started, and the level's setting.
   */
  predicate SameDrawing(l: Level, r: Level)
  {
    && r.current == l.current
    && SamePaths(l.shepherds, r.shepherds)
    && r.board.lanes == l.board.lanes
    && SameAssignments(l.board.entrances, r.board.entrances)
    && r.stage.gameOver == l.stage.gameOver
    && r.stage.animalHomes == l.stage.animalHomes
    && r.stage.maxAnimals == l.stage.maxAnimals
    && r.stage.barrels.Keys == l.stage.barrels.Keys
  }

  predicate SamePaths(ss: seq<Shepherd>, ts: seq<Shepherd>)
  {
    |ts| == |ss| &&
    forall i :: 0 <= i < |ss| ==>
      ts[i].id == ss[i].id && ts[i].start == ss[i].start && ts[i].priority == ss[i].priority && ts[i].path == ss[i].path
  }

  predicate SameAssignments(a: map<Cell, Entrance>, b: map<Cell, Entrance>)
  {
    b.Keys == a.Keys &&
    forall e :: e in a ==> b[e].shepherd == a[e].shepherd && b[e].startingState == a[e].startingState
  }

  lemma SameDrawingTrans(l: Level, m: Level, r: Level)
    requires SameDrawing(l, m) && SameDrawing(m, r)
    ensures SameDrawing(l, r)
  {
  }

  /**
   * What `ResetObject` on every resetable leaves: no shepherd carries an
   * animal, every barrel is empty and available, every animal is back on
   * its block, and every door that started open is open with no match
   * icon.
   */
  predicate Restored(l: Level)
  {
    && (forall i :: 0 <= i < |l.shepherds| ==> l.shepherds[i].animals == [])
    && (forall c :: c in l.stage.barrels ==> Barrels.IsEmpty(l.stage.barrels[c]) && l.stage.barrels[c].available)
    && (forall c :: c in l.stage.animalHomes ==> l.stage.animalHomes[c] !in l.stage.flags.pickedUp)
    && (forall e :: e in l.board.entrances && l.board.entrances[e].startingState == Opened ==>
          l.board.entrances[e].state == Opened && l.board.entrances[e].matchIcon.None?)
  }

  /** `ResetIndex` on every shepherd. */
  function ResetIndices(ss: seq<Shepherd>): (r: seq<Shepherd>)
    ensures |r| == |ss|
    ensures forall i :: 0 <= i < |ss| ==> r[i] == ResetIndex(ss[i])
  {
    seq(|ss|, i requires 0 <= i < |ss| => ResetIndex(ss[i]))
  }

  /**
   * `EnterPlayMode` with the start of `PlayModeRoutine`: outside play
   * mode, fast-forward goes off, the level plays, and every shepherd
   * walks again from its first tile.
   */
  function EnterPlayMode(l: Level): (r: Level)
    ensures l.mode == Playing ==> r == l
    ensures l.mode != Playing ==>
      && r.mode == Playing && !r.stage.fastForward && SameDrawing(l, r)
      && r.board == l.board && r.stage.barrels == l.stage.barrels && r.stage.flags == l.stage.flags
      && forall i :: 0 <= i < |r.shepherds| ==>
           r.shepherds[i].index == 0 && r.shepherds[i].animals == l.shepherds[i].animals
  {
    if l.mode == Playing then l
    else l.(mode := Playing, shepherds := ResetIndices(l.shepherds), stage := l.stage.(fastForward := false))
  }

  /**
   * The routine starts with exactly the shepherds that have a path
   * (`Where(t => t.Path.Count > 0)`).
   */
  lemma PlayStartsWithDrawnPaths(l: Level)
    requires l.mode != Playing
    ensures forall y: nat :: y in Active(EnterPlayMode(l).shepherds) <==> y < |l.shepherds| && |l.shepherds[y].path| > 0
  {
  }

  /** `ToggleFastForward`: flips fast-forward, in play mode only. */
  function ToggleFastForward(l: Level): (r: Level)
    ensures l.mode == Playing ==> r.stage.fastForward == !l.stage.fastForward
    ensures l.mode != Playing ==> r == l
    ensures r == l.(stage := l.stage.(fastForward := r.stage.fastForward))
  {
    if l.mode == Playing then l.(stage := l.stage.(fastForward := !l.stage.fastForward)) else l
  }

  /** Toggling twice changes nothing. */
  lemma ToggleTwice(l: Level)
    ensures ToggleFastForward(ToggleFastForward(l)) == l
  {
  }

  /** `OnMousePointerUp`: drawing ends; every other mode stays. */
  function PointerUp(l: Level): (r: Level)
    ensures r.mode != Drawing
    ensures l.mode == Drawing ==> r.mode == Edit
    ensures l.mode != Drawing ==> r == l
    ensures r == l.(mode := r.mode)
  {
    if l.mode == Drawing then l.(mode := Edit) else l
  }

  /** `AnimalTile.ResetObject` on every animal of the level. */
  function ResetAnimals(f: AnimalFlags, homes: map<Cell, Animal>): (r: AnimalFlags)
    ensures forall c :: c in homes ==> homes[c] !in r.pickedUp
    ensures forall a :: a !in homes.Values ==> (a in r.pickedUp <==> a in f.pickedUp)
    ensures r.sortingOrder == f.sortingOrder
  {
    f.(pickedUp := f.pickedUp - homes.Values)
  }

  /**
   * `resetables.ForEach(r => r.ResetObject())`: every shepherd puts its
   * animals down, every barrel empties, every animal returns to its block
   * and every entrance resets; paths, cursors and lanes stay.
   */
  function ResetAll(l: Level): (r: Level)
    ensures Restored(r) && SameDrawing(l, r) && r.mode == l.mode
    ensures forall i :: 0 <= i < |l.shepherds| ==> r.shepherds[i] == Shepherds.ResetObject(l.shepherds[i])
    ensures r.board.entrances.Keys == l.board.entrances.Keys
    ensures forall e :: e in l.board.entrances ==> r.board.entrances[e] == ArkEntrance.ResetObject(l.board.entrances[e])
  {
    var ss := l.shepherds;
    var es := l.board.entrances;
    var bs := l.stage.barrels;
    l.(shepherds := seq(|ss|, i requires 0 <= i < |ss| => Shepherds.ResetObject(ss[i])),
       board := l.board.(entrances := map e | e in es :: ArkEntrance.ResetObject(es[e])),
       stage := l.stage.(barrels := map c | c in bs :: Barrels.ResetObject(bs[c]),
                         flags := ResetAnimals(l.stage.flags, l.stage.animalHomes)))
  }

  /**
   * `EnterEditMode`: ignored once the game is over or outside play mode;
   * otherwise everything resets and the level is back in edit mode.
   */
  function EnterEditMode(l: Level): (r: Level)
    ensures l.stage.gameOver || l.mode != Playing ==> r == l
    ensures !l.stage.gameOver && l.mode == Playing ==> r.mode == Edit && Restored(r) && SameDrawing(l, r)
    ensures Valid(l) ==> Valid(r)
  {
    if l.stage.gameOver || l.mode != Playing then l
    else
      var r := ResetAll(l).(mode := Edit);
      assert Valid(l) ==> Valid(r) by {
        if Valid(l) {
          assert ShepherdsPlaced(r.shepherds, r.board) by {
            forall i | 0 <= i < |r.shepherds| ensures PathOnBoard(r.shepherds[i], r.board) {
              assert PathOnBoard(l.shepherds[i], l.board);
            }
          }
        }
      }
      r
  }

  /** `ResetPath` on the first n shepherds, in list order. */
  function ClearPaths(l: Level, n: nat): (r: Level)
    requires Valid(l) && n <= |l.shepherds|
    ensures Valid(r) && |r.shepherds| == |l.shepherds|
    ensures r.mode == l.mode && r.stage == l.stage && r.current == l.current
    ensures forall i :: 0 <= i < n ==> r.shepherds[i].path == []
    ensures forall i :: n <= i < |l.shepherds| ==> r.shepherds[i] == l.shepherds[i]
    decreases n
  {
    if n == 0 then l
    else
      var m := ClearPaths(l, n - 1);
      LevelEdit.ClearPath(m, n - 1)
  }

  /**
   * `OnResetButtonPressed`: every shepherd's path is cleared and, from
   * play mode with the game not over, the level resets into edit mode.
   * `EnterEditMode` defers its reset to the end of the frame, so the
   * paths are cleared first.
   */
  function ResetButton(l: Level): (r: Level)
    requires Valid(l)
    ensures Valid(r) && |r.shepherds| == |l.shepherds|
    ensures forall i :: 0 <= i < |r.shepherds| ==> r.shepherds[i].path == []
    ensures r.mode == if l.mode == Playing && !l.stage.gameOver then Edit else l.mode
    ensures l.mode == Playing && !l.stage.gameOver ==> Restored(r)
  {
    EnterEditMode(ClearPaths(l, |l.shepherds|))
  }

  // -------------------------------------------------------- priority order

  /**
   * Shepherd a goes before shepherd b: a lower priority number, or the same
   * priority and an earlier place in the level's list (`OrderBy` is a
   * stable sort).
   */
  predicate Before(ss: seq<Shepherd>, a: nat, b: nat)
    requires a < |ss| && b < |ss|
  {
    ss[a].priority < ss[b].priority || (ss[a].priority == ss[b].priority && a < b)
  }

  predicate AllBelow(ids: seq<nat>, n: nat)
  {
    forall k :: 0 <= k < |ids| ==> ids[k] < n
  }

  predicate Ordered(ss: seq<Shepherd>, ids: seq<nat>)
    requires AllBelow(ids, |ss|)
  {
    forall i, j :: 0 <= i < j < |ids| ==> Before(ss, ids[i], ids[j])
  }

  /** Insertion of one shepherd into a list already in priority order. */
  function Insert(ss: seq<Shepherd>, x: nat, sorted: seq<nat>): (r: seq<nat>)
    requires x < |ss| && AllBelow(sorted, |ss|) && Ordered(ss, sorted) && x !in sorted
    ensures AllBelow(r, |ss|) && Ordered(ss, r)
    ensures |r| == |sorted| + 1 && forall y: nat :: y in r <==> y in sorted || y == x
    decreases |sorted|
  {
    if |sorted| == 0 then [x]
    else
      OrderedTail(ss, sorted);
      assert forall y :: y in sorted <==> y == sorted[0] || y in sorted[1..] by {
        assert sorted == [sorted[0]] + sorted[1..];
      }
      if Before(ss, x, sorted[0]) then
        OrderedCons(ss, x, sorted);
        [x] + sorted
      else
        var rest := Insert(ss, x, sorted[1..]);
        OrderedCons(ss, sorted[0], rest);
        [sorted[0]] + rest
  }

  /** The first k shepherds in priority order. */
  function SortFirst(ss: seq<Shepherd>, k: nat): (r: seq<nat>)
    requires k <= |ss|
    ensures AllBelow(r, |ss|) && Ordered(ss, r)
    ensures |r| == k && forall y: nat :: y in r <==> y < k
  {
    if k == 0 then []
    else Insert(ss, k - 1, SortFirst(ss, k - 1))
  }

  /**
   * `Shepherds.OrderBy(s => s.PriorityOrder)`: every shepherd once, by
   * ascending priority, ties in list order.
   */
  function ByPriority(ss: seq<Shepherd>): (r: seq<nat>)
    ensures AllBelow(r, |ss|) && Ordered(ss, r)
    ensures |r| == |ss| && forall y: nat :: y in r <==> y < |ss|
  {
    SortFirst(ss, |ss|)
  }

  /**
   * In a list in priority order, one shepherd comes earlier than another
   * exactly when it goes before it.
   */
  lemma OrderedIff(ss: seq<Shepherd>, ids: seq<nat>, i: nat, j: nat)
    requires AllBelow(ids, |ss|) && Ordered(ss, ids) && i < |ids| && j < |ids|
    ensures i < j <==> Before(ss, ids[i], ids[j])
  {
    if j < i {
      assert Before(ss, ids[j], ids[i]);
    }
  }

  /** A list in priority order stays so without its head, and its head goes before the rest. */
  lemma OrderedTail(ss: seq<Shepherd>, ids: seq<nat>)
    requires |ids| > 0 && AllBelow(ids, |ss|) && Ordered(ss, ids)
    ensures AllBelow(ids[1..], |ss|) && Ordered(ss, ids[1..])
    ensures forall y :: y in ids[1..] ==> Before(ss, ids[0], y)
  {
    forall y | y in ids[1..] ensures Before(ss, ids[0], y) {
      var k :| 0 <= k < |ids[1..]| && ids[1..][k] == y;
      assert ids[k + 1] == y;
    }
  }

  /** A shepherd that goes before every one of an ordered list can be put in front of it. */
  lemma OrderedCons(ss: seq<Shepherd>, x: nat, ids: seq<nat>)
    requires x < |ss| && AllBelow(ids, |ss|) && Ordered(ss, ids)
    requires forall y :: y in ids ==> Before(ss, x, y)
    ensures AllBelow([x] + ids, |ss|) && Ordered(ss, [x] + ids)
  {
    var r := [x] + ids;
    forall i, j | 0 <= i < j < |r| ensures Before(ss, r[i], r[j]) {
      assert r[j] == ids[j - 1] && r[j] in ids;
      if i > 0 {
        assert r[i] == ids[i - 1];
      }
    }
  }

  /** `.Where(t => t.HasTileToWalkOn)` over a list of shepherds. */
  function Walkers(ss: seq<Shepherd>, ids: seq<nat>): (r: seq<nat>)
    requires AllBelow(ids, |ss|)
    ensures AllBelow(r, |ss|)
    ensures forall y: nat :: y in r <==> y in ids && HasTileToWalkOn(ss[y])
    ensures Ordered(ss, ids) ==> Ordered(ss, r)
    decreases |ids|
  {
    if |ids| == 0 then []
    else
      var rest := Walkers(ss, ids[1..]);
      assert forall y :: y in ids <==> y == ids[0] || y in ids[1..] by {
        assert ids == [ids[0]] + ids[1..];
      }
      if HasTileToWalkOn(ss[ids[0]]) then
        assert Ordered(ss, ids) ==> Ordered(ss, [ids[0]] + rest) by {
          if Ordered(ss, ids) {
            OrderedTail(ss, ids);
            OrderedCons(ss, ids[0], rest);
          }
        }
        [ids[0]] + rest
      else
        assert Ordered(ss, ids) ==> Ordered(ss, rest) by {
          if Ordered(ss, ids) {
            OrderedTail(ss, ids);
          }
        }
        rest
  }

  /**
   * The shepherds still walking, in priority order: the routine's list of
   * active shepherds.
   */
  function Active(ss: seq<Shepherd>): (r: seq<nat>)
    ensures AllBelow(r, |ss|) && Ordered(ss, r)
    ensures forall y: nat :: y in r <==> y < |ss| && HasTileToWalkOn(ss[y])
  {
    Walkers(ss, ByPriority(ss))
  }

  // ------------------------------------------------------------- the pass

  /** The hands of shepherd i: the shepherd, the animals' flags and the barrels. */
  function HandsOf(l: Level, i: nat): Hands
    requires i < |l.shepherds|
  {
    Hands(l.shepherds[i], l.stage.flags, l.stage.barrels)
  }

  /** The level with shepherd i's hands put back. */
  function WithHands(l: Level, i: nat, h: Hands): Level
    requires i < |l.shepherds|
  {
    l.(shepherds := l.shepherds[i := h.carrier], stage := l.stage.(flags := h.flags, barrels := h.barrels))
  }

  /**
   * Only animals moved: the carried lists, the barrels' contents and the
   * animals' flags may differ, and no animal was unmarked; everything else
   * is as it was.
   */
  predicate OnlyAnimalsMove(l: Level, r: Level)
  {
    && r.mode == l.mode && r.current == l.current && r.board == l.board
    && SameStage(l.stage, r.stage)
    && |r.shepherds| == |l.shepherds|
    && (forall i :: 0 <= i < |l.shepherds| ==> SameWalker(l.shepherds[i], r.shepherds[i]))
  }

  predicate SameStage(s: Stage, t: Stage)
  {
    && t.fastForward == s.fastForward && t.gameOver == s.gameOver
    && t.animalHomes == s.animalHomes && t.maxAnimals == s.maxAnimals
    && t.barrels.Keys == s.barrels.Keys && s.flags.pickedUp <= t.flags.pickedUp
  }

  /**
   * The animal bookkeeping every level keeps: no shepherd carries an
   * animal twice, and every carried animal and every animal in a barrel
   * is marked as picked up.
   */
  predicate Stocked(l: Level)
  {
    && (forall i :: 0 <= i < |l.shepherds| ==> Distinct(l.shepherds[i].animals))
    && (forall i, a :: 0 <= i < |l.shepherds| && a in l.shepherds[i].animals ==> a in l.stage.flags.pickedUp)
    && (forall c :: c in l.stage.barrels && l.stage.barrels[c].animal.Some? ==>
          l.stage.barrels[c].animal.value in l.stage.flags.pickedUp)
  }

  /** Hands that moved as `HandsMove` allows, put back, move only animals and keep the bookkeeping. */
  lemma WithHandsMoves(l: Level, i: nat, h: Hands)
    requires i < |l.shepherds| && HandsMove(HandsOf(l, i), h)
    ensures OnlyAnimalsMove(l, WithHands(l, i, h))
    ensures Stocked(l) && HandsStocked(h) ==> Stocked(WithHands(l, i, h))
  {
    var r := WithHands(l, i, h);
    if Stocked(l) && HandsStocked(h) {
      forall j, a | 0 <= j < |r.shepherds| && a in r.shepherds[j].animals ensures a in r.stage.flags.pickedUp {
        if j != i { assert a in l.shepherds[j].animals; }
      }
    }
  }

  lemma StockedHands(l: Level, i: nat)
    requires i < |l.shepherds| && Stocked(l)
    ensures HandsStocked(HandsOf(l, i))
  {
  }

  /**
   * The cell a shepherd stands on during the pass: the last tile
   * `NextTile` handed out, or none before its first step.
   */
  function Position(s: Shepherd): Option<Cell>
  {
    if 0 < s.index <= |s.path| then Some(s.path[s.index - 1]) else None
  }

  /**
   * The resolution pass of one turn: the level, and the animal blocks and
   * barrels already claimed in this turn (`animalsToIgnore`,
   * `barrelsToIgnore`).
   */
  datatype Pass = Pass(level: Level, animalsToIgnore: set<Cell>, barrelsToIgnore: set<Cell>)

  /** Every barrel in `cells` holds what it held. */
  predicate BarrelsKept(l: Level, r: Level, cells: set<Cell>)
  {
    forall c :: c in cells && c in l.stage.barrels ==> c in r.stage.barrels && r.stage.barrels[c] == l.stage.barrels[c]
  }

  /**
   * The part of the pass between two passes: the level moved only
   * animals, shepherds other than `ids` are untouched, the ignore lists
   * only grew, a barrel already claimed is untouched, and the
   * bookkeeping is kept.
   */
  predicate PassMoves(p: Pass, r: Pass, ids: seq<nat>)
  {
    && OnlyAnimalsMove(p.level, r.level)
    && (forall j :: 0 <= j < |p.level.shepherds| && j !in ids ==> r.level.shepherds[j] == p.level.shepherds[j])
    && p.animalsToIgnore <= r.animalsToIgnore && p.barrelsToIgnore <= r.barrelsToIgnore
    && BarrelsKept(p.level, r.level, p.barrelsToIgnore)
    && (Stocked(p.level) ==> Stocked(r.level))
  }

  /**
   * What one shepherd standing at `pos` does: first the drop-off into the
   * empty barrels around it not in `ignoreB`, which claims them all; then
   * the pickup, ignoring every block and barrel claimed so far. The
   * result holds its hands afterwards and every block and barrel it
   * claimed.
   */
  function Handle(h: Hands, pos: Cell, homes: map<Cell, Animal>, ignoreA: set<Cell>, ignoreB: set<Cell>, max: int): (r: Claims)
  {
    var d := DropOff(h, pos, ignoreB);
    var u := PickUp(d.hands, pos, homes, ignoreA, ignoreB + (set x | x in d.barrels), max);
    Claims(u.hands, u.animals, d.barrels + u.barrels)
  }

  /**
   * Handling moves only the shepherd's animals, leaves every barrel
   * already claimed as it was, claims no barrel already claimed, and keeps
   * the bookkeeping.
   */
  lemma HandleMoves(h: Hands, pos: Cell, homes: map<Cell, Animal>, ignoreA: set<Cell>, ignoreB: set<Cell>, max: int)
    ensures var r := Handle(h, pos, homes, ignoreA, ignoreB, max);
      && HandsMove(h, r.hands)
      && (forall c :: c in ignoreB && c in h.barrels ==> r.hands.barrels[c] == h.barrels[c])
      && (forall c :: c in r.barrels ==> c !in ignoreB)
      && (HandsStocked(h) ==> HandsStocked(r.hands))
  {
    var d := DropOff(h, pos, ignoreB);
    var ignoreB' := ignoreB + (set x | x in d.barrels);
    var u := PickUp(d.hands, pos, homes, ignoreA, ignoreB', max);
    PickUpClaims(d.hands, pos, homes, ignoreA, ignoreB', max);
    assert BarrelsTaken(d.hands, pos, ignoreB', u);
  }

  /**
   * One shepherd's part of the pass, standing where its last step took
   * it; what it claims joins the ignore lists. A shepherd with no tile
   * under it is skipped.
   */
  function ResolveOne(p: Pass, i: nat): (r: Pass)
    requires i < |p.level.shepherds|
  {
    match Position(p.level.shepherds[i])
    case None => p
    case Some(pos) =>
      var l := p.level;
      var c := Handle(HandsOf(l, i), pos, l.stage.animalHomes, p.animalsToIgnore, p.barrelsToIgnore, l.stage.maxAnimals);
      Pass(WithHands(l, i, c.hands), p.animalsToIgnore + (set x | x in c.animals), p.barrelsToIgnore + (set x | x in c.barrels))
  }

  /** One shepherd's part of the pass moves only its own animals and leaves claimed barrels alone. */
  lemma ResolveOneMoves(p: Pass, i: nat)
    requires i < |p.level.shepherds|
    ensures PassMoves(p, ResolveOne(p, i), [i])
  {
    match Position(p.level.shepherds[i])
    case None =>
    case Some(pos) =>
      var l := p.level;
      var h := HandsOf(l, i);
      HandleMoves(h, pos, l.stage.animalHomes, p.animalsToIgnore, p.barrelsToIgnore, l.stage.maxAnimals);
      var c := Handle(h, pos, l.stage.animalHomes, p.animalsToIgnore, p.barrelsToIgnore, l.stage.maxAnimals);
      if Stocked(l) {
        StockedHands(l, i);
      }
      WithHandsMoves(l, i, c.hands);
  }

  /** The pass over `ids`, in that order. */
  function Resolve(p: Pass, ids: seq<nat>): (r: Pass)
    requires AllBelow(ids, |p.level.shepherds|)
    ensures |r.level.shepherds| == |p.level.shepherds|
    decreases |ids|
  {
    if |ids| == 0 then p
    else
      ResolveOneMoves(p, ids[0]);
      Resolve(ResolveOne(p, ids[0]), ids[1..])
  }

  lemma PassMovesTrans(p: Pass, q: Pass, r: Pass, a: seq<nat>, b: seq<nat>, ids: seq<nat>)
    requires PassMoves(p, q, a) && PassMoves(q, r, b)
    requires forall j :: j in a || j in b ==> j in ids
    ensures PassMoves(p, r, ids)
  {
  }

  /**
   * The pass moves only the animals of the shepherds it runs over, keeps
   * the bookkeeping, and never touches a barrel once claimed.
   */
  lemma {:induction false} ResolveMoves(p: Pass, ids: seq<nat>)
    requires AllBelow(ids, |p.level.shepherds|)
    ensures PassMoves(p, Resolve(p, ids), ids)
    decreases |ids|
  {
    if |ids| > 0 {
      ResolveOneMoves(p, ids[0]);
      var q := ResolveOne(p, ids[0]);
      ResolveMoves(q, ids[1..]);
      assert forall j :: j in ids[1..] ==> j in ids;
      PassMovesTrans(p, q, Resolve(q, ids[1..]), [ids[0]], ids[1..], ids);
    }
  }

  // ----------------------------------------------------------------- turns

  /**
   * Every shepherd still walking takes `NextTile`. `NextTile` leaves a
   * shepherd at the end of its path as it is, so stepping the active
   * shepherds is stepping all of them.
   */
  function StepAll(ss: seq<Shepherd>): (r: seq<Shepherd>)
    ensures |r| == |ss|
    ensures forall i :: 0 <= i < |ss| ==> r[i] == NextTile(ss[i]).shepherd
  {
    seq(|ss|, i requires 0 <= i < |ss| => NextTile(ss[i]).shepherd)
  }

  /** Shepherd s has reached an ark entrance with a pair. */
  predicate Arrived(s: Shepherd, entrances: map<Cell, Entrance>)
  {
    LastTileIsEntrance(s, entrances) && HasPair(s)
  }

  /** The door at the end of shepherd s's path. */
  function LastTile(s: Shepherd): Cell
    requires |s.path| > 0
  {
    s.path[|s.path| - 1]
  }

  /** Whether a shepherd arrived depends only on where the entrances are. */
  lemma ArrivedKeys(s: Shepherd, a: map<Cell, Entrance>, b: map<Cell, Entrance>)
    requires a.Keys == b.Keys
    ensures Arrived(s, a) == Arrived(s, b)
  {
  }

  /** Doors closed in `a` are closed in `b`. */
  predicate DoorsStayClosed(a: map<Cell, Entrance>, b: map<Cell, Entrance>)
  {
    forall e :: e in a && a[e].state == Closed ==> e in b && b[e].state == Closed
  }

  /**
   * `CloseArkDoorRoutine` for one shepherd: at the end of its path on an
   * entrance it shows whether it carries a pair, and with a pair the door
   * closes; only that entrance changes, and only its state and icon.
   */
  function ArriveOne(b: Board, s: Shepherd): (r: Board)
    ensures r.lanes == b.lanes && SameAssignments(b.entrances, r.entrances)
    ensures DoorsStayClosed(b.entrances, r.entrances)
    ensures Arrived(s, b.entrances) ==> r.entrances[LastTile(s)].state == Closed
    ensures !LastTileIsEntrance(s, b.entrances) ==> r == b
    ensures LastTileIsEntrance(s, b.entrances) ==> r.entrances[LastTile(s)].matchIcon == Some(HasPair(s))
  {
    if !LastTileIsEntrance(s, b.entrances) then b
    else
      var c := LastTile(s);
      var e := b.entrances[c].(matchIcon := Some(HasPair(s)));
      b.(entrances := b.entrances[c := if HasPair(s) then CloseDoor(e) else e])
  }

  /**
   * The arrival check over `ids`: each of them at the end of its path
   * arrives; only entrances change, and a door once closed stays closed.
   */
  function Arrive(l: Level, ids: seq<nat>): (r: Level)
    requires AllBelow(ids, |l.shepherds|)
    ensures r == l.(board := r.board)
    ensures r.board.lanes == l.board.lanes && SameAssignments(l.board.entrances, r.board.entrances)
    ensures DoorsStayClosed(l.board.entrances, r.board.entrances)
    decreases |ids|
  {
    if |ids| == 0 then l
    else
      var s := l.shepherds[ids[0]];
      var m := if HasTileToWalkOn(s) then l else l.(board := ArriveOne(l.board, s));
      Arrive(m, ids[1..])
  }

  /** Every one of `ids` at the end of its path with a pair on an entrance has its door closed afterwards. */
  lemma {:induction false} ArriveCloses(l: Level, ids: seq<nat>, i: nat)
    requires AllBelow(ids, |l.shepherds|) && i in ids
    requires !HasTileToWalkOn(l.shepherds[i]) && Arrived(l.shepherds[i], l.board.entrances)
    ensures Arrive(l, ids).board.entrances[LastTile(l.shepherds[i])].state == Closed
    decreases |ids|
  {
    var s := l.shepherds[ids[0]];
    var m := if HasTileToWalkOn(s) then l else l.(board := ArriveOne(l.board, s));
    if ids[0] != i {
      assert i in ids[1..] by { assert ids == [ids[0]] + ids[1..]; }
      ArriveCloses(m, ids[1..], i);
    }
  }

  /** Step: every shepherd still walking takes its next tile. */
  function Moved(l: Level): Level
  {
    l.(shepherds := StepAll(l.shepherds))
  }

  /** Step and pass: the pass runs over the active shepherds in priority order with empty ignore lists. */
  function Resolved(l: Level): (r: Level)
    ensures |r.shepherds| == |l.shepherds|
  {
    Resolve(Pass(Moved(l), {}, {}), Active(l.shepherds)).level
  }

  /**
   * One turn of `PlayModeRoutine`: the active shepherds step, the pass
   * runs over them, and those that reached the end of their path arrive.
   */
  function Turn(l: Level): (r: Level)
    ensures |r.shepherds| == |l.shepherds|
  {
    Arrive(Resolved(l), Active(l.shepherds))
  }

  /** The steps still to walk: what `NextTile` has yet to hand out, over all shepherds. */
  function Left(s: Shepherd): nat
  {
    if s.index < |s.path| then |s.path| - s.index else 0
  }

  function Remaining(ss: seq<Shepherd>): nat
  {
    if |ss| == 0 then 0 else Left(ss[0]) + Remaining(ss[1..])
  }

  /** Shepherds with no more steps each left walk no more in total, and fewer if one walks fewer. */
  lemma {:induction false} RemainingPointwise(ss: seq<Shepherd>, ts: seq<Shepherd>)
    requires |ts| == |ss| && forall i :: 0 <= i < |ss| ==> Left(ts[i]) <= Left(ss[i])
    ensures Remaining(ts) <= Remaining(ss)
    ensures (exists i :: 0 <= i < |ss| && Left(ts[i]) < Left(ss[i])) ==> Remaining(ts) < Remaining(ss)
    decreases |ss|
  {
    if |ss| > 0 {
      assert forall i :: 0 <= i < |ss| - 1 ==> ss[1..][i] == ss[i + 1] && ts[1..][i] == ts[i + 1];
      RemainingPointwise(ss[1..], ts[1..]);
    }
  }

  /** Moving only animals keeps the drawing. */
  lemma AnimalsMoveKeepsDrawing(l: Level, r: Level)
    requires OnlyAnimalsMove(l, r)
    ensures SameDrawing(l, r)
  {
  }

  /** The step changes only the cursors and keeps the bookkeeping. */
  lemma MovedKeeps(l: Level)
    ensures SameDrawing(l, Moved(l)) && Moved(l).mode == l.mode && Moved(l).stage == l.stage
    ensures Moved(l).board == l.board
    ensures Stocked(l) ==> Stocked(Moved(l))
  {
  }

  /** The pass after the step moves only animals of the active shepherds. */
  lemma ResolvedMoves(l: Level)
    ensures PassMoves(Pass(Moved(l), {}, {}), Pass(Resolved(l), {}, {}), Active(l.shepherds))
  {
    var p := Pass(Moved(l), {}, {});
    ResolveMoves(p, Active(l.shepherds));
  }

  /** A turn keeps the drawing and the mode, moves only animals and doors, and keeps the bookkeeping. */
  lemma TurnKeeps(l: Level)
    ensures SameDrawing(l, Turn(l)) && Turn(l).mode == l.mode && Turn(l).stage.fastForward == l.stage.fastForward
    ensures Stocked(l) ==> Stocked(Turn(l))
  {
    MovedKeeps(l);
    ResolvedMoves(l);
    AnimalsMoveKeepsDrawing(Moved(l), Resolved(l));
    SameDrawingTrans(l, Moved(l), Resolved(l));
    assert Turn(l) == Resolved(l).(board := Turn(l).board);
  }

  /** A turn walks each shepherd exactly one step along its path. */
  lemma TurnLeft(l: Level)
    ensures forall i :: 0 <= i < |l.shepherds| ==> Left(Turn(l).shepherds[i]) == Left(NextTile(l.shepherds[i]).shepherd)
  {
    ResolvedMoves(l);
    assert Turn(l).shepherds == Resolved(l).shepherds;
  }

  /** A turn with someone still walking leaves fewer steps to walk. */
  lemma TurnProgress(l: Level)
    requires |Active(l.shepherds)| > 0
    ensures Remaining(Turn(l).shepherds) < Remaining(l.shepherds)
  {
    TurnLeft(l);
    var t := Turn(l).shepherds;
    var act := Active(l.shepherds);
    assert act[0] in act;
    var k := act[0];
    forall i | 0 <= i < |l.shepherds| ensures Left(t[i]) <= Left(l.shepherds[i]) {
      StepLeft(l.shepherds[i]);
    }
    StepLeft(l.shepherds[k]);
    RemainingPointwise(l.shepherds, t);
  }

  /** A step uses up one tile of a shepherd still walking, and none of one at the end. */
  lemma StepLeft(s: Shepherd)
    ensures Left(NextTile(s).shepherd) <= Left(s)
    ensures HasTileToWalkOn(s) ==> Left(NextTile(s).shepherd) < Left(s)
  {
  }

  /**
   * Every shepherd that walked its whole path and ended on an entrance
   * with a pair has closed the door behind it.
   */
  predicate DoorsClosedBehind(l: Level)
  {
    forall i :: 0 <= i < |l.shepherds| && !HasTileToWalkOn(l.shepherds[i]) && Arrived(l.shepherds[i], l.board.entrances) ==>
      l.board.entrances[LastTile(l.shepherds[i])].state == Closed
  }

  /** A shepherd that finished in this turn closes its door during the arrival check. */
  lemma TurnClosesNew(l: Level, i: nat)
    requires i < |l.shepherds| && HasTileToWalkOn(l.shepherds[i])
    requires !HasTileToWalkOn(Turn(l).shepherds[i]) && Arrived(Turn(l).shepherds[i], Turn(l).board.entrances)
    ensures Turn(l).board.entrances[LastTile(Turn(l).shepherds[i])].state == Closed
  {
    var act := Active(l.shepherds);
    var m := Resolved(l);
    assert i in act;
    var t := Turn(l);
    assert m.shepherds[i] == t.shepherds[i];
    ArrivedKeys(t.shepherds[i], t.board.entrances, m.board.entrances);
    ArriveCloses(m, act, i);
  }

  /** The pass leaves the board, and every shepherd that had finished walking, as they were. */
  lemma ResolvedKeepsFinished(l: Level)
    ensures Resolved(l).board == l.board
    ensures forall j :: 0 <= j < |l.shepherds| && !HasTileToWalkOn(l.shepherds[j]) ==> Resolved(l).shepherds[j] == l.shepherds[j]
  {
    ResolvedMoves(l);
    forall j | 0 <= j < |l.shepherds| && !HasTileToWalkOn(l.shepherds[j]) ensures Resolved(l).shepherds[j] == l.shepherds[j] {
      assert j !in Active(l.shepherds);
    }
  }

  /** A shepherd that had finished before this turn is untouched by it, and its door stays closed. */
  lemma TurnKeepsOld(l: Level, i: nat)
    requires DoorsClosedBehind(l)
    requires i < |l.shepherds| && !HasTileToWalkOn(l.shepherds[i])
    requires Arrived(Turn(l).shepherds[i], Turn(l).board.entrances)
    ensures Turn(l).board.entrances[LastTile(Turn(l).shepherds[i])].state == Closed
  {
    ResolvedKeepsFinished(l);
    var s := l.shepherds[i];
    var t := Turn(l);
    assert t.shepherds[i] == s;
    assert t.board.entrances.Keys == l.board.entrances.Keys;
    ArrivedKeys(s, t.board.entrances, l.board.entrances);
    assert l.board.entrances[LastTile(s)].state == Closed;
  }

  /** Turns keep every finished shepherd's door closed. */
  lemma TurnDoors(l: Level)
    requires DoorsClosedBehind(l)
    ensures DoorsClosedBehind(Turn(l))
  {
    var t := Turn(l);
    forall i | 0 <= i < |t.shepherds| && !HasTileToWalkOn(t.shepherds[i]) && Arrived(t.shepherds[i], t.board.entrances)
      ensures t.board.entrances[LastTile(t.shepherds[i])].state == Closed
    {
      if HasTileToWalkOn(l.shepherds[i]) {
        TurnClosesNew(l, i);
      } else {
        TurnKeepsOld(l, i);
      }
    }
  }

  /** The routine's loop: turns while some shepherd is still walking. */
  function PlayOut(l: Level): (r: Level)
    ensures forall i :: 0 <= i < |r.shepherds| ==> !HasTileToWalkOn(r.shepherds[i])
    decreases Remaining(l.shepherds)
  {
    if |Active(l.shepherds)| == 0 then
      assert forall i :: 0 <= i < |l.shepherds| ==> !HasTileToWalkOn(l.shepherds[i]) by {
        forall i | 0 <= i < |l.shepherds| ensures !HasTileToWalkOn(l.shepherds[i]) {
          assert i !in Active(l.shepherds);
        }
      }
      l
    else
      TurnProgress(l);
      PlayOut(Turn(l))
  }

  /**
   * The walk keeps the drawing and the mode, keeps the bookkeeping, and
   * keeps every finished shepherd's door closed.
   */
  lemma {:induction false} PlayOutKeeps(l: Level)
    ensures SameDrawing(l, PlayOut(l)) && PlayOut(l).mode == l.mode
    ensures Stocked(l) ==> Stocked(PlayOut(l))
    ensures DoorsClosedBehind(l) ==> DoorsClosedBehind(PlayOut(l))
    decreases Remaining(l.shepherds)
  {
    if |Active(l.shepherds)| > 0 {
      TurnProgress(l);
      TurnKeeps(l);
      if DoorsClosedBehind(l) {
        TurnDoors(l);
      }
      PlayOutKeeps(Turn(l));
      SameDrawingTrans(l, Turn(l), PlayOut(Turn(l)));
    }
  }

  // -------------------------------------------------------------- the win

  /** How many of `ss` arrived (`shepherds.Where(s => s.LastTileIsEntrance && s.HasPair).Count()`). */
  function CountArrived(ss: seq<Shepherd>, entrances: map<Cell, Entrance>): (r: nat)
    ensures r <= |ss|
  {
    if |ss| == 0 then 0
    else (if Arrived(ss[0], entrances) then 1 else 0) + CountArrived(ss[1..], entrances)
  }

  /** Every shepherd counts exactly when every shepherd arrived. */
  lemma {:induction false} CountArrivedAll(ss: seq<Shepherd>, entrances: map<Cell, Entrance>)
    ensures CountArrived(ss, entrances) == |ss| <==> forall i :: 0 <= i < |ss| ==> Arrived(ss[i], entrances)
    decreases |ss|
  {
    if |ss| > 0 {
      CountArrivedAll(ss[1..], entrances);
      assert forall i :: 0 < i < |ss| ==> ss[1..][i - 1] == ss[i];
      if forall i :: 0 < i < |ss| ==> Arrived(ss[i], entrances) {
        assert forall i :: 0 <= i < |ss[1..]| ==> Arrived(ss[1..][i], entrances) by {
          forall i | 0 <= i < |ss[1..]| ensures Arrived(ss[1..][i], entrances) {
            assert ss[1..][i] == ss[i + 1];
          }
        }
      }
    }
  }

  /** The routine's result: the level after the walk, and whether it is won. */
  datatype Outcome = Outcome(level: Level, won: bool)

  /** `Entrances.ForEach(e => e.SetMatchIcon(null))`: every match icon is cleared, nothing else changes. */
  function ClearMatchIcons(l: Level): (r: Level)
    ensures r == l.(board := r.board) && r.board.lanes == l.board.lanes
    ensures r.board.entrances.Keys == l.board.entrances.Keys
    ensures forall e :: e in l.board.entrances ==> r.board.entrances[e] == l.board.entrances[e].(matchIcon := None)
  {
    var es := l.board.entrances;
    l.(board := l.board.(entrances := map e | e in es :: es[e].(matchIcon := None)))
  }

  /**
   * `PlayModeRoutine` from the level `EnterPlayMode` left: the walk played
   * out, then the win check; a won level has its match icons cleared.
   */
  function PlayModeRoutine(l: Level): (r: Outcome)
  {
    var end := PlayOut(l);
    var won := end.mode == Playing && CountArrived(end.shepherds, end.board.entrances) == |end.shepherds|;
    Outcome(if won then ClearMatchIcons(end) else end, won)
  }

  /** The routine keeps the drawing and the mode, and a won level shows no match icon. */
  lemma RoutineKeeps(l: Level)
    ensures var r := PlayModeRoutine(l);
      && SameDrawing(l, r.level) && r.level.mode == l.mode
      && (r.won ==> forall e :: e in r.level.board.entrances ==> r.level.board.entrances[e].matchIcon.None?)
  {
    var end := PlayOut(l);
    PlayOutKeeps(l);
    var c := ClearMatchIcons(end);
    assert SameDrawing(end, c);
    SameDrawingTrans(l, end, c);
  }

  /**
   * The level is won exactly when, in play mode, every shepherd ended on
   * an ark entrance carrying a pair; a won level shows no match icon; the
   * walk ended with no shepherd walking and the drawing as it was.
   */
  lemma WinIff(l: Level)
    ensures var r := PlayModeRoutine(l);
      && (r.won <==>
            r.level.mode == Playing &&
            forall i :: 0 <= i < |r.level.shepherds| ==> Arrived(r.level.shepherds[i], r.level.board.entrances))
      && (r.won ==> forall e :: e in r.level.board.entrances ==> r.level.board.entrances[e].matchIcon.None?)
      && SameDrawing(l, r.level)
      && forall i :: 0 <= i < |r.level.shepherds| ==> !HasTileToWalkOn(r.level.shepherds[i])
  {
    var end := PlayOut(l);
    RoutineKeeps(l);
    CountArrivedAll(end.shepherds, end.board.entrances);
    var r := PlayModeRoutine(l);
    if r.won {
      var c := ClearMatchIcons(end);
      assert r.level == c;
      forall i | 0 <= i < |end.shepherds| ensures Arrived(c.shepherds[i], c.board.entrances) == Arrived(end.shepherds[i], end.board.entrances) {
        ArrivedKeys(end.shepherds[i], c.board.entrances, end.board.entrances);
      }
    }
  }

  /**
   * From the start of a play, with every shepherd at the start of its
   * path, a won level has every shepherd's ark door closed.
   */
  lemma WonClosesDoors(l: Level)
    requires forall i :: 0 <= i < |l.shepherds| ==> l.shepherds[i].index == 0
    ensures var r := PlayModeRoutine(l);
      r.won ==> forall i :: 0 <= i < |r.level.shepherds| ==>
        Arrived(r.level.shepherds[i], r.level.board.entrances) &&
        r.level.board.entrances[LastTile(r.level.shepherds[i])].state == Closed
  {
    assert DoorsClosedBehind(l) by {
      forall i | 0 <= i < |l.shepherds| ensures HasTileToWalkOn(l.shepherds[i]) || !Arrived(l.shepherds[i], l.board.entrances) {
      }
    }
    PlayOutKeeps(l);
    var end := PlayOut(l);
    CountArrivedAll(end.shepherds, end.board.entrances);
    if PlayModeRoutine(l).won {
      var c := ClearMatchIcons(end);
      assert PlayModeRoutine(l).level == c;
      forall i | 0 <= i < |c.shepherds|
        ensures Arrived(c.shepherds[i], c.board.entrances) && c.board.entrances[LastTile(c.shepherds[i])].state == Closed
      {
        var s := end.shepherds[i];
        assert Arrived(s, end.board.entrances);
        assert end.board.entrances[LastTile(s)].state == Closed;
        ArrivedKeys(s, c.board.entrances, end.board.entrances);
      }
    }
  }

  /**
   * Playing and going back to edit mode keeps the drawing and resets
   * every animal, barrel and door, unless the game ended.
   */
  lemma PlayThenEditKeepsDrawing(l: Level)
    requires l.mode != Playing && !l.stage.gameOver
    ensures var r := EnterEditMode(PlayModeRoutine(EnterPlayMode(l)).level);
      r.mode == Edit && Restored(r) && SameDrawing(l, r)
  {
    var p := EnterPlayMode(l);
    var e := PlayModeRoutine(p).level;
    RoutineKeeps(p);
    SameDrawingTrans(l, p, e);
    SameDrawingTrans(l, e, EnterEditMode(e));
  }
}
