/**
 * `GetNeighborsOfType`: the tiles of one type around a tile, looked up
 * along the level's priority directions.
 */
module Neighbours {
  import opened Geometry
  import opened Seqs

  /**
   * `GetNeighborsOfType`: the neighbours of `pos` along `dirs`, in that
   * order, that are in `present` (tiles of the wanted type) and not in
   * `ignore`. The scan stops once `max` have been found; the count is
   * checked after each direction.
   */
  function NeighborsOfType(pos: Cell, present: set<Cell>, ignore: set<Cell>, max: int, dirs: seq<Vec>): (r: seq<Cell>)
    ensures forall c :: c in r ==> c in present && c !in ignore
    decreases |dirs|
  {
    if |dirs| == 0 then []
    else
      var c := Offset(pos, dirs[0]);
      var head := if c in present && c !in ignore then [c] else [];
      if |head| >= max then head
      else head + NeighborsOfType(pos, present, ignore, max - |head|, dirs[1..])
  }

  /** Every neighbour along `dirs` in `present` and not in `ignore`, in the order of `dirs`, with no cap. */
  function Around(pos: Cell, present: set<Cell>, ignore: set<Cell>, dirs: seq<Vec>): seq<Cell>
    decreases |dirs|
  {
    if |dirs| == 0 then []
    else
      var c := Offset(pos, dirs[0]);
      (if c in present && c !in ignore then [c] else []) + Around(pos, present, ignore, dirs[1..])
  }

  /**
   * With a cap of at least one, the scan returns the first `max`
   * neighbours of the uncapped list (all of them when there are fewer).
   */
  lemma {:induction false} NeighborsAreCappedAround(pos: Cell, present: set<Cell>, ignore: set<Cell>, max: int, dirs: seq<Vec>)
    requires max >= 1
    ensures var a := Around(pos, present, ignore, dirs);
      NeighborsOfType(pos, present, ignore, max, dirs) == a[..if max < |a| then max else |a|]
    decreases |dirs|
  {
    if |dirs| > 0 {
      var c := Offset(pos, dirs[0]);
      var rest := Around(pos, present, ignore, dirs[1..]);
      if c in present && c !in ignore {
        if max > 1 {
          NeighborsAreCappedAround(pos, present, ignore, max - 1, dirs[1..]);
          var m := if max - 1 < |rest| then max - 1 else |rest|;
          ConsTake(c, rest, m);
        }
      } else {
        NeighborsAreCappedAround(pos, present, ignore, max, dirs[1..]);
      }
    }
  }

  /** A cell is among the uncapped neighbours exactly when its direction from `pos` is one of `dirs`. */
  lemma {:induction false} AroundMembers(pos: Cell, present: set<Cell>, ignore: set<Cell>, dirs: seq<Vec>, c: Cell)
    ensures c in Around(pos, present, ignore, dirs) <==> c in present && c !in ignore && Diff(c, pos) in dirs
    decreases |dirs|
  {
    if |dirs| > 0 {
      AroundMembers(pos, present, ignore, dirs[1..], c);
      OffsetDiff(pos, dirs[0]);
      assert Diff(c, pos) in dirs <==> Diff(c, pos) == dirs[0] || Diff(c, pos) in dirs[1..] by {
        assert dirs == [dirs[0]] + dirs[1..];
      }
      assert Diff(c, pos) == dirs[0] ==> c == Offset(pos, dirs[0]);
    }
  }

  /**
   * As the level calls it, with one slot per priority direction: the scan
   * finds exactly the adjacent cells of the wanted type that are not
   * ignored.
   */
  lemma NeighborsOfTypeAdjacent(pos: Cell, present: set<Cell>, ignore: set<Cell>, c: Cell)
    ensures c in NeighborsOfType(pos, present, ignore, |Cardinals|, Cardinals) <==>
      c in present && c !in ignore && Adjacent(pos, c)
  {
    NeighborsAreCappedAround(pos, present, ignore, |Cardinals|, Cardinals);
    AroundMembers(pos, present, ignore, Cardinals, c);
    var a := Around(pos, present, ignore, Cardinals);
    assert |a| <= 4 by { AroundLength(pos, present, ignore, Cardinals); }
    assert a[..|a|] == a;
  }

  lemma {:induction false} AroundLength(pos: Cell, present: set<Cell>, ignore: set<Cell>, dirs: seq<Vec>)
    ensures |Around(pos, present, ignore, dirs)| <= |dirs|
    decreases |dirs|
  {
    if |dirs| > 0 {
      AroundLength(pos, present, ignore, dirs[1..]);
    }
  }

  /**
   * No cell turns up twice in the uncapped list when no direction does:
   * each cell sits in one direction from `pos`.
   */
  lemma {:induction false} AroundDistinct(pos: Cell, present: set<Cell>, ignore: set<Cell>, dirs: seq<Vec>)
    requires Distinct(dirs)
    ensures Distinct(Around(pos, present, ignore, dirs))
    decreases |dirs|
  {
    if |dirs| > 0 {
      DistinctTail(dirs);
      AroundDistinct(pos, present, ignore, dirs[1..]);
      var c := Offset(pos, dirs[0]);
      if c in present && c !in ignore {
        AroundMembers(pos, present, ignore, dirs[1..], c);
        OffsetDiff(pos, dirs[0]);
        DistinctCons(c, Around(pos, present, ignore, dirs[1..]));
      }
    }
  }

  /**
   * The neighbours of one cell as the level asks for them, with room for
   * one per priority direction: every adjacent cell of the wanted type
   * that is not ignored, each once, in the order of the directions.
   */
  function Neighbors(pos: Cell, present: set<Cell>, ignore: set<Cell>): (r: seq<Cell>)
    ensures forall c :: c in r <==> c in present && c !in ignore && Adjacent(pos, c)
    ensures Distinct(r)
  {
    var r := NeighborsOfType(pos, present, ignore, |Cardinals|, Cardinals);
    assert forall c :: c in r <==> c in present && c !in ignore && Adjacent(pos, c) by {
      forall c ensures c in r <==> c in present && c !in ignore && Adjacent(pos, c) {
        NeighborsOfTypeAdjacent(pos, present, ignore, c);
      }
    }
    assert Distinct(r) by {
      var a := Around(pos, present, ignore, Cardinals);
      NeighborsAreCappedAround(pos, present, ignore, |Cardinals|, Cardinals);
      AroundDistinct(pos, present, ignore, Cardinals);
      DistinctPrefix(a, if |Cardinals| < |a| then |Cardinals| else |a|);
    }
    r
  }
}
