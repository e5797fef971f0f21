/**
 * What one shepherd does after a step in play mode (`PlayModeRoutine`,
 * `DropOffAnimalsRoutine`, `PickupAnimalsRoutine`): drop animals into the
 * empty barrels around it, then pick animals up from the blocks and
 * barrels around it.
 */
module Handling {
  import opened Optional
  import opened Geometry
  import opened Seqs
  import opened Animals
  import opened Barrels
  import opened Shepherds
  import opened Neighbours

  /** Two states of one shepherd that differ at most in what it carries. */
  predicate SameWalker(s: Shepherd, t: Shepherd)
  {
    t.id == s.id && t.start == s.start && t.priority == s.priority && t.path == s.path && t.index == s.index
  }

  /**
   * What the pickup and drop-off of one shepherd touch: the shepherd
   * itself, the animals' flags and the barrels.
   */
  datatype Hands = Hands(carrier: Shepherd, flags: AnimalFlags, barrels: map<Cell, Barrel>)

  /** Only the carried list, the flags and the barrels' contents changed; nothing was unmarked. */
  predicate HandsMove(h: Hands, r: Hands)
  {
    SameWalker(h.carrier, r.carrier) && r.barrels.Keys == h.barrels.Keys && h.flags.pickedUp <= r.flags.pickedUp
  }

  /** `Stocked` for one pair of hands. */
  predicate HandsStocked(h: Hands)
  {
    && Distinct(h.carrier.animals)
    && (forall a :: a in h.carrier.animals ==> a in h.flags.pickedUp)
    && (forall c :: c in h.barrels && h.barrels[c].animal.Some? ==> h.barrels[c].animal.value in h.flags.pickedUp)
  }

  /** `shepherd.AnimalPickedUp(a)`. */
  function Pick(h: Hands, a: Animal): (r: Hands)
    ensures HandsMove(h, r) && r.barrels == h.barrels && a in r.carrier.animals
    ensures h.carrier.animals <= r.carrier.animals && |r.carrier.animals| <= |h.carrier.animals| + 1
    ensures a !in h.carrier.animals ==>
      r.carrier.animals == h.carrier.animals + [a] && r.flags.pickedUp == h.flags.pickedUp + {a}
    ensures a in h.carrier.animals ==> r == h
    ensures HandsStocked(h) ==> HandsStocked(r)
  {
    var c := AnimalPickedUp(h.carrier, h.flags, Some(a));
    Hands(c.shepherd, c.flags, h.barrels)
  }

  function Min(a: int, b: int): int
  {
    if a < b then a else b
  }

  /** One round of the drop-off loop: the last animal is dropped off and goes into barrel e. */
  function DropOne(h: Hands, e: Cell): (r: Hands)
    requires e in h.barrels && |h.carrier.animals| > 0
    ensures HandsMove(h, r) && r.flags.pickedUp == h.flags.pickedUp
    ensures var A := h.carrier.animals;
      r.barrels == h.barrels[e := AddAnimal(h.barrels[e], Some(A[|A| - 1]))]
    ensures var A := h.carrier.animals;
      Distinct(A) ==> r.carrier.animals == A[..|A| - 1] && Distinct(r.carrier.animals)
    ensures multiset(r.carrier.animals) <= multiset(h.carrier.animals)
  {
    var A := h.carrier.animals;
    var a := A[|A| - 1];
    var c := AnimalDroppedOff(h.carrier, h.flags, Some(a));
    assert Distinct(A) ==> c.shepherd.animals == A[..|A| - 1] by {
      if Distinct(A) { DistinctLastIndex(A); }
    }
    Hands(c.shepherd, c.flags, h.barrels[e := AddAnimal(h.barrels[e], Some(a))])
  }

  /** A drop-off round keeps the bookkeeping: the dropped animal was marked, and stays marked. */
  lemma DropOneStocked(h: Hands, e: Cell)
    requires e in h.barrels && |h.carrier.animals| > 0 && HandsStocked(h)
    ensures HandsStocked(DropOne(h, e))
  {
    var r := DropOne(h, e);
    var A := h.carrier.animals;
    assert A[|A| - 1] in A;
    forall b | b in r.carrier.animals ensures b in r.flags.pickedUp {
      assert b in multiset(r.carrier.animals);
    }
  }

  /** Every barrel outside `cells` is as it was. */
  predicate KeptOutside(a: map<Cell, Barrel>, b: map<Cell, Barrel>, cells: seq<Cell>)
  {
    forall c :: c in a && c !in cells ==> c in b && b[c] == a[c]
  }

  /**
   * The drop-off loop with `DropOffAnimalsRoutine`: for each barrel in
   * turn, the shepherd's most recent animal is dropped off and put into
   * it, until the barrels or the animals run out.
   */
  function DropInto(h: Hands, empties: seq<Cell>): (r: Hands)
    requires forall c :: c in empties ==> c in h.barrels
    ensures HandsMove(h, r) && r.flags.pickedUp == h.flags.pickedUp
    ensures KeptOutside(h.barrels, r.barrels, empties)
    decreases |empties|
  {
    if |empties| == 0 || |h.carrier.animals| == 0 then h
    else
      assert forall c :: c in empties[1..] ==> c in empties;
      DropInto(DropOne(h, empties[0]), empties[1..])
  }

  lemma {:induction false} DropIntoStocked(h: Hands, empties: seq<Cell>)
    requires forall c :: c in empties ==> c in h.barrels
    requires HandsStocked(h)
    ensures HandsStocked(DropInto(h, empties))
    decreases |empties|
  {
    if |empties| > 0 && |h.carrier.animals| > 0 {
      DropOneStocked(h, empties[0]);
      assert forall c :: c in empties[1..] ==> c in empties;
      DropIntoStocked(DropOne(h, empties[0]), empties[1..]);
    }
  }

  /**
   * Dropping off goes from the most recent animal back: with k the
   * smaller of the number of barrels and of animals, the shepherd keeps
   * all but its last k animals.
   */
  lemma {:induction false} DropIntoKeepsPrefix(h: Hands, empties: seq<Cell>)
    requires forall c :: c in empties ==> c in h.barrels
    requires Distinct(h.carrier.animals)
    ensures var A := h.carrier.animals;
      DropInto(h, empties).carrier.animals == A[..|A| - Min(|empties|, |A|)]
    decreases |empties|
  {
    var A := h.carrier.animals;
    if |empties| > 0 && |A| > 0 {
      assert forall c :: c in empties[1..] ==> c in empties;
      var h' := DropOne(h, empties[0]);
      DropIntoKeepsPrefix(h', empties[1..]);
      var k := Min(|empties|, |A|);
      assert Min(|empties[1..]|, |h'.carrier.animals|) == k - 1;
      PrefixOfPrefix(A, |A| - 1, |A| - k);
    }
  }

  /**
   * The barrels after the drop-off, computed on the barrels alone: the
   * first cell gets the last animal, and so on down both lists.
   */
  function Filled(barrels: map<Cell, Barrel>, empties: seq<Cell>, A: seq<Animal>): (r: map<Cell, Barrel>)
    requires forall c :: c in empties ==> c in barrels
    ensures r.Keys == barrels.Keys
    decreases |empties|
  {
    if |empties| == 0 || |A| == 0 then barrels
    else
      assert forall c :: c in empties[1..] ==> c in empties;
      Filled(barrels[empties[0] := AddAnimal(barrels[empties[0]], Some(A[|A| - 1]))], empties[1..], A[..|A| - 1])
  }

  /** With no animal carried twice, the drop-off loop leaves the barrels as `Filled` says. */
  lemma {:induction false} DropIntoFilled(h: Hands, empties: seq<Cell>)
    requires forall c :: c in empties ==> c in h.barrels
    requires Distinct(h.carrier.animals)
    ensures DropInto(h, empties).barrels == Filled(h.barrels, empties, h.carrier.animals)
    decreases |empties|
  {
    if |empties| > 0 && |h.carrier.animals| > 0 {
      assert forall c :: c in empties[1..] ==> c in empties;
      DropIntoFilled(DropOne(h, empties[0]), empties[1..]);
    }
  }

  /**
   * Into distinct empty barrels, the j-th barrel, for j below the
   * smaller of the two counts, receives the j-th animal counted from the
   * end.
   */
  lemma {:induction false} FilledLastFirst(barrels: map<Cell, Barrel>, empties: seq<Cell>, A: seq<Animal>)
    requires forall c :: c in empties ==> c in barrels
    requires Distinct(empties) && forall c :: c in empties ==> Barrels.IsEmpty(barrels[c])
    ensures var r := Filled(barrels, empties, A);
      forall j :: 0 <= j < Min(|empties|, |A|) ==> r[empties[j]].animal == Some(A[|A| - 1 - j])
    decreases |empties|
  {
    if |empties| > 0 && |A| > 0 {
      var e := empties[0];
      var b' := barrels[e := AddAnimal(barrels[e], Some(A[|A| - 1]))];
      var A' := A[..|A| - 1];
      DistinctTail(empties);
      assert forall c :: c in empties[1..] ==> c in empties && c != e;
      FilledLastFirst(b', empties[1..], A');
      var r := Filled(b', empties[1..], A');
      assert Filled(barrels, empties, A) == r;
      FilledOutside(b', empties[1..], A', e);
      var k := Min(|empties|, |A|);
      forall j | 0 < j < k ensures r[empties[j]].animal == Some(A[|A| - 1 - j]) {
        TailIndex(empties, j);
        FromEndIndex(A, j);
      }
    }
  }

  /** `Filled` leaves a cell outside the list alone. */
  lemma {:induction false} FilledOutside(barrels: map<Cell, Barrel>, empties: seq<Cell>, A: seq<Animal>, c: Cell)
    requires forall c :: c in empties ==> c in barrels
    requires c in barrels && c !in empties
    ensures Filled(barrels, empties, A)[c] == barrels[c]
    decreases |empties|
  {
    if |empties| > 0 && |A| > 0 {
      assert forall c :: c in empties[1..] ==> c in empties;
      FilledOutside(barrels[empties[0] := AddAnimal(barrels[empties[0]], Some(A[|A| - 1]))], empties[1..], A[..|A| - 1], c);
    }
  }

  /** The barrels among `cells` that hold no animal, in order. */
  function EmptyBarrels(barrels: map<Cell, Barrel>, cells: seq<Cell>): (r: seq<Cell>)
    requires forall c :: c in cells ==> c in barrels
    ensures forall c :: c in r <==> c in cells && Barrels.IsEmpty(barrels[c])
    ensures Distinct(cells) ==> Distinct(r)
    decreases |cells|
  {
    if |cells| == 0 then []
    else
      assert forall c :: c in cells <==> c == cells[0] || c in cells[1..] by {
        assert cells == [cells[0]] + cells[1..];
      }
      var rest := EmptyBarrels(barrels, cells[1..]);
      if Barrels.IsEmpty(barrels[cells[0]]) then
        assert Distinct(cells) ==> Distinct([cells[0]] + rest) by {
          if Distinct(cells) {
            DistinctTail(cells);
            DistinctCons(cells[0], rest);
          }
        }
        [cells[0]] + rest
      else
        assert Distinct(cells) ==> Distinct(rest) by {
          if Distinct(cells) { DistinctTail(cells); }
        }
        rest
  }

  /**
   * The empty barrels next to `pos` that no shepherd claimed this turn,
   * in the order of the priority directions.
   */
  function FreeBarrels(barrels: map<Cell, Barrel>, pos: Cell, ignore: set<Cell>): (r: seq<Cell>)
    ensures forall c :: c in r <==> c in barrels && c !in ignore && Adjacent(pos, c) && Barrels.IsEmpty(barrels[c])
    ensures Distinct(r)
  {
    EmptyBarrels(barrels, Neighbors(pos, barrels.Keys, ignore))
  }

  /**
   * What one shepherd's action took: its hands afterwards, and the animal
   * blocks and barrels it claimed, in order.
   */
  datatype Claims = Claims(hands: Hands, animals: seq<Cell>, barrels: seq<Cell>)

  function Count(c: Claims): nat
  {
    |c.animals| + |c.barrels|
  }

  /**
   * The drop-off of one shepherd standing at `pos`: when it carries
   * anything and some neighbouring barrel is empty and unclaimed, all
   * such barrels are claimed and filled from its most recent animal
   * back.
   */
  function DropOff(h: Hands, pos: Cell, ignore: set<Cell>): (r: Claims)
    ensures HandsMove(h, r.hands) && r.hands.flags.pickedUp == h.flags.pickedUp && r.animals == []
    ensures KeptOutside(h.barrels, r.hands.barrels, r.barrels)
    ensures r.barrels == if |h.carrier.animals| == 0 then [] else FreeBarrels(h.barrels, pos, ignore)
    ensures HandsStocked(h) ==> HandsStocked(r.hands)
  {
    if |h.carrier.animals| == 0 then Claims(h, [], [])
    else
      var free := FreeBarrels(h.barrels, pos, ignore);
      if |free| == 0 then Claims(h, [], [])
      else
        assert HandsStocked(h) ==> HandsStocked(DropInto(h, free)) by {
          if HandsStocked(h) { DropIntoStocked(h, free); }
        }
        Claims(DropInto(h, free), [], free)
  }

  /**
   * With k the smaller of the number of free barrels and of animals
   * carried, the shepherd keeps all but its last k animals, and the j-th
   * free barrel in priority order receives the j-th animal counted from
   * the end.
   */
  lemma DropOffLastFirst(h: Hands, pos: Cell, ignore: set<Cell>)
    requires Distinct(h.carrier.animals)
    ensures DroppedLastFirst(h, FreeBarrels(h.barrels, pos, ignore), DropOff(h, pos, ignore).hands)
  {
    var A := h.carrier.animals;
    var free := FreeBarrels(h.barrels, pos, ignore);
    var r := DropOff(h, pos, ignore);
    if |A| > 0 && |free| > 0 {
      assert r.hands == DropInto(h, free);
      assert forall c :: c in free ==> c in h.barrels && Barrels.IsEmpty(h.barrels[c]);
      DropIntoLastFirst(h, free);
    } else {
      assert r.hands == h;
      assert A[..|A|] == A;
    }
  }

  /**
   * With k the smaller of the number of free barrels and of animals
   * carried by h, r keeps all but the last k animals, and the j-th free
   * barrel holds the j-th animal counted from the end.
   */
  predicate DroppedLastFirst(h: Hands, free: seq<Cell>, r: Hands)
  {
    var A := h.carrier.animals;
    var k := Min(|free|, |A|);
    && r.carrier.animals == A[..|A| - k]
    && forall j :: 0 <= j < k ==> free[j] in r.barrels && r.barrels[free[j]].animal == Some(A[|A| - 1 - j])
  }

  /** `DropOffLastFirst` for the drop-off loop over distinct empty barrels. */
  lemma DropIntoLastFirst(h: Hands, free: seq<Cell>)
    requires forall c :: c in free ==> c in h.barrels
    requires Distinct(free) && forall c :: c in free ==> Barrels.IsEmpty(h.barrels[c])
    requires Distinct(h.carrier.animals)
    ensures DroppedLastFirst(h, free, DropInto(h, free))
  {
    var A := h.carrier.animals;
    var r := DropInto(h, free);
    var f := Filled(h.barrels, free, A);
    FilledLastFirst(h.barrels, free, A);
    DropIntoFilled(h, free);
    assert r.barrels == f;
    forall j | 0 <= j < Min(|free|, |A|) ensures free[j] in r.barrels && r.barrels[free[j]].animal == Some(A[|A| - 1 - j]) {
      assert free[j] in free;
    }
    DropIntoKeepsPrefix(h, free);
  }

  // -------------------------------------------------------------- pickup

  /** Block `c` holds an animal of kind `kind` that still stands on it. */
  predicate LooseOfKind(c: Cell, homes: map<Cell, Animal>, pickedUp: set<Animal>, kind: nat)
  {
    c in homes && homes[c] !in pickedUp && homes[c].kind == kind
  }

  /** Barrel `c` holds an animal of kind `kind`. */
  predicate HeldOfKind(c: Cell, barrels: map<Cell, Barrel>, kind: nat)
  {
    c in barrels && barrels[c].animal.Some? && barrels[c].animal.value.kind == kind
  }

  /** The index of the first cell of `cells` with a standing animal of kind `kind`, or -1. */
  function FirstLoose(cells: seq<Cell>, homes: map<Cell, Animal>, pickedUp: set<Animal>, kind: nat): (r: int)
    ensures -1 <= r < |cells|
    ensures r >= 0 ==> LooseOfKind(cells[r], homes, pickedUp, kind)
    ensures forall k :: 0 <= k < |cells| && (r == -1 || k < r) ==> !LooseOfKind(cells[k], homes, pickedUp, kind)
    decreases |cells|
  {
    if |cells| == 0 then -1
    else if LooseOfKind(cells[0], homes, pickedUp, kind) then 0
    else
      var k := FirstLoose(cells[1..], homes, pickedUp, kind);
      if k == -1 then -1 else k + 1
  }

  /** The index of the first cell of `cells` whose barrel holds an animal of kind `kind`, or -1. */
  function FirstHeld(cells: seq<Cell>, barrels: map<Cell, Barrel>, kind: nat): (r: int)
    ensures -1 <= r < |cells|
    ensures r >= 0 ==> HeldOfKind(cells[r], barrels, kind)
    ensures forall k :: 0 <= k < |cells| && (r == -1 || k < r) ==> !HeldOfKind(cells[k], barrels, kind)
    decreases |cells|
  {
    if |cells| == 0 then -1
    else if HeldOfKind(cells[0], barrels, kind) then 0
    else
      var k := FirstHeld(cells[1..], barrels, kind);
      if k == -1 then -1 else k + 1
  }

  /**
   * The match step: a shepherd that carries animals first claims the
   * first neighbouring standing animal, and the first neighbouring barrel
   * animal, of the kind of its first animal. Nothing is picked up yet.
   */
  function Matches(h: Hands, pos: Cell, homes: map<Cell, Animal>, ignoreA: set<Cell>, ignoreB: set<Cell>): (r: Claims)
    ensures r.hands == h && |r.animals| <= 1 && |r.barrels| <= 1
    ensures |h.carrier.animals| == 0 ==> r.animals == [] && r.barrels == []
    ensures forall c :: c in r.animals ==>
      c in homes && c !in ignoreA && Adjacent(pos, c) && LooseOfKind(c, homes, h.flags.pickedUp, h.carrier.animals[0].kind)
    ensures forall c :: c in r.barrels ==>
      c in h.barrels && c !in ignoreB && Adjacent(pos, c) && HeldOfKind(c, h.barrels, h.carrier.animals[0].kind)
    ensures |h.carrier.animals| > 0 ==>
      (r.animals == [] <==> forall c :: c in homes && c !in ignoreA && Adjacent(pos, c) ==>
        !LooseOfKind(c, homes, h.flags.pickedUp, h.carrier.animals[0].kind))
    ensures |h.carrier.animals| > 0 ==>
      (r.barrels == [] <==> forall c :: c in h.barrels && c !in ignoreB && Adjacent(pos, c) ==>
        !HeldOfKind(c, h.barrels, h.carrier.animals[0].kind))
  {
    if |h.carrier.animals| == 0 then Claims(h, [], [])
    else
      var kind := h.carrier.animals[0].kind;
      var adjA := Neighbors(pos, homes.Keys, ignoreA);
      var adjB := Neighbors(pos, h.barrels.Keys, ignoreB);
      var ia := FirstLoose(adjA, homes, h.flags.pickedUp, kind);
      var ib := FirstHeld(adjB, h.barrels, kind);
      Claims(h, if ia >= 0 then [adjA[ia]] else [], if ib >= 0 then [adjB[ib]] else [])
  }

  /**
   * One direction of the scan: the standing animal on the neighbouring
   * block (when the block is free) is picked up and claimed, then the
   * animal in the neighbouring barrel (when the barrel is free).
   */
  function ScanStep(c: Claims, pos: Cell, homes: map<Cell, Animal>, freeA: set<Cell>, freeB: set<Cell>, d: Vec): (r: Claims)
    requires freeA <= homes.Keys && freeB <= c.hands.barrels.Keys
    ensures HandsMove(c.hands, r.hands) && r.hands.barrels == c.hands.barrels
    ensures c.hands.carrier.animals <= r.hands.carrier.animals
    ensures var x := Offset(pos, d);
      || r.animals == c.animals
      || (&& r.animals == c.animals + [x] && x in freeA && homes[x] !in c.hands.flags.pickedUp
          && homes[x] in r.hands.carrier.animals)
    ensures var x := Offset(pos, d);
      || r.barrels == c.barrels
      || (&& r.barrels == c.barrels + [x] && x in freeB && c.hands.barrels[x].animal.Some?
          && c.hands.barrels[x].animal.value in r.hands.carrier.animals)
    ensures |r.hands.carrier.animals| - |c.hands.carrier.animals| <= Count(r) - Count(c)
    ensures freeA !! freeB ==> Count(r) <= Count(c) + 1
    ensures HandsStocked(c.hands) ==> HandsStocked(r.hands)
  {
    var x := Offset(pos, d);
    var c1 := if x in freeA && homes[x] !in c.hands.flags.pickedUp
      then Claims(Pick(c.hands, homes[x]), c.animals + [x], c.barrels) else c;
    if x in freeB && c1.hands.barrels[x].animal.Some?
    then Claims(Pick(c1.hands, c1.hands.barrels[x].animal.value), c1.animals, c1.barrels + [x])
    else c1
  }

  /**
   * The direction scan: the directions are taken in priority order, and
   * the scan stops once the claims reach `room`.
   */
  function Scan(c: Claims, pos: Cell, homes: map<Cell, Animal>, freeA: set<Cell>, freeB: set<Cell>, room: int, dirs: seq<Vec>): (r: Claims)
    requires freeA <= homes.Keys && freeB <= c.hands.barrels.Keys
    ensures HandsMove(c.hands, r.hands) && r.hands.barrels == c.hands.barrels
    ensures c.hands.carrier.animals <= r.hands.carrier.animals
    ensures c.animals <= r.animals && c.barrels <= r.barrels
    ensures forall k :: |c.animals| <= k < |r.animals| ==> r.animals[k] in freeA
    ensures forall k :: |c.barrels| <= k < |r.barrels| ==> r.barrels[k] in freeB
    decreases |dirs|
  {
    if |dirs| == 0 then c
    else
      var c2 := ScanStep(c, pos, homes, freeA, freeB, dirs[0]);
      if Count(c2) >= room then c2
      else Scan(c2, pos, homes, freeA, freeB, room, dirs[1..])
  }

  /**
   * Every block the scan claims is free, lies in one of the scanned
   * directions, held a standing animal, and that animal is carried
   * afterwards.
   */
  lemma {:induction false} ScanLoose(c: Claims, pos: Cell, homes: map<Cell, Animal>, freeA: set<Cell>, freeB: set<Cell>, room: int, dirs: seq<Vec>)
    requires freeA <= homes.Keys && freeB <= c.hands.barrels.Keys
    ensures var r := Scan(c, pos, homes, freeA, freeB, room, dirs);
      forall x :: x in r.animals ==>
        || x in c.animals
        || (x in freeA && Diff(x, pos) in dirs && homes[x] !in c.hands.flags.pickedUp && homes[x] in r.hands.carrier.animals)
    decreases |dirs|
  {
    if |dirs| > 0 {
      OffsetDiff(pos, dirs[0]);
      var c2 := ScanStep(c, pos, homes, freeA, freeB, dirs[0]);
      if Count(c2) < room {
        ScanLoose(c2, pos, homes, freeA, freeB, room, dirs[1..]);
        var r := Scan(c2, pos, homes, freeA, freeB, room, dirs[1..]);
        PrefixMembers(c2.hands.carrier.animals, r.hands.carrier.animals);
        assert forall v :: v in dirs[1..] ==> v in dirs;
      }
    }
  }

  /**
   * Every barrel the scan claims is free, lies in one of the scanned
   * directions, held an animal, and that animal is carried afterwards.
   */
  lemma {:induction false} ScanHeld(c: Claims, pos: Cell, homes: map<Cell, Animal>, freeA: set<Cell>, freeB: set<Cell>, room: int, dirs: seq<Vec>)
    requires freeA <= homes.Keys && freeB <= c.hands.barrels.Keys
    ensures var r := Scan(c, pos, homes, freeA, freeB, room, dirs);
      forall x :: x in r.barrels ==>
        || x in c.barrels
        || (x in freeB && Diff(x, pos) in dirs && c.hands.barrels[x].animal.Some? &&
            c.hands.barrels[x].animal.value in r.hands.carrier.animals)
    decreases |dirs|
  {
    if |dirs| > 0 {
      OffsetDiff(pos, dirs[0]);
      var c2 := ScanStep(c, pos, homes, freeA, freeB, dirs[0]);
      if Count(c2) < room {
        ScanHeld(c2, pos, homes, freeA, freeB, room, dirs[1..]);
        var r := Scan(c2, pos, homes, freeA, freeB, room, dirs[1..]);
        PrefixMembers(c2.hands.carrier.animals, r.hands.carrier.animals);
        assert forall v :: v in dirs[1..] ==> v in dirs;
      }
    }
  }

  /** The scan adds at most one carried animal per claim, and keeps the bookkeeping. */
  lemma {:induction false} ScanGrowth(c: Claims, pos: Cell, homes: map<Cell, Animal>, freeA: set<Cell>, freeB: set<Cell>, room: int, dirs: seq<Vec>)
    requires freeA <= homes.Keys && freeB <= c.hands.barrels.Keys
    ensures var r := Scan(c, pos, homes, freeA, freeB, room, dirs);
      && |r.hands.carrier.animals| - |c.hands.carrier.animals| <= Count(r) - Count(c)
      && (HandsStocked(c.hands) ==> HandsStocked(r.hands))
    decreases |dirs|
  {
    if |dirs| > 0 {
      var c2 := ScanStep(c, pos, homes, freeA, freeB, dirs[0]);
      if Count(c2) < room {
        ScanGrowth(c2, pos, homes, freeA, freeB, room, dirs[1..]);
      }
    }
  }

  /**
   * When no cell is both a block and a barrel, each direction adds at
   * most one claim, so a scan started below `room` ends at most at
   * `room`.
   */
  lemma {:induction false} ScanRoom(c: Claims, pos: Cell, homes: map<Cell, Animal>, freeA: set<Cell>, freeB: set<Cell>, room: int, dirs: seq<Vec>)
    requires freeA <= homes.Keys && freeB <= c.hands.barrels.Keys
    requires freeA !! freeB && Count(c) < room
    ensures Count(Scan(c, pos, homes, freeA, freeB, room, dirs)) <= room
    decreases |dirs|
  {
    if |dirs| > 0 {
      var c2 := ScanStep(c, pos, homes, freeA, freeB, dirs[0]);
      if Count(c2) < room {
        ScanRoom(c2, pos, homes, freeA, freeB, room, dirs[1..]);
      }
    }
  }

  /**
   * `PickupAnimalsRoutine` for blocks: each claimed animal is picked up
   * in turn (a no-op for one already carried).
   */
  function CollectLoose(h: Hands, homes: map<Cell, Animal>, cells: seq<Cell>): (r: Hands)
    requires forall c :: c in cells ==> c in homes
    ensures HandsMove(h, r) && r.barrels == h.barrels && h.carrier.animals <= r.carrier.animals
    ensures |r.carrier.animals| <= |h.carrier.animals| + |cells|
    decreases |cells|
  {
    if |cells| == 0 then h
    else
      assert forall c :: c in cells[1..] ==> c in cells;
      CollectLoose(Pick(h, homes[cells[0]]), homes, cells[1..])
  }

  /**
   * After the block routine every claimed animal is carried; when all of
   * them already were, nothing changes; the bookkeeping is kept.
   */
  lemma {:induction false} CollectLooseCarries(h: Hands, homes: map<Cell, Animal>, cells: seq<Cell>)
    requires forall c :: c in cells ==> c in homes
    ensures var r := CollectLoose(h, homes, cells);
      && (forall c :: c in cells ==> homes[c] in r.carrier.animals)
      && ((forall c :: c in cells ==> homes[c] in h.carrier.animals) ==> r == h)
      && (HandsStocked(h) ==> HandsStocked(r))
    decreases |cells|
  {
    if |cells| > 0 {
      assert forall c :: c in cells[1..] ==> c in cells;
      CollectLooseCarries(Pick(h, homes[cells[0]]), homes, cells[1..]);
      assert forall c :: c in cells ==> c == cells[0] || c in cells[1..];
    }
  }

  lemma {:induction false} CollectLooseAppend(h: Hands, homes: map<Cell, Animal>, a: seq<Cell>, b: seq<Cell>)
    requires forall c :: c in a + b ==> c in homes
    ensures CollectLoose(h, homes, a + b) == CollectLoose(CollectLoose(h, homes, a), homes, b)
    decreases |a|
  {
    if |a| > 0 {
      assert (a + b)[0] == a[0] && (a + b)[1..] == a[1..] + b;
      assert forall c :: c in a[1..] + b ==> c in a + b;
      var h1 := Pick(h, homes[a[0]]);
      assert CollectLoose(h, homes, a + b) == CollectLoose(h1, homes, a[1..] + b);
      assert CollectLoose(h, homes, a) == CollectLoose(h1, homes, a[1..]);
      CollectLooseAppend(h1, homes, a[1..], b);
    } else {
      assert a + b == b;
    }
  }

  /** One round of the barrel routine: a barrel that holds an animal gives it up to the shepherd. */
  function Unload(h: Hands, c: Cell): (r: Hands)
    requires c in h.barrels
    ensures HandsMove(h, r) && h.carrier.animals <= r.carrier.animals
    ensures |r.carrier.animals| <= |h.carrier.animals| + 1
    ensures r.barrels == h.barrels[c := r.barrels[c]] && Barrels.IsEmpty(r.barrels[c])
    ensures h.barrels[c].animal.Some? ==> h.barrels[c].animal.value in r.carrier.animals
    ensures h.barrels[c].animal.None? || h.barrels[c].animal.value in h.carrier.animals ==>
      r.carrier.animals == h.carrier.animals
    ensures HandsStocked(h) ==> HandsStocked(r)
  {
    var b := h.barrels[c];
    if b.animal.Some? then Pick(h.(barrels := h.barrels[c := RemoveAnimal(b, b.animal)]), b.animal.value) else h
  }

  /**
   * `PickupAnimalsRoutine` for barrels: each claimed barrel that still
   * holds an animal gives it up, and the shepherd picks it up.
   */
  function CollectHeld(h: Hands, cells: seq<Cell>): (r: Hands)
    requires forall c :: c in cells ==> c in h.barrels
    ensures HandsMove(h, r) && h.carrier.animals <= r.carrier.animals
    ensures KeptOutside(h.barrels, r.barrels, cells)
    ensures |r.carrier.animals| <= |h.carrier.animals| + |cells|
    decreases |cells|
  {
    if |cells| == 0 then h
    else
      assert forall d :: d in cells[1..] ==> d in cells;
      CollectHeld(Unload(h, cells[0]), cells[1..])
  }

  /**
   * After the barrel routine every claimed barrel is empty and the animal
   * it held is carried; the bookkeeping is kept.
   */
  lemma {:induction false} CollectHeldEmpties(h: Hands, cells: seq<Cell>)
    requires forall c :: c in cells ==> c in h.barrels
    ensures var r := CollectHeld(h, cells);
      && (forall c :: c in cells ==>
            && Barrels.IsEmpty(r.barrels[c])
            && (h.barrels[c].animal.Some? ==> h.barrels[c].animal.value in r.carrier.animals))
      && (HandsStocked(h) ==> HandsStocked(r))
    decreases |cells|
  {
    if |cells| > 0 {
      var c := cells[0];
      var h1 := Unload(h, c);
      assert forall d :: d in cells[1..] ==> d in cells;
      CollectHeldEmpties(h1, cells[1..]);
      assert forall d :: d in cells ==> d == c || d in cells[1..];
    }
  }

  /** Barrels whose animals are already carried give them up without the carried list changing. */
  lemma {:induction false} CollectHeldCarried(h: Hands, cells: seq<Cell>)
    requires forall c :: c in cells ==> c in h.barrels
    requires forall c :: c in cells && h.barrels[c].animal.Some? ==> h.barrels[c].animal.value in h.carrier.animals
    ensures CollectHeld(h, cells).carrier.animals == h.carrier.animals
    decreases |cells|
  {
    if |cells| > 0 {
      var c := cells[0];
      var h1 := Unload(h, c);
      assert forall d :: d in cells[1..] ==> d in cells;
      assert forall d :: d in cells[1..] && h1.barrels[d].animal.Some? ==> h1.barrels[d].animal.value in h1.carrier.animals by {
        forall d | d in cells[1..] && h1.barrels[d].animal.Some? ensures h1.barrels[d].animal.value in h1.carrier.animals {
          if d != c { assert h1.barrels[d] == h.barrels[d]; }
        }
      }
      CollectHeldCarried(h1, cells[1..]);
    }
  }

  lemma {:induction false} CollectHeldAppend(h: Hands, a: seq<Cell>, b: seq<Cell>)
    requires forall c :: c in a + b ==> c in h.barrels
    ensures forall c :: c in b ==> c in CollectHeld(h, a).barrels
    ensures CollectHeld(h, a + b) == CollectHeld(CollectHeld(h, a), b)
    decreases |a|
  {
    if |a| > 0 {
      assert (a + b)[0] == a[0] && (a + b)[1..] == a[1..] + b;
      assert forall d :: d in a[1..] + b ==> d in a + b;
      var h1 := Unload(h, a[0]);
      assert CollectHeld(h, a + b) == CollectHeld(h1, a[1..] + b);
      assert CollectHeld(h, a) == CollectHeld(h1, a[1..]);
      CollectHeldAppend(h1, a[1..], b);
    } else {
      assert a + b == b;
    }
  }

  /** The direction scan runs only while the matches leave room; its free cells are the unmatched neighbours. */
  function ScanAfter(m: Claims, pos: Cell, homes: map<Cell, Animal>, ignoreA: set<Cell>, ignoreB: set<Cell>, room: int): (r: Claims)
    requires forall x :: x in m.animals ==> x in homes
    requires forall x :: x in m.barrels ==> x in m.hands.barrels
    ensures HandsMove(m.hands, r.hands) && r.hands.barrels == m.hands.barrels
    ensures m.hands.carrier.animals <= r.hands.carrier.animals
    ensures m.animals <= r.animals && m.barrels <= r.barrels
    ensures forall x :: x in r.animals ==> x in homes
    ensures forall x :: x in r.barrels ==> x in r.hands.barrels
  {
    if Count(m) < room then
      var freeA := homes.Keys - ignoreA - (set x | x in m.animals);
      var freeB := m.hands.barrels.Keys - ignoreB - (set x | x in m.barrels);
      ScanLoose(m, pos, homes, freeA, freeB, room, Cardinals);
      ScanHeld(m, pos, homes, freeA, freeB, room, Cardinals);
      Scan(m, pos, homes, freeA, freeB, room, Cardinals)
    else m
  }

  /** The two pickup routines, blocks first and then barrels, run over the claims. */
  function Collect(s: Claims, homes: map<Cell, Animal>): (r: Hands)
    requires forall x :: x in s.animals ==> x in homes
    requires forall x :: x in s.barrels ==> x in s.hands.barrels
    ensures HandsMove(s.hands, r) && s.hands.carrier.animals <= r.carrier.animals
    ensures KeptOutside(s.hands.barrels, r.barrels, s.barrels)
  {
    CollectHeld(CollectLoose(s.hands, homes, s.animals), s.barrels)
  }

  /** The pickup once the matches `m` are known: the scan, then the two routines. */
  function PickUpFrom(m: Claims, pos: Cell, homes: map<Cell, Animal>, ignoreA: set<Cell>, ignoreB: set<Cell>, room: int): (r: Claims)
    requires forall x :: x in m.animals ==> x in homes
    requires forall x :: x in m.barrels ==> x in m.hands.barrels
    ensures HandsMove(m.hands, r.hands) && m.hands.carrier.animals <= r.hands.carrier.animals
    ensures KeptOutside(m.hands.barrels, r.hands.barrels, r.barrels)
    ensures m.animals <= r.animals && m.barrels <= r.barrels
  {
    var s := ScanAfter(m, pos, homes, ignoreA, ignoreB, room);
    Claims(Collect(s, homes), s.animals, s.barrels)
  }

  /** The number of animals the carrier of `h` still has room for under `max`. */
  function Room(h: Hands, max: int): int
  {
    max - |h.carrier.animals|
  }

  /**
   * The pickup of one shepherd standing at `pos` that can carry up to
   * `max` animals: the match step, then the direction scan while the
   * claims stay below the room left, then the two pickup routines.
   */
  function PickUp(h: Hands, pos: Cell, homes: map<Cell, Animal>, ignoreA: set<Cell>, ignoreB: set<Cell>, max: int): (r: Claims)
    ensures HandsMove(h, r.hands) && h.carrier.animals <= r.hands.carrier.animals
    ensures KeptOutside(h.barrels, r.hands.barrels, r.barrels)
    ensures !CanCarryMoreAnimals(h.carrier, max) ==> r == Claims(h, [], [])
  {
    if !CanCarryMoreAnimals(h.carrier, max) then Claims(h, [], [])
    else PickUpFrom(Matches(h, pos, homes, ignoreA, ignoreB), pos, homes, ignoreA, ignoreB, Room(h, max))
  }

  // ---------------------------------------------------- pickup properties

  /** Claimed blocks are free neighbours whose animal was standing, before the scan and after it. */
  lemma ScanAfterLoose(m: Claims, pos: Cell, homes: map<Cell, Animal>, ignoreA: set<Cell>, ignoreB: set<Cell>, room: int)
    requires forall x :: x in m.animals ==>
      x in homes && x !in ignoreA && Adjacent(pos, x) && homes[x] !in m.hands.flags.pickedUp
    requires forall x :: x in m.barrels ==> x in m.hands.barrels
    ensures var s := ScanAfter(m, pos, homes, ignoreA, ignoreB, room);
      forall x :: x in s.animals ==>
        x in homes && x !in ignoreA && Adjacent(pos, x) && homes[x] !in m.hands.flags.pickedUp
  {
    if Count(m) < room {
      var freeA := homes.Keys - ignoreA - (set x | x in m.animals);
      var freeB := m.hands.barrels.Keys - ignoreB - (set x | x in m.barrels);
      ScanLoose(m, pos, homes, freeA, freeB, room, Cardinals);
      forall x | Diff(x, pos) in Cardinals ensures Adjacent(pos, x) {
        assert Offset(pos, Diff(x, pos)) == x;
      }
    }
  }

  /** Claimed barrels are free neighbours that held an animal, before the scan and after it. */
  lemma ScanAfterHeld(m: Claims, pos: Cell, homes: map<Cell, Animal>, ignoreA: set<Cell>, ignoreB: set<Cell>, room: int)
    requires forall x :: x in m.animals ==> x in homes
    requires forall x :: x in m.barrels ==>
      x in m.hands.barrels && x !in ignoreB && Adjacent(pos, x) && m.hands.barrels[x].animal.Some?
    ensures var s := ScanAfter(m, pos, homes, ignoreA, ignoreB, room);
      forall x :: x in s.barrels ==>
        x in m.hands.barrels && x !in ignoreB && Adjacent(pos, x) && m.hands.barrels[x].animal.Some?
  {
    if Count(m) < room {
      var freeA := homes.Keys - ignoreA - (set x | x in m.animals);
      var freeB := m.hands.barrels.Keys - ignoreB - (set x | x in m.barrels);
      ScanHeld(m, pos, homes, freeA, freeB, room, Cardinals);
      forall x | Diff(x, pos) in Cardinals ensures Adjacent(pos, x) {
        assert Offset(pos, Diff(x, pos)) == x;
      }
    }
  }

  /**
   * The claims `s` holds beyond the matches `m` are new, and their
   * animals are already carried.
   */
  predicate ExtrasCarried(m: Claims, s: Claims, homes: map<Cell, Animal>)
  {
    ExtraAnimalsCarried(m, s, homes) && ExtraBarrelsCarried(m, s)
  }

  predicate ExtraAnimalsCarried(m: Claims, s: Claims, homes: map<Cell, Animal>)
  {
    forall k :: |m.animals| <= k < |s.animals| ==>
      s.animals[k] !in m.animals && s.animals[k] in homes && homes[s.animals[k]] in s.hands.carrier.animals
  }

  predicate ExtraBarrelsCarried(m: Claims, s: Claims)
  {
    forall k :: |m.barrels| <= k < |s.barrels| ==>
      && s.barrels[k] !in m.barrels && s.barrels[k] in s.hands.barrels && s.hands.barrels[s.barrels[k]].animal.Some?
      && s.hands.barrels[s.barrels[k]].animal.value in s.hands.carrier.animals
  }

  /** The scan's own claims come after the matches, are new, and are already carried when the routines start. */
  lemma ScanAfterNew(m: Claims, pos: Cell, homes: map<Cell, Animal>, ignoreA: set<Cell>, ignoreB: set<Cell>, room: int)
    requires forall x :: x in m.animals ==> x in homes
    requires forall x :: x in m.barrels ==> x in m.hands.barrels
    ensures ExtrasCarried(m, ScanAfter(m, pos, homes, ignoreA, ignoreB, room), homes)
  {
    if Count(m) < room {
      var freeA := homes.Keys - ignoreA - (set x | x in m.animals);
      var freeB := m.hands.barrels.Keys - ignoreB - (set x | x in m.barrels);
      ScanLoose(m, pos, homes, freeA, freeB, room, Cardinals);
      ScanHeld(m, pos, homes, freeA, freeB, room, Cardinals);
      var s := Scan(m, pos, homes, freeA, freeB, room, Cardinals);
      forall k | |m.animals| <= k < |s.animals|
        ensures s.animals[k] !in m.animals && s.animals[k] in homes && homes[s.animals[k]] in s.hands.carrier.animals
      {
        assert s.animals[k] in freeA && s.animals[k] in s.animals;
      }
      forall k | |m.barrels| <= k < |s.barrels|
        ensures && s.barrels[k] !in m.barrels && s.barrels[k] in s.hands.barrels && s.hands.barrels[s.barrels[k]].animal.Some?
                && s.hands.barrels[s.barrels[k]].animal.value in s.hands.carrier.animals
      {
        assert s.barrels[k] in freeB && s.barrels[k] in s.barrels;
      }
    }
  }

  /** The scan adds no more carried animals than claims. */
  lemma ScanAfterGrowth(m: Claims, pos: Cell, homes: map<Cell, Animal>, ignoreA: set<Cell>, ignoreB: set<Cell>, room: int)
    requires forall x :: x in m.animals ==> x in homes
    requires forall x :: x in m.barrels ==> x in m.hands.barrels
    ensures var s := ScanAfter(m, pos, homes, ignoreA, ignoreB, room);
      |s.hands.carrier.animals| - |m.hands.carrier.animals| <= Count(s) - Count(m)
  {
    if Count(m) < room {
      var freeA := homes.Keys - ignoreA - (set x | x in m.animals);
      var freeB := m.hands.barrels.Keys - ignoreB - (set x | x in m.barrels);
      ScanGrowth(m, pos, homes, freeA, freeB, room, Cardinals);
    }
  }

  /** The scan keeps the bookkeeping. */
  lemma ScanAfterStocked(m: Claims, pos: Cell, homes: map<Cell, Animal>, ignoreA: set<Cell>, ignoreB: set<Cell>, room: int)
    requires forall x :: x in m.animals ==> x in homes
    requires forall x :: x in m.barrels ==> x in m.hands.barrels
    requires HandsStocked(m.hands)
    ensures HandsStocked(ScanAfter(m, pos, homes, ignoreA, ignoreB, room).hands)
  {
    if Count(m) < room {
      var freeA := homes.Keys - ignoreA - (set x | x in m.animals);
      var freeB := m.hands.barrels.Keys - ignoreB - (set x | x in m.barrels);
      ScanGrowth(m, pos, homes, freeA, freeB, room, Cardinals);
    }
  }

  /** With disjoint blocks and barrels the scan stops at the room left, unless the matches already filled it. */
  lemma ScanAfterRoom(m: Claims, pos: Cell, homes: map<Cell, Animal>, ignoreA: set<Cell>, ignoreB: set<Cell>, room: int)
    requires forall x :: x in m.animals ==> x in homes
    requires forall x :: x in m.barrels ==> x in m.hands.barrels
    requires homes.Keys !! m.hands.barrels.Keys
    ensures var s := ScanAfter(m, pos, homes, ignoreA, ignoreB, room);
      Count(s) <= room || s == m
  {
    if Count(m) < room {
      var freeA := homes.Keys - ignoreA - (set x | x in m.animals);
      var freeB := m.hands.barrels.Keys - ignoreB - (set x | x in m.barrels);
      ScanRoom(m, pos, homes, freeA, freeB, room, Cardinals);
    }
  }

  /** After the routines every claimed animal is carried and every claimed barrel is empty. */
  lemma CollectClaims(s: Claims, homes: map<Cell, Animal>)
    requires forall x :: x in s.animals ==> x in homes
    requires forall x :: x in s.barrels ==> x in s.hands.barrels
    ensures var r := Collect(s, homes);
      && (forall x :: x in s.animals ==> homes[x] in r.carrier.animals)
      && (forall x :: x in s.barrels ==>
            && Barrels.IsEmpty(r.barrels[x])
            && (s.hands.barrels[x].animal.Some? ==> s.hands.barrels[x].animal.value in r.carrier.animals))
      && (HandsStocked(s.hands) ==> HandsStocked(r))
  {
    var h1 := CollectLoose(s.hands, homes, s.animals);
    CollectLooseCarries(s.hands, homes, s.animals);
    var h2 := CollectHeld(h1, s.barrels);
    CollectHeldEmpties(h1, s.barrels);
    PrefixMembers(h1.carrier.animals, h2.carrier.animals);
  }

  /** Blocks whose animals are already carried change nothing after the first `a`. */
  lemma CollectLooseOnly(h: Hands, homes: map<Cell, Animal>, a: seq<Cell>, b: seq<Cell>)
    requires forall c :: c in a + b ==> c in homes
    requires forall c :: c in b ==> homes[c] in h.carrier.animals
    ensures CollectLoose(h, homes, a + b) == CollectLoose(h, homes, a)
  {
    CollectLooseAppend(h, homes, a, b);
    var ha := CollectLoose(h, homes, a);
    PrefixMembers(h.carrier.animals, ha.carrier.animals);
    CollectLooseCarries(ha, homes, b);
  }

  /** Barrels outside `a` whose animals are already carried change no carried list after the first `a`. */
  lemma CollectHeldOnly(h: Hands, a: seq<Cell>, b: seq<Cell>)
    requires forall c :: c in a + b ==> c in h.barrels
    requires forall c :: c in b ==> c !in a
    requires forall c :: c in b && h.barrels[c].animal.Some? ==> h.barrels[c].animal.value in h.carrier.animals
    ensures CollectHeld(h, a + b).carrier.animals == CollectHeld(h, a).carrier.animals
  {
    CollectHeldAppend(h, a, b);
    var ha := CollectHeld(h, a);
    PrefixMembers(h.carrier.animals, ha.carrier.animals);
    assert forall c :: c in b ==> ha.barrels[c] == h.barrels[c];
    CollectHeldCarried(ha, b);
  }

  /** The blocks claimed beyond the first `m` hold animals already carried, so they add nothing. */
  lemma LooseBeyondMatches(s: Claims, m: Claims, homes: map<Cell, Animal>)
    requires forall x :: x in s.animals ==> x in homes
    requires m.animals <= s.animals
    requires ExtraAnimalsCarried(m, s, homes)
    ensures CollectLoose(s.hands, homes, s.animals) == CollectLoose(s.hands, homes, m.animals)
  {
    var sa := s.animals[|m.animals|..];
    PrefixRest(m.animals, s.animals);
    forall x | x in sa ensures homes[x] in s.hands.carrier.animals {
      var k :| 0 <= k < |sa| && sa[k] == x;
      assert s.animals[|m.animals| + k] == x;
    }
    CollectLooseOnly(s.hands, homes, m.animals, sa);
  }

  /** The barrels claimed beyond the first `m` hold animals already carried, so they add nothing. */
  lemma HeldBeyondMatches(h: Hands, s: Claims, m: Claims)
    requires h.barrels == s.hands.barrels && s.hands.carrier.animals <= h.carrier.animals
    requires forall x :: x in s.barrels ==> x in s.hands.barrels
    requires m.barrels <= s.barrels
    requires ExtraBarrelsCarried(m, s)
    ensures CollectHeld(h, s.barrels).carrier.animals == CollectHeld(h, m.barrels).carrier.animals
  {
    var sb := s.barrels[|m.barrels|..];
    PrefixRest(m.barrels, s.barrels);
    PrefixMembers(s.hands.carrier.animals, h.carrier.animals);
    forall y | y in sb ensures y !in m.barrels && h.barrels[y].animal.Some? && h.barrels[y].animal.value in h.carrier.animals {
      var k :| 0 <= k < |sb| && sb[k] == y;
      assert s.barrels[|m.barrels| + k] == y;
    }
    CollectHeldOnly(h, m.barrels, sb);
  }

  /**
   * When the claims beyond the first `m` are all already carried, the
   * routines add at most one animal per claim in `m`.
   */
  lemma CollectOnlyMatches(s: Claims, m: Claims, homes: map<Cell, Animal>)
    requires forall x :: x in s.animals ==> x in homes
    requires forall x :: x in s.barrels ==> x in s.hands.barrels
    requires m.animals <= s.animals && m.barrels <= s.barrels
    requires ExtrasCarried(m, s, homes)
    ensures |Collect(s, homes).carrier.animals| <= |s.hands.carrier.animals| + Count(m)
  {
    LooseBeyondMatches(s, m, homes);
    PrefixMembers(m.animals, s.animals);
    var h1 := CollectLoose(s.hands, homes, m.animals);
    HeldBeyondMatches(h1, s, m);
    PrefixMembers(m.barrels, s.barrels);
  }

  /**
   * The claims of a pickup whose matches are free neighbours: every
   * claimed block held a standing animal that is carried afterwards, and
   * every claimed barrel held an animal that is carried afterwards and is
   * empty.
   */
  lemma ClaimsCollected(m: Claims, pos: Cell, homes: map<Cell, Animal>, ignoreA: set<Cell>, ignoreB: set<Cell>, room: int)
    requires forall x :: x in m.animals ==>
      x in homes && x !in ignoreA && Adjacent(pos, x) && homes[x] !in m.hands.flags.pickedUp
    requires forall x :: x in m.barrels ==>
      x in m.hands.barrels && x !in ignoreB && Adjacent(pos, x) && m.hands.barrels[x].animal.Some?
    ensures var r := PickUpFrom(m, pos, homes, ignoreA, ignoreB, room);
      && (forall x :: x in r.animals ==>
            && x in homes && x !in ignoreA && Adjacent(pos, x) && homes[x] !in m.hands.flags.pickedUp
            && homes[x] in r.hands.carrier.animals)
      && (forall x :: x in r.barrels ==>
            && x in m.hands.barrels && x !in ignoreB && Adjacent(pos, x) && m.hands.barrels[x].animal.Some?
            && m.hands.barrels[x].animal.value in r.hands.carrier.animals && Barrels.IsEmpty(r.hands.barrels[x]))
      && (HandsStocked(m.hands) ==> HandsStocked(r.hands))
  {
    var s := ScanAfter(m, pos, homes, ignoreA, ignoreB, room);
    ScanAfterLoose(m, pos, homes, ignoreA, ignoreB, room);
    ScanAfterHeld(m, pos, homes, ignoreA, ignoreB, room);
    if HandsStocked(m.hands) {
      ScanAfterStocked(m, pos, homes, ignoreA, ignoreB, room);
    }
    CollectClaims(s, homes);
  }

  /**
   * One claimed block with a standing animal and one claimed barrel
   * holding an animal that is picked up but not carried: the routines
   * add both.
   */
  lemma CollectBoth(s: Claims, homes: map<Cell, Animal>)
    requires HandsStocked(s.hands)
    requires |s.animals| == 1 && s.animals[0] in homes && homes[s.animals[0]] !in s.hands.flags.pickedUp
    requires |s.barrels| == 1 && s.barrels[0] in s.hands.barrels && s.hands.barrels[s.barrels[0]].animal.Some?
    requires s.hands.barrels[s.barrels[0]].animal.value !in s.hands.carrier.animals
    ensures |Collect(s, homes).carrier.animals| == |s.hands.carrier.animals| + 2
  {
    var h := s.hands;
    var xa := s.animals[0];
    var h1 := CollectLoose(h, homes, s.animals);
    assert h1 == CollectLoose(Pick(h, homes[xa]), homes, []);
    var yb := s.barrels[0];
    var b := h.barrels[yb].animal.value;
    assert b in h.flags.pickedUp && b != homes[xa];
    assert CollectHeld(h1, s.barrels) == CollectHeld(Unload(h1, yb), []);
  }

  /**
   * With room left, the pickup is the match step followed by the scan and
   * the routines.
   */
  lemma PickUpWithRoom(h: Hands, pos: Cell, homes: map<Cell, Animal>, ignoreA: set<Cell>, ignoreB: set<Cell>, max: int)
    requires CanCarryMoreAnimals(h.carrier, max)
    ensures PickUp(h, pos, homes, ignoreA, ignoreB, max)
         == PickUpFrom(Matches(h, pos, homes, ignoreA, ignoreB), pos, homes, ignoreA, ignoreB, Room(h, max))
  { }

  /**
   * The claims `r` of a pickup by `h` at `pos` are free neighbours: each
   * claimed block held a standing animal that is carried afterwards, and
   * each claimed barrel held an animal that is carried afterwards and is
   * now empty; the bookkeeping is kept.
   */
  predicate ClaimsTaken(h: Hands, pos: Cell, homes: map<Cell, Animal>, ignoreA: set<Cell>, ignoreB: set<Cell>, r: Claims)
  {
    && AnimalsTaken(h, pos, homes, ignoreA, r)
    && BarrelsTaken(h, pos, ignoreB, r)
    && (HandsStocked(h) ==> HandsStocked(r.hands))
  }

  /** Each block claimed in `r` is a free neighbour whose standing animal is carried afterwards. */
  predicate AnimalsTaken(h: Hands, pos: Cell, homes: map<Cell, Animal>, ignoreA: set<Cell>, r: Claims)
  {
    forall x :: x in r.animals ==>
      && x in homes && x !in ignoreA && Adjacent(pos, x) && homes[x] !in h.flags.pickedUp
      && homes[x] in r.hands.carrier.animals
  }

  /** Each barrel claimed in `r` is a free neighbour whose animal is carried afterwards, and it is now empty. */
  predicate BarrelsTaken(h: Hands, pos: Cell, ignoreB: set<Cell>, r: Claims)
  {
    forall x :: x in r.barrels ==>
      && x in h.barrels && x !in ignoreB && Adjacent(pos, x) && h.barrels[x].animal.Some?
      && h.barrels[x].animal.value in r.hands.carrier.animals
      && x in r.hands.barrels && Barrels.IsEmpty(r.hands.barrels[x])
  }

  lemma ClaimsTakenFrom(h: Hands, pos: Cell, homes: map<Cell, Animal>, ignoreA: set<Cell>, ignoreB: set<Cell>, room: int, r: Claims)
    requires r == PickUpFrom(Matches(h, pos, homes, ignoreA, ignoreB), pos, homes, ignoreA, ignoreB, room)
    ensures ClaimsTaken(h, pos, homes, ignoreA, ignoreB, r)
  {
    var m := Matches(h, pos, homes, ignoreA, ignoreB);
    assert forall x :: x in m.animals ==> homes[x] !in h.flags.pickedUp;
    ClaimsCollected(m, pos, homes, ignoreA, ignoreB, room);
  }

  lemma PickUpClaimsWithRoom(h: Hands, pos: Cell, homes: map<Cell, Animal>, ignoreA: set<Cell>, ignoreB: set<Cell>, max: int)
    requires CanCarryMoreAnimals(h.carrier, max)
    ensures ClaimsTaken(h, pos, homes, ignoreA, ignoreB, PickUp(h, pos, homes, ignoreA, ignoreB, max))
  {
    PickUpWithRoom(h, pos, homes, ignoreA, ignoreB, max);
    ClaimsTakenFrom(h, pos, homes, ignoreA, ignoreB, Room(h, max), PickUp(h, pos, homes, ignoreA, ignoreB, max));
  }

  lemma PickUpClaimsWhenFull(h: Hands, pos: Cell, homes: map<Cell, Animal>, ignoreA: set<Cell>, ignoreB: set<Cell>, max: int)
    requires !CanCarryMoreAnimals(h.carrier, max)
    ensures ClaimsTaken(h, pos, homes, ignoreA, ignoreB, PickUp(h, pos, homes, ignoreA, ignoreB, max))
  { }

  /**
   * The pickup claims only free neighbours whose animals were standing or
   * held, and takes every animal it claims.
   */
  lemma PickUpClaims(h: Hands, pos: Cell, homes: map<Cell, Animal>, ignoreA: set<Cell>, ignoreB: set<Cell>, max: int)
    ensures ClaimsTaken(h, pos, homes, ignoreA, ignoreB, PickUp(h, pos, homes, ignoreA, ignoreB, max))
  {
    if CanCarryMoreAnimals(h.carrier, max) {
      PickUpClaimsWithRoom(h, pos, homes, ignoreA, ignoreB, max);
    } else {
      PickUpClaimsWhenFull(h, pos, homes, ignoreA, ignoreB, max);
    }
  }

  /** A free neighbouring block holds a standing animal of kind `kind`. */
  predicate LooseNear(h: Hands, pos: Cell, homes: map<Cell, Animal>, ignoreA: set<Cell>, kind: nat)
  {
    exists x :: x in homes && x !in ignoreA && Adjacent(pos, x) && LooseOfKind(x, homes, h.flags.pickedUp, kind)
  }

  /** A free neighbouring barrel holds an animal of kind `kind`. */
  predicate HeldNear(h: Hands, pos: Cell, ignoreB: set<Cell>, kind: nat)
  {
    exists y :: y in h.barrels && y !in ignoreB && Adjacent(pos, y) && HeldOfKind(y, h.barrels, kind)
  }

  /** When a free neighbouring block holds a standing animal of kind `kind`, the first block claimed in `r` holds one. */
  predicate AnimalFirst(h: Hands, pos: Cell, homes: map<Cell, Animal>, ignoreA: set<Cell>, kind: nat, r: Claims)
  {
    LooseNear(h, pos, homes, ignoreA, kind) ==> |r.animals| > 0 && LooseOfKind(r.animals[0], homes, h.flags.pickedUp, kind)
  }

  /** When a free neighbouring barrel holds an animal of kind `kind`, the first barrel claimed in `r` holds one. */
  predicate BarrelFirst(h: Hands, pos: Cell, ignoreB: set<Cell>, kind: nat, r: Claims)
  {
    HeldNear(h, pos, ignoreB, kind) ==> |r.barrels| > 0 && HeldOfKind(r.barrels[0], h.barrels, kind)
  }

  lemma PrefersMatchFrom(h: Hands, pos: Cell, homes: map<Cell, Animal>, ignoreA: set<Cell>, ignoreB: set<Cell>, room: int, r: Claims)
    requires |h.carrier.animals| > 0
    requires r == PickUpFrom(Matches(h, pos, homes, ignoreA, ignoreB), pos, homes, ignoreA, ignoreB, room)
    ensures AnimalFirst(h, pos, homes, ignoreA, h.carrier.animals[0].kind, r)
    ensures BarrelFirst(h, pos, ignoreB, h.carrier.animals[0].kind, r)
  {
    var m := Matches(h, pos, homes, ignoreA, ignoreB);
    assert m.animals != [] ==> r.animals[0] == m.animals[0];
    assert m.barrels != [] ==> r.barrels[0] == m.barrels[0];
  }

  /**
   * A shepherd that carries animals and has room claims a matching
   * animal first: when some free neighbouring block holds a standing
   * animal of the kind of its first animal, the first block it claims
   * holds one; likewise for barrels.
   */
  lemma PickUpPrefersMatch(h: Hands, pos: Cell, homes: map<Cell, Animal>, ignoreA: set<Cell>, ignoreB: set<Cell>, max: int)
    requires CanCarryMoreAnimals(h.carrier, max) && |h.carrier.animals| > 0
    ensures AnimalFirst(h, pos, homes, ignoreA, h.carrier.animals[0].kind, PickUp(h, pos, homes, ignoreA, ignoreB, max))
    ensures BarrelFirst(h, pos, ignoreB, h.carrier.animals[0].kind, PickUp(h, pos, homes, ignoreA, ignoreB, max))
  {
    PickUpWithRoom(h, pos, homes, ignoreA, ignoreB, max);
    PrefersMatchFrom(h, pos, homes, ignoreA, ignoreB, Room(h, max), PickUp(h, pos, homes, ignoreA, ignoreB, max));
  }

  /**
   * The capacity bound of a pickup `r` by `h` that had room: at most one
   * animal over the maximum, and over it only with room for one and both
   * a matching standing animal and a matching barrel animal next to it.
   */
  predicate WithinCapacity(h: Hands, pos: Cell, homes: map<Cell, Animal>, ignoreA: set<Cell>, ignoreB: set<Cell>, max: int, r: Claims)
  {
    && |r.hands.carrier.animals| <= max + 1
    && (|r.hands.carrier.animals| > max ==>
          && |h.carrier.animals| + 1 == max && |h.carrier.animals| > 0
          && LooseNear(h, pos, homes, ignoreA, h.carrier.animals[0].kind)
          && HeldNear(h, pos, ignoreB, h.carrier.animals[0].kind))
  }

  lemma CapacityFrom(h: Hands, pos: Cell, homes: map<Cell, Animal>, ignoreA: set<Cell>, ignoreB: set<Cell>, max: int, room: int, r: Claims)
    requires homes.Keys !! h.barrels.Keys
    requires CanCarryMoreAnimals(h.carrier, max) && room == Room(h, max)
    requires r == PickUpFrom(Matches(h, pos, homes, ignoreA, ignoreB), pos, homes, ignoreA, ignoreB, room)
    ensures WithinCapacity(h, pos, homes, ignoreA, ignoreB, max, r)
  {
    var m := Matches(h, pos, homes, ignoreA, ignoreB);
    var s := ScanAfter(m, pos, homes, ignoreA, ignoreB, room);
    ScanAfterGrowth(m, pos, homes, ignoreA, ignoreB, room);
    ScanAfterRoom(m, pos, homes, ignoreA, ignoreB, room);
    ScanAfterNew(m, pos, homes, ignoreA, ignoreB, room);
    CollectOnlyMatches(s, m, homes);
    if Count(s) > room && |r.hands.carrier.animals| > max {
      assert s == m && |m.animals| == 1 && |m.barrels| == 1;
      assert LooseOfKind(m.animals[0], homes, h.flags.pickedUp, h.carrier.animals[0].kind);
      assert HeldOfKind(m.barrels[0], h.barrels, h.carrier.animals[0].kind);
    }
  }

  /**
   * The capacity bound: with no cell both a block and a barrel, a
   * shepherd that has room ends with at most one animal over the
   * maximum, and goes over only with room for one and both a matching
   * standing animal and a matching barrel animal next to it, which the
   * match step claims together before any count is checked.
   */
  lemma PickUpCapacity(h: Hands, pos: Cell, homes: map<Cell, Animal>, ignoreA: set<Cell>, ignoreB: set<Cell>, max: int)
    requires homes.Keys !! h.barrels.Keys
    requires CanCarryMoreAnimals(h.carrier, max)
    ensures WithinCapacity(h, pos, homes, ignoreA, ignoreB, max, PickUp(h, pos, homes, ignoreA, ignoreB, max))
  {
    PickUpWithRoom(h, pos, homes, ignoreA, ignoreB, max);
    CapacityFrom(h, pos, homes, ignoreA, ignoreB, max, Room(h, max), PickUp(h, pos, homes, ignoreA, ignoreB, max));
  }

  lemma OverflowFrom(h: Hands, pos: Cell, homes: map<Cell, Animal>, ignoreA: set<Cell>, ignoreB: set<Cell>, max: int, r: Claims)
    requires HandsStocked(h)
    requires forall c :: c in h.barrels && h.barrels[c].animal.Some? ==> h.barrels[c].animal.value !in h.carrier.animals
    requires |h.carrier.animals| > 0 && |h.carrier.animals| + 1 == max
    requires LooseNear(h, pos, homes, ignoreA, h.carrier.animals[0].kind)
    requires HeldNear(h, pos, ignoreB, h.carrier.animals[0].kind)
    requires r == PickUpFrom(Matches(h, pos, homes, ignoreA, ignoreB), pos, homes, ignoreA, ignoreB, 1)
    ensures |r.hands.carrier.animals| == max + 1
  {
    var m := Matches(h, pos, homes, ignoreA, ignoreB);
    assert |m.animals| == 1 && |m.barrels| == 1;
    assert ScanAfter(m, pos, homes, ignoreA, ignoreB, 1) == m;
    CollectBoth(m, homes);
  }

  /**
   * The overflow happens: a shepherd with room for one, a standing animal
   * and a barrel animal of its first animal's kind next to it, and the
   * usual bookkeeping, ends with one animal more than the maximum.
   */
  lemma PickUpOverflows(h: Hands, pos: Cell, homes: map<Cell, Animal>, ignoreA: set<Cell>, ignoreB: set<Cell>, max: int)
    requires HandsStocked(h)
    requires forall c :: c in h.barrels && h.barrels[c].animal.Some? ==> h.barrels[c].animal.value !in h.carrier.animals
    requires |h.carrier.animals| > 0 && |h.carrier.animals| + 1 == max
    requires LooseNear(h, pos, homes, ignoreA, h.carrier.animals[0].kind)
    requires HeldNear(h, pos, ignoreB, h.carrier.animals[0].kind)
    ensures |PickUp(h, pos, homes, ignoreA, ignoreB, max).hands.carrier.animals| == max + 1
  {
    PickUpWithRoom(h, pos, homes, ignoreA, ignoreB, max);
    OverflowFrom(h, pos, homes, ignoreA, ignoreB, max, PickUp(h, pos, homes, ignoreA, ignoreB, max));
  }
}
