# Ark: a Dafny model of the puzzle core

Ark is a grid puzzle. Each shepherd draws a path from its start over path
tiles; paths may cross, and a path tile holds two lanes (bottom and top),
each owned by at most one shepherd. When play starts, the shepherds walk
their paths in lock-step. After every step each shepherd, in priority
order:

- drops the animals it carries, last picked first, into the empty barrels
  next to it;
- picks up standing animals and barrel animals next to it, preferring the
  kind of the first animal it carries.

A shepherd that ends its path on an ark entrance shows whether it carries
a pair, and with a pair the door closes. The level is won when every
shepherd ends on an entrance with a pair.

The model is a set of pure functions over immutable datatypes, one module
per concern:

| module | file | models |
|---|---|---|
| `Enums`, `Optional`, `Geometry` | `enums.dfy`, `optional.dfy`, `geometry.dfy` | path shapes, modes and door states; nullable references; integer cells and unit directions |
| `PathTiles` | `path_tile.dfy` | the two-lane path cell (`PathTile`) and shape inference |
| `Shepherds` | `shepherd_tile.dfy` | a shepherd's path, walk cursor and carried animals (`ShepherdTile`) |
| `ArkEntrance`, `Barrels`, `Animals` | `ark_entrance_tile.dfy`, `animal_barrel_tile.dfy`, `animal_tile.dfy` | entrances, barrels and animal flags |
| `Tiles`, `Grid`, `Neighbours` | `tile.dfy`, `tile_grid.dfy`, `neighbours.dfy` | neighbour maps, highlighting, the tile grid and `GetNeighborsOfType` |
| `Levels` | `level.dfy` | the level state and its well-formedness |
| `LevelEdit` | `level_edit.dfy` | the click handlers, path redrawing and the edit/drawing modes |
| `Handling` | `handling.dfy` | one shepherd's drop-off and pickup after a step |
| `LevelPlay` | `level_play.dfy` | entering and leaving play, the turn, the whole play routine and the win check |
| `Heap` | `priority_queue.dfy` | the array-backed binary min-heap `PriorityQueue` |
| `Seqs` | `seqs.dfy` | sequence helpers (`LastIndexOf`, `List.Remove`) |

Conventions:

- A tile is identified by its grid cell, and a shepherd by its index in
  the level's shepherd list.
- A path cell's lanes and an entrance's state live in the board's maps.
- A C# `null` is `None`.
- An exception thrown inside a click handler (`Path.Last()` on an empty
  path) ends the handler. It keeps whatever the handler had already
  changed.
- `maximumAnimalsPerShepherd` is the level field `maxAnimals`; its default
  is 2.
- `priorityDirections` is its default: up, down, left, right.

## Model

| member | source | states |
|---|---|---|
| Barrels.IsEmpty | Assets/Scripts/Tiles/AnimalBarrelTile.cs:37-38 | a barrel is empty exactly when it holds no animal, so `IsEmpty` and `HasAnimal` are each other's negation |
| Barrels.AddAnimal | Assets/Scripts/Tiles/AnimalBarrelTile.cs:20-24 | an empty barrel takes a non-null animal; a full barrel or a null argument leaves it unchanged |
| Barrels.RemoveAnimal | Assets/Scripts/Tiles/AnimalBarrelTile.cs:26-30 | the barrel empties only when the argument is the animal it holds; otherwise it is unchanged |
| Barrels.ResetObject | Assets/Scripts/Tiles/AnimalBarrelTile.cs:40-44 | after a reset the barrel is empty and available |
| Barrels.AddThenRemove | Assets/Scripts/Tiles/AnimalBarrelTile.cs:20-30 | adding an animal to an empty barrel and removing that animal gives back the same barrel, and the barrel in between holds an animal |
| Animals.ResetObject | Assets/Scripts/Tiles/AnimalTile.cs:19-27 | the reset animal is no longer picked up; every other animal's flag and all sorting orders are kept |
| ArkEntrance.CloseDoor | Assets/Scripts/Tiles/ArkEntranceTile.cs:99 | the door is closed and no longer available; the assigned shepherd, the starting state and the match icon are kept |
| ArkEntrance.OpenDoor | Assets/Scripts/Tiles/ArkEntranceTile.cs:100 | the door is open, and it is available exactly when no shepherd is assigned; nothing else changes |
| ArkEntrance.ResetObject | Assets/Scripts/Tiles/ArkEntranceTile.cs:108-118 | an entrance that started closed is untouched; one that started open is open again with no match icon and keeps its assigned shepherd |
| ArkEntrance.ResetSprite | Assets/Scripts/Tiles/ArkEntranceTile.cs:125-134 | an entrance that started closed is untouched; otherwise it loses its assigned shepherd, and its state and icon are kept |
| ArkEntrance.ResetTile | Assets/Scripts/Tiles/PathTile.cs:74-78 | resetting a removed tile for a shepherd: an entrance is reset through `ResetSprite` with its lanes untouched; a plain path cell loses the shepherd's lanes; every other cell is unchanged |
| ArkEntrance.ResetTiles | Assets/Scripts/Tiles/ShepherdTile.cs:193-197 | resetting a run of removed tiles keeps the cells of both maps, every lane outside the run and every entrance's lanes, and every entrance outside the run |
| ArkEntrance.ResetTilesClears | Assets/Scripts/Tiles/ShepherdTile.cs:193-197 | after the run is reset, the shepherd owns no lane on any plain path cell of the run |
| ArkEntrance.ResetTilesResetsEntrances | Assets/Scripts/Tiles/ArkEntranceTile.cs:125-134 | each entrance in the run ends as `ResetSprite` of its old value, even if it appears in the run more than once |
| ArkEntrance.ResetTilesWellFormed | Assets/Scripts/Tiles/PathTile.cs:174-191 | resetting a run keeps every lane pair well formed (no shepherd owns both lanes, and a lane is owned exactly when it has a shape) |
| Geometry.Normalize | Assets/Scripts/LevelController.cs:1015-1016 | `.normalized` on an integer step: an axis step keeps its direction as a unit step, and a unit step is unchanged |
| PathTiles.IsDoubleBooked | Assets/Scripts/Tiles/PathTile.cs:39 | a double-booked cell is never empty |
| PathTiles.IsEmpty | Assets/Scripts/Tiles/PathTile.cs:40 | an empty cell shows no track to any shepherd (and, by `IsDoubleBooked`, is never double-booked) |
| PathTiles.UpdatePathType | Assets/Scripts/Tiles/PathTile.cs:174-219 | clearing removes every lane the owner holds and leaves the other owner's lane; a lane the owner already holds is re-shaped, bottom first; otherwise the bottom lane is taken if free, else the top, else nothing changes; no shepherd ends up owning both lanes, and well-formed cells stay well formed |
| PathTiles.AssignThenClear | Assets/Scripts/Tiles/PathTile.cs:174-219 | a shepherd that owns no lane of a well-formed cell takes one and clears it again, giving back the original cell |
| PathTiles.UpdatePathTypeReadBack | Assets/Scripts/Tiles/PathTile.cs:174-219 | a shepherd writing a track shape reads that shape back whenever it held a lane of the cell or one lane was free; with both lanes held by others the cell is unchanged |
| PathTiles.GetPathTypeOwnedBy | Assets/Scripts/Tiles/PathTile.cs:221-231 | the shape of the owner's lane, bottom first, and `Empty` for a non-owner |
| PathTiles.IsOwnedStraight | Assets/Scripts/Tiles/PathTile.cs:233-243 | true exactly when the shepherd owns a lane and its shape is horizontal or vertical |
| PathTiles.GetOwner | Assets/Scripts/Tiles/PathTile.cs:263-277 | the expected owner if it holds a lane, else the bottom owner, else the top owner; none exactly when both lanes are free, and any result owns a lane |
| PathTiles.InferShape | Assets/Scripts/Tiles/PathTile.cs:119-164 | never `Cross`; two different unit directions give the shape open towards exactly those two; a single direction, or the same direction twice, gives a straight shape open towards it; no neighbour at all gives `Empty` |
| PathTiles.UpdateFromNeighbours | Assets/Scripts/Tiles/PathTile.cs:119-164 | the owner's lane takes the inferred shape; an `Empty` inference clears the owner's lanes; well-formedness is kept |
| Shepherds.ResetIndex | Assets/Scripts/Tiles/ShepherdTile.cs:42-43 | the cursor goes back to the first tile, so there is a tile to walk exactly when the path is non-empty; path, animals and identity are kept |
| Shepherds.NextTile | Assets/Scripts/Tiles/ShepherdTile.cs:44-58 | with a tile left, hands out the tile under the cursor and advances the cursor; otherwise gives null and changes nothing |
| Shepherds.WalkFollowsPath | Assets/Scripts/Tiles/ShepherdTile.cs:44-58 | k calls of `NextTile` hand out the path tiles from the cursor in order, then nulls, and leave the cursor at min(index + k, path length) |
| Shepherds.AddPathTile | Assets/Scripts/Tiles/ShepherdTile.cs:162-169 | a tile is appended and becomes the last one; null changes nothing |
| Shepherds.ResetPath | Assets/Scripts/Tiles/ShepherdTile.cs:156-160 | the path empties and the shepherd's lanes on every former path cell are cleared; cells off the path are untouched |
| Shepherds.RemovePathTilesFrom | Assets/Scripts/Tiles/ShepherdTile.cs:180-200 | null or a tile off the path changes nothing; otherwise the path is cut before the last visit of the tile, and every removed tile is reset for this shepherd |
| Shepherds.SetSortingOrder | Assets/Scripts/Tiles/ShepherdTile.cs:104-111 | each carried animal from position i on gets its position as sorting order; other animals keep theirs |
| Shepherds.AnimalPickedUp | Assets/Scripts/Tiles/ShepherdTile.cs:85-93 | a non-null animal not yet carried is appended and marked picked up, and sorting orders follow positions; anything else changes nothing; the carried list stays duplicate-free and contains the animal |
| Shepherds.AnimalDroppedOff | Assets/Scripts/Tiles/ShepherdTile.cs:95-102 | a carried animal loses its first occurrence, the others keep their order and sorting orders follow positions; anything else changes nothing |
| Shepherds.PickUpThenDrop | Assets/Scripts/Tiles/ShepherdTile.cs:85-102 | picking up an animal not carried and dropping it gives back the same shepherd |
| Shepherds.ResetObject | Assets/Scripts/Tiles/ShepherdTile.cs:205-211 | the carried list empties, so the shepherd has no pair and room for one; the path and cursor are kept |
| Tiles.AddNeighbor | Assets/Scripts/Tiles/Tile.cs:113-116 | the direction now holds the new neighbour, overwriting any earlier one, and every other direction is unchanged |
| Tiles.GetNeighbor | Assets/Scripts/Tiles/Tile.cs:103-111 | a direction with no entry gives null, and a result is the stored entry |
| Tiles.HasNeighbor | Assets/Scripts/Tiles/Tile.cs:98-101 | true exactly when the tile is stored under some direction |
| Tiles.CompareTo | Assets/Scripts/Tiles/Tile.cs:129-137 | -1, 0 or 1, negative exactly when the priority is lower and positive exactly when it is higher |
| Tiles.CompareToAntisymmetric | Assets/Scripts/Tiles/Tile.cs:129-137 | swapping the two priorities negates the result |
| Tiles.PathNeighbors | Assets/Scripts/Tiles/Tile.cs:77-86 | the path-cell neighbours, leaving out unavailable entrances unless occupied doors are included |
| Tiles.HighlightNeighbors | Assets/Scripts/Tiles/Tile.cs:165-169 | each path neighbour except unavailable entrances gets a highlight, on exactly when it is straight-or-empty and not double-booked |
| Tiles.RemoveHighlightFromNeighbors | Assets/Scripts/Tiles/Tile.cs:171-175 | every path neighbour, entrances included, is un-highlighted |
| Grid.GetTile | Assets/Scripts/TileGrid.cs:57-64 | out of bounds gives null; a tile found is the one stored at those coordinates |
| Grid.SetTile | Assets/Scripts/TileGrid.cs:46-55 | out of bounds changes nothing; in bounds a following `GetTile` there gives the tile, and every other slot and the size are kept |
| Grid.SetNeighbors | Assets/Scripts/TileGrid.cs:27-38 | the neighbour map gains exactly the four cardinal directions |
| Grid.SetNeighborsStores | Assets/Scripts/TileGrid.cs:27-38 | each cardinal direction holds the grid tile one step that way, or null off the grid; other directions are unchanged |
| Grid.NeighborsAreAdjacent | Assets/Scripts/TileGrid.cs:27-38 | on a grid whose tiles sit at their own coordinates, a tile's neighbours are exactly the grid tiles one cardinal step away |
| Grid.GridSize | Assets/Scripts/TileGrid.cs:13-18 | the array is one larger than the largest coordinate on each axis, so every tile with non-negative coordinates is in bounds; no tiles give no grid |
| Grid.PlaceAll | Assets/Scripts/TileGrid.cs:20-21 | each in-bounds tile can be found at its own coordinates, and slots no tile names are untouched |
| Grid.CreateGrid | Assets/Scripts/TileGrid.cs:11-25 | every tile with non-negative coordinates is in bounds and found at its own coordinates, and every occupied slot holds one of the tiles |
| Neighbours.NeighborsOfType | Assets/Scripts/LevelController.cs:488-506 | only present, non-ignored neighbours are returned |
| Neighbours.NeighborsAreCappedAround | Assets/Scripts/LevelController.cs:495-502 | the result is the first `maxNeighbors` of the present, non-ignored neighbours, in direction order |
| Neighbours.AroundMembers | Assets/Scripts/LevelController.cs:495-499 | a cell is among the scanned neighbours exactly when it is present, not ignored, and one of the scanned directions away |
| Neighbours.NeighborsOfTypeAdjacent | Assets/Scripts/LevelController.cs:488-506 | with all four directions and a cap of four, the result holds exactly the present, non-ignored, adjacent cells |
| Neighbours.Neighbors | Assets/Scripts/LevelController.cs:488-506 | the same, with no cell twice |
| Heap.Empty | Assets/Scripts/Utilities/PriorityQueue.cs:20-23 | a new queue holds nothing and is heap-ordered |
| Heap.Count | Assets/Scripts/Utilities/PriorityQueue.cs:18 | the number of items held, with multiplicity |
| Heap.Contains | Assets/Scripts/Utilities/PriorityQueue.cs:123-126 | true exactly when the item is among the contents |
| Heap.Peek | Assets/Scripts/Utilities/PriorityQueue.cs:113-116 | the front of a heap-ordered queue is held in it and has the least priority |
| Heap.ToList | Assets/Scripts/Utilities/PriorityQueue.cs:132-135 | the list is the contents, in heap order |
| Heap.ToListNotSorted | Assets/Scripts/Utilities/PriorityQueue.cs:6-9 | a heap-ordered queue whose list is not sorted by priority, although the class comment says it is |
| Heap.SiftUpStep | Assets/Scripts/Utilities/PriorityQueue.cs:35-52 | swapping a child with a parent it is below moves the one heap violation up to the parent |
| Heap.Enqueue | Assets/Scripts/Utilities/PriorityQueue.cs:29-53 | the item is added once, the count grows by one, and heap order holds afterwards |
| Heap.SiftDownStep | Assets/Scripts/Utilities/PriorityQueue.cs:73-104 | swapping a parent with its smaller child moves the one heap violation down to the child |
| Heap.SiftDown | Assets/Scripts/Utilities/PriorityQueue.cs:72-104 | a heap broken only at the root is reordered into a heap with the same contents |
| Heap.Dequeue | Assets/Scripts/Utilities/PriorityQueue.cs:61-107 | returns an item no later than any left, removes exactly it, decreases the count by one and keeps heap order |
| Heap.RootIsMinimum | Assets/Scripts/Utilities/PriorityQueue.cs:113-116 | in a heap-ordered list the first item is not above any other |
| LevelEdit.UpdatePathSprites | Assets/Scripts/LevelController.cs:1088-1127 | redrawing from a position touches only path cells up to that position and leaves the entrances alone |
| LevelEdit.SpritesKeepLanes | Assets/Scripts/LevelController.cs:1095-1127 | redrawing keeps the board well formed: every lane pair well formed and every lane owner a shepherd of the level |
| LevelEdit.SpritesRedrawOnce | Assets/Scripts/LevelController.cs:1103-1126 | a cell met only once on the redrawn stretch ends with its shape inferred from its own path neighbours, or kept if it is a cross |
| LevelEdit.SpritesKeepCross | Assets/Scripts/LevelController.cs:1103-1106 | the redraw leaves a cell exactly as it was when the shepherd's lane there is a cross |
| LevelEdit.Retract | Assets/Scripts/Tiles/ShepherdTile.cs:180-200 | cutting a path back keeps the level valid and its paths connected; only that shepherd, the reset tiles' lanes and their entrances' shepherds change |
| LevelEdit.ClearPath | Assets/Scripts/Tiles/ShepherdTile.cs:156-160 | `ResetPath` on a shepherd is a cut to nothing |
| LevelEdit.RemoveFrom | Assets/Scripts/Tiles/ShepherdTile.cs:180-200 | `RemovePathTilesFrom` on a shepherd is a cut at the last visit of the tile |
| LevelEdit.AddTile | Assets/Scripts/Tiles/ShepherdTile.cs:162-169 | appending a path cell keeps the level valid, changes only that shepherd's path, and keeps paths connected when the cell touches the tail |
| LevelEdit.Redrawn | Assets/Scripts/LevelController.cs:1088-1127 | redrawing a shepherd's path changes only the board and keeps the level valid |
| LevelEdit.Finish | Assets/Scripts/LevelController.cs:1035-1036 | the end of a path-tile click: drawing mode and the whole path redrawn, shepherds unchanged and the level valid |
| LevelEdit.AddAndFinish | Assets/Scripts/LevelController.cs:968-969 | an appended tile followed by the redraw: the path grows by the tile, connected paths stay connected when it touches the tail, and a tile the shepherd already crosses keeps its lanes |
| LevelEdit.RetractAndFinish | Assets/Scripts/LevelController.cs:977-993 | a cut followed by the redraw: the path is that prefix and the level stays valid |
| LevelEdit.CrossOver | Assets/Scripts/LevelController.cs:1023-1024 | a self-crossing appends the tile again, in drawing mode, keeping the level valid and paths connected when it touches the tail; the shepherd's lane at the tile is then a cross, whenever it already held a lane there or a lane was free (with both lanes held by others, `UpdatePathType` changes nothing) |
| LevelEdit.ShepherdClicked | Assets/Scripts/LevelController.cs:723-759 | nothing happens in play or after game over; otherwise the shepherd becomes current and the mode becomes drawing, a one-tile path is cleared, and any other path is kept |
| LevelEdit.TakeEntrance | Assets/Scripts/LevelController.cs:799-806 | the entrance is appended to the current path and records the shepherd, in edit mode, with only that shepherd and the lanes of its earlier path changed |
| LevelEdit.EntranceClicked | Assets/Scripts/LevelController.cs:761-807 | without every condition of the handler (not playing, door open and unassigned, a current shepherd whose non-empty path does not already end on an entrance and ends next to this one) nothing changes; with them the path ends on the entrance, which records the shepherd |
| LevelEdit.TruncateAfter | Assets/Scripts/LevelController.cs:977-993 | the corrected cut behind an earlier tile: the path ends exactly at the clicked tile |
| LevelEdit.TruncateAfterAsWritten | Assets/Scripts/LevelController.cs:980-981 | the cut as written: at the last visit of the tile after the clicked one |
| LevelEdit.TruncateAsWrittenKeepsTooMuch | Assets/Scripts/LevelController.cs:977-993 | on a path that visits the following tile again later, the cut as written keeps tiles past the clicked one, and the corrected cut does not |
| LevelEdit.TruncateAgreeIff | Assets/Scripts/LevelController.cs:977-993 | the cut as written and the corrected cut give the same level exactly when the path does not return to the tile after the clicked one |
| LevelEdit.Restart | Assets/Scripts/LevelController.cs:945-952 | a tile next to the shepherd but away from the tail resets the path and starts it with that tile in drawing mode; when the old tail was an entrance the path stays empty and the mode is unchanged |
| LevelEdit.Extend | Assets/Scripts/LevelController.cs:939-969 | a tile off the path is appended (in drawing mode) exactly when it touches the shepherd on an empty path, or touches a tail that is not an entrance; a tile touching only the shepherd restarts the path, left empty after an entrance tail; any other tile changes nothing; the level stays valid and only that shepherd's drawing changes |
| LevelEdit.Retreat | Assets/Scripts/LevelController.cs:972-1026 | a click on an earlier tile of the path (not its tail) keeps the level valid and connected, and changes only that shepherd, the lanes of its path and the entrances it released; what each branch does is stated by the four lemmas below |
| LevelEdit.RetreatDropsTail | Assets/Scripts/LevelController.cs:976-981 | a click on the tile before the tail takes the tail off and leaves drawing mode on |
| LevelEdit.RetreatIgnoresFarTile | Assets/Scripts/LevelController.cs:982-989 | outside edit mode, a click on a tile that neither comes before the tail nor touches it changes nothing |
| LevelEdit.RetreatCutsBack | Assets/Scripts/LevelController.cs:982-993 | in edit mode, the same click cuts the path back to end at the last visit of the clicked tile, in drawing mode (the corrected cut, see Left out) |
| LevelEdit.RetreatCrosses | Assets/Scripts/LevelController.cs:994-1025 | a click on a tile touching the tail changes nothing when `CrossRefused` holds (the tile is a corner of this shepherd, or the tail is a crossing and the new step turns away from the step onto it); otherwise the tile is appended again in drawing mode, and the shepherd's lane there becomes a cross whenever it held one there or one was free |
| LevelEdit.DrawFrom | Assets/Scripts/LevelController.cs:920-1036 | re-clicking the tail only sets drawing mode; a tile off the path goes to `Extend` and an earlier tile to `Retreat`; the level stays valid and only that shepherd's drawing changes |
| LevelEdit.ClickOthersTile | Assets/Scripts/LevelController.cs:832-914 | a click on another shepherd's tile switches to that shepherd only in edit mode; the level stays valid and connected, and only the drawing of the shepherd that ends up current changes; the outcome of each check is stated by `ClickOthersTileChecks` |
| LevelEdit.ClickOthersTileChecks | Assets/Scripts/LevelController.cs:832-911 | in edit mode, away from the current tail, the owner becomes current and draws; otherwise the level is left unchanged when the tile ends the owner's path (or that path is empty), is double-booked, is not straight for the owner, does not touch the current tail, or turns on a crossed tail (measured from the tile before the tail, or from the shepherd for a one-tile path); passing every check lets the current shepherd draw onto it |
| LevelEdit.PathTileClicked | Assets/Scripts/LevelController.cs:809-1037 | nothing happens in play or with no shepherd to draw; the level stays valid and paths connected; the current shepherd changes only by the edit-mode switch to the tile's owner |
| LevelEdit.PathTileClickDispatch | Assets/Scripts/LevelController.cs:819-846 | outside play, a click on a free tile or one of the current shepherd's tiles is that shepherd's `DrawFrom`; with no current shepherd the tile's owner becomes current and draws; a tile owned by another shepherd goes to `ClickOthersTile` |
| LevelEdit.PathTileClickFrame | Assets/Scripts/LevelController.cs:809-1037 | a click changes only the shepherd that ends up current, the lanes of its path and of the clicked tile, which shepherd each entrance records, and the mode |
| LevelPlay.ResetIndices | Assets/Scripts/LevelController.cs:247 | every shepherd's cursor goes back to its first tile |
| LevelPlay.EnterPlayMode | Assets/Scripts/LevelController.cs:188-199 | outside play: play mode, fast-forward off and cursors reset, with paths, board, barrels and animals unchanged; in play nothing changes |
| LevelPlay.PlayStartsWithDrawnPaths | Assets/Scripts/LevelController.cs:234-247 | after entering play the shepherds with a tile to walk are exactly those with a non-empty path, which is how the routine picks its first walkers |
| LevelPlay.ToggleFastForward | Assets/Scripts/LevelController.cs:117-122 | fast-forward flips in play mode and nothing else changes; outside play nothing changes |
| LevelPlay.ToggleTwice | Assets/Scripts/LevelController.cs:117-122 | toggling twice gives back the same level |
| LevelPlay.PointerUp | Assets/Scripts/LevelController.cs:177-185 | drawing becomes edit; any other mode is unchanged; the mode is never drawing afterwards |
| LevelPlay.ResetAnimals | Assets/Scripts/LevelController.cs:218-219 | every animal on a starting block is no longer picked up; other flags and sorting orders are kept |
| LevelPlay.ResetAll | Assets/Scripts/LevelController.cs:218-219 | every resetable is reset: shepherds put down their animals, barrels empty, entrances reset; the drawing and the mode are kept |
| LevelPlay.EnterEditMode | Assets/Scripts/LevelController.cs:201-224 | only in play and before game over: everything reset and edit mode, with the drawing kept; otherwise nothing changes; validity is kept |
| LevelPlay.ClearPaths | Assets/Scripts/LevelController.cs:174 | the first n shepherds' paths are reset, the rest are untouched, and the level stays valid |
| LevelPlay.ResetButton | Assets/Scripts/LevelController.cs:171-175 | every path is empty afterwards, and the level leaves play (with everything reset) only when it was playing before game over |
| LevelPlay.Insert | Assets/Scripts/LevelController.cs:235 | inserting a shepherd into a priority-ordered list keeps it ordered and adds exactly that shepherd |
| LevelPlay.ByPriority | Assets/Scripts/LevelController.cs:235 | `OrderBy(PriorityOrder)`: every shepherd once, in ascending priority, ties in list order |
| LevelPlay.OrderedIff | Assets/Scripts/LevelController.cs:235 | in an ordered list one shepherd comes before another exactly when it has lower priority, or equal priority and a lower index |
| LevelPlay.Walkers | Assets/Scripts/LevelController.cs:455 | keeps exactly the listed shepherds with a tile to walk, in the same order |
| LevelPlay.Active | Assets/Scripts/LevelController.cs:454-456 | the shepherds with a tile to walk, in priority order |
| LevelPlay.HandleMoves | Assets/Scripts/LevelController.cs:322-437 | one shepherd's drop-off and pickup change only its animals, the flags and barrel contents, leave barrels already claimed alone, claim none of them, and keep the animal bookkeeping |
| LevelPlay.ResolveOneMoves | Assets/Scripts/LevelController.cs:311-438 | one shepherd's turn in the pass moves only its own animals, only grows the ignore lists and leaves claimed barrels alone |
| LevelPlay.ResolveMoves | Assets/Scripts/LevelController.cs:309-439 | the whole pass touches only the shepherds it visits, only grows the ignore lists, and keeps the bookkeeping |
| LevelPlay.StepAll | Assets/Scripts/LevelController.cs:279-283 | each shepherd takes its `NextTile` |
| LevelPlay.ArriveOne | Assets/Scripts/LevelController.cs:508-539 | a shepherd ending on an entrance sets that entrance's match icon to whether it has a pair, and with a pair the door closes; a shepherd not on an entrance changes nothing; no door opens |
| LevelPlay.Arrive | Assets/Scripts/LevelController.cs:443-451 | the arrival check changes only entrances' states and icons and never opens a door |
| LevelPlay.ArriveCloses | Assets/Scripts/LevelController.cs:446-450 | each listed shepherd that finished on an entrance with a pair ends with that door closed |
| LevelPlay.MovedKeeps | Assets/Scripts/LevelController.cs:279-284 | moving changes only the cursors |
| LevelPlay.ResolvedMoves | Assets/Scripts/LevelController.cs:306-439 | after the move, the pass over the active shepherds moves only their animals |
| LevelPlay.TurnKeeps | Assets/Scripts/LevelController.cs:252-456 | a turn keeps the drawing, the mode, fast-forward and the animal bookkeeping |
| LevelPlay.StepLeft | Assets/Scripts/Tiles/ShepherdTile.cs:44-58 | a step never adds tiles to walk and removes one when there was one |
| LevelPlay.TurnLeft | Assets/Scripts/LevelController.cs:279-283 | after a turn each shepherd has as many tiles left as after its own `NextTile` |
| LevelPlay.TurnProgress | Assets/Scripts/LevelController.cs:252-456 | a turn with an active shepherd strictly lowers the number of tiles left to walk, so the routine ends |
| LevelPlay.TurnClosesNew | Assets/Scripts/LevelController.cs:443-450 | a shepherd that finishes its path in this turn on an entrance with a pair has that door closed after the turn |
| LevelPlay.ResolvedKeepsFinished | Assets/Scripts/LevelController.cs:311 | the pass touches no shepherd that had already finished and leaves the board alone |
| LevelPlay.TurnKeepsOld | Assets/Scripts/LevelController.cs:446 | a shepherd that had finished before this turn keeps its door closed |
| LevelPlay.TurnDoors | Assets/Scripts/LevelController.cs:443-451 | the invariant "every finished shepherd on an entrance with a pair has its door closed" survives a turn |
| LevelPlay.PlayOut | Assets/Scripts/LevelController.cs:252-468 | the loop runs until no shepherd has a tile to walk |
| LevelPlay.PlayOutKeeps | Assets/Scripts/LevelController.cs:252-468 | the whole loop keeps the drawing, the mode, the bookkeeping and the closed-door invariant |
| LevelPlay.CountArrivedAll | Assets/Scripts/LevelController.cs:474-478 | the count of shepherds on an entrance with a pair equals the number of shepherds exactly when every shepherd is on one |
| LevelPlay.ClearMatchIcons | Assets/Scripts/LevelController.cs:481 | every entrance loses its match icon and nothing else changes |
| LevelPlay.RoutineKeeps | Assets/Scripts/LevelController.cs:226-486 | the play routine keeps the drawing and the mode, and a win leaves no match icon |
| LevelPlay.WinIff | Assets/Scripts/LevelController.cs:474-483 | the level is won exactly when, in play mode at the end, every shepherd's last tile is an entrance and it has a pair; nobody has a tile left to walk |
| LevelPlay.WonClosesDoors | Assets/Scripts/LevelController.cs:474-478 | started from reset cursors, a win means every shepherd stands on an entrance whose door is closed |
| LevelPlay.PlayThenEditKeepsDrawing | Assets/Scripts/LevelController.cs:188-224 | playing and then stopping returns to edit mode with everything reset and the drawing unchanged |
| Handling.Pick | Assets/Scripts/Tiles/ShepherdTile.cs:85-93 | an animal not carried is appended and marked; one already carried changes nothing; the bookkeeping is kept |
| Handling.DropOne | Assets/Scripts/LevelController.cs:337-343 | the last carried animal is taken off the list and put into the barrel |
| Handling.DropInto | Assets/Scripts/LevelController.cs:333-344 | dropping into a list of barrels touches no barrel outside it and never unmarks an animal |
| Handling.DropIntoKeepsPrefix | Assets/Scripts/LevelController.cs:335-344 | one animal leaves the end of the carried list per barrel, until the list is empty |
| Handling.FilledLastFirst | Assets/Scripts/LevelController.cs:609-630 | the j-th empty barrel receives the j-th animal from the end of the carried list |
| Handling.FreeBarrels | Assets/Scripts/LevelController.cs:326 | exactly the empty barrels next to the shepherd that no one has claimed this turn, each once |
| Handling.DropOff | Assets/Scripts/LevelController.cs:322-347 | a shepherd with animals claims every free empty barrel around it, and only those barrels can change |
| Handling.DropOffLastFirst | Assets/Scripts/LevelController.cs:333-344 | the carried list loses one animal from its end per free barrel, and the j-th free barrel gets the j-th animal from the end |
| Handling.FirstLoose | Assets/Scripts/LevelController.cs:372 | the first neighbour in direction order holding a standing animal of the kind, or none |
| Handling.FirstHeld | Assets/Scripts/LevelController.cs:373 | the first neighbour in direction order whose barrel holds an animal of the kind, or none |
| Handling.Matches | Assets/Scripts/LevelController.cs:368-391 | the match step claims at most one standing animal and one barrel, each a free neighbour of the first carried animal's kind, and claims one exactly when one exists |
| Handling.ScanStep | Assets/Scripts/LevelController.cs:401-415 | one direction of the scan claims at most the free block and the free barrel there, each new claim's animal ends up carried, and barrels are untouched until the pickup routines run |
| Handling.Scan | Assets/Scripts/LevelController.cs:396-421 | the scan only adds claims and carried animals, and every new claim is free |
| Handling.ScanRoom | Assets/Scripts/LevelController.cs:417-419 | when no cell is both a block and a barrel and the claims start below the free room, the scan ends with no more claims than the room |
| Handling.CollectLoose | Assets/Scripts/LevelController.cs:668-688 | collecting from blocks adds at most one animal per block and leaves barrels alone |
| Handling.CollectLooseCarries | Assets/Scripts/LevelController.cs:668-688 | afterwards every claimed block's animal is carried, and nothing changes when all of them already were |
| Handling.Unload | Assets/Scripts/LevelController.cs:644-659 | a barrel's animal moves to the shepherd and the barrel is left empty |
| Handling.CollectHeld | Assets/Scripts/LevelController.cs:640-666 | collecting from barrels touches no other barrel and adds at most one animal per barrel |
| Handling.CollectHeldEmpties | Assets/Scripts/LevelController.cs:640-666 | afterwards every claimed barrel is empty and its former animal is carried |
| Handling.PickUp | Assets/Scripts/LevelController.cs:354-437 | without room nothing happens; otherwise only animals move and only claimed barrels change |
| Handling.CollectClaims | Assets/Scripts/LevelController.cs:423-437 | after the pickup routines every claimed animal is carried and every claimed barrel is empty |
| Handling.PickUpClaims | Assets/Scripts/LevelController.cs:352-437 | the pickup claims only free neighbours holding a standing animal or a barrel animal, takes every animal it claims, and keeps the bookkeeping |
| Handling.PickUpPrefersMatch | Assets/Scripts/LevelController.cs:368-391 | with room and animals carried, the first block and the first barrel claimed hold the first carried animal's kind whenever a free neighbour does |
| Handling.PickUpCapacity | Assets/Scripts/LevelController.cs:393-421 | with room, the shepherd ends at most one over the maximum, and over it only with room for one and a matching standing animal and barrel animal beside it |
| Handling.PickUpOverflows | Assets/Scripts/LevelController.cs:369-396 | a shepherd with consistent bookkeeping, room for exactly one more, and both a matching standing animal and a matching barrel animal beside it ends one over the maximum |
| Handling.CollectBoth | Assets/Scripts/LevelController.cs:423-436 | a claimed block and a claimed barrel holding animals not carried add two animals |
| Handling.DropIntoLastFirst | Assets/Scripts/LevelController.cs:335-344 | dropping into distinct empty barrels: one animal leaves the end of the list per barrel, and barrel j receives the j-th animal from the end |
| Handling.EmptyBarrels | Assets/Scripts/LevelController.cs:326 | exactly the listed cells whose barrel is empty, with no cell twice when the list has none |
| Handling.ScanLoose | Assets/Scripts/LevelController.cs:396-421 | every block the scan claims is free, lies one scanned direction away, held an animal not yet picked up, and that animal ends up carried |
| Handling.ScanHeld | Assets/Scripts/LevelController.cs:396-421 | every barrel the scan claims is free, lies one scanned direction away, held an animal, and that animal ends up carried |
| Handling.ScanGrowth | Assets/Scripts/LevelController.cs:396-421 | the carried list grows by no more than the number of new claims, and the animal bookkeeping is kept |
| Handling.Collect | Assets/Scripts/LevelController.cs:423-437 | running the two pickup routines only moves animals, never drops one, and changes no barrel outside the claims |
| Handling.ClaimsCollected | Assets/Scripts/LevelController.cs:352-437 | when the match claims are free neighbours with animals, so are all final claims, and each claimed animal is carried |
| Levels.ResetTilesKeepsOwners | Assets/Scripts/Tiles/ShepherdTile.cs:193-197 | resetting tiles never brings in a lane owner that is not a shepherd of the level |
| Levels.PrefixConnected | Assets/Scripts/Tiles/ShepherdTile.cs:180-200 | cutting a connected path to a prefix leaves it connected |
| Levels.AppendConnected | Assets/Scripts/Tiles/ShepherdTile.cs:162-169 | appending a cell that touches the tail keeps a path connected |
| LevelPlay.SortFirst | Assets/Scripts/LevelController.cs:235 | the first k shepherds, each once, in priority order |
| LevelPlay.CountArrived | Assets/Scripts/LevelController.cs:474 | counts at most one per shepherd |
| Seqs.LastIndexOf | Assets/Scripts/LevelController.cs:963-964 | -1 exactly when the tile is not on the path; otherwise a position holding it, with no later one |
| Seqs.RemoveFirst | Assets/Scripts/Tiles/ShepherdTile.cs:97-99 | `List.Remove`: an absent item changes nothing; otherwise exactly its first occurrence goes and the rest keep their order |
| Geometry.Sign | Assets/Scripts/LevelController.cs:1108-1122 | -1, 0 or 1 with the sign of the argument |

## Left out

- Coroutine timing. `MoveShepherdRoutine`, `MoveAnimalToDestination`, the door's wait and the `shepherdsMoving`/`shepherdsWaiting` barriers are not modelled. A turn is "every active shepherd takes `NextTile`, then the pass, then the arrival check", with each drop-off and pickup routine complete before the next shepherd acts. So the exclusion of still-acting shepherds (`LevelController.cs:258`) never applies.
- Positions and movement in floating point (`Vector3.MoveTowards`, rotations, `Mathf.Approximately`). Cells are integers, directions are unit steps, and a shepherd's position is its last tile, or its start before the first step.
- Rendering and input:
  - sprites, borders, highlights as drawn, the shepherd icon on an entrance, and `Hide`/`Show`;
  - `DisableHighlights`;
  - the raycast in `Update`, which can also route an entrance into `OnPathTileClicked` because an entrance is a path tile; here entrance clicks reach only the entrance handler;
  - the mouse handlers other than `OnMousePointerUp`.
  The highlight decision is modelled as a map to booleans. The match icon is modelled as "has a pair" or none.
- Audio, asset libraries, `GameManager` (scene loading and `NextLevel`; `GameOver` is a level field), `OnLevelChanged`, the HUD and the editor tooling.
- `ShepherdTile.RemovePathTile`: no caller in the controller.
- `TileGrid.CreateGrid`'s scene search and tile renaming. The grid is built from a list of cells, and `GetTile<T>` component lookups become membership in the board's maps.
- `priorityDirections` is fixed at its default order, and `maximumAnimalsPerShepherd` is a level field.
- Heap.Peek, Heap.Dequeue: require a non-empty queue; the source throws on an empty one. They also require a heap-ordered queue, which every queue built by `Empty`, `Enqueue` and `Dequeue` is.
- Heap: items are `Node(id, priority)` compared by `CompareTo` on integer priorities, not a generic `IComparable`.
- Handling.PickUpCapacity: proved only when no cell is both an animal block and a barrel, as on every level layout.
- LevelPlay.WonClosesDoors: assumes the routine starts with every cursor reset, as `EnterPlayMode` leaves them.
- LevelEdit.PathTileClicked: states validity, connectedness, the frame and the mode rules; `PathTileClickDispatch` routes own-tile clicks to `DrawFrom`, whose branches are stated on `Extend` and, for earlier tiles, on `RetreatDropsTail`, `RetreatIgnoresFarTile`, `RetreatCutsBack` and `RetreatCrosses`. A click on another shepherd's tile goes to `ClickOthersTile` (also by `PathTileClickDispatch`), whose switch and crossing checks are stated by `ClickOthersTileChecks`.
- LevelEdit.Retreat, LevelEdit.RetreatCutsBack, LevelEdit.DrawFrom, LevelEdit.PathTileClicked: in edit mode, a click on an earlier tile away from the tail uses the corrected cut `TruncateAfter` (the path ends at the clicked tile), not the cut as written at `LevelController.cs:992-993`. The two differ only when the path comes back to the tile after the clicked one (`TruncateAgreeIff`; see Findings). The click on the tile before the tail gives the same result either way, and is modelled as written.
- Handling.Matches, Handling.PickUp: the capacity overflow of the match step is modelled as written (see `PickUpOverflows`). It is not reported as a defect, because which fix was meant is unclear.

## Findings

| source | as written | input that shows it | evidently intended | confidence | as-written member | corrected member |
|---|---|---|---|---|---|---|
| Assets/Scripts/LevelController.cs:977-993 | Clicking an earlier tile of the current path calls `RemovePathTilesFrom(Path[tileIndex + 1])`, which cuts at the LAST visit of the tile after the clicked one. | The shepherd starts at (1,-1). Its path is A(1,0), X(1,1), B(1,2), C(2,2), D(2,1), X(1,1), E(0,1), crossing itself at X. The player clicks A (tileIndex 0). As written the path becomes A, X, B, C, D. | The path ends at the clicked tile, here A. | not executed | LevelEdit.TruncateAfterAsWritten, LevelEdit.TruncateAsWrittenKeepsTooMuch | LevelEdit.TruncateAfter |
