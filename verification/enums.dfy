/** The enumerations shared by the tiles and the level controller. */
module Enums {

  /** The shape of track one shepherd owns on one lane of a path cell. */
  datatype PathType =
    | Empty
    | Horizontal
    | Vertical
    | TopLeftCorner
    | BottomLeftCorner
    | TopRightCorner
    | BottomRightCorner
    | Cross

  /** Edit: idle; Drawing: a path is being drawn; Playing: the shepherds walk. */
  datatype LevelMode = Edit | Drawing | Playing

  datatype EntranceState = Opened | Closed

  /** A lane counts as straight when it is exactly horizontal or vertical. */
  predicate IsStraight(t: PathType)
  {
    t == Horizontal || t == Vertical
  }
}
