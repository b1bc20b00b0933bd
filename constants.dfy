/** Fixed configuration of the game: grid size, fall timing and line-clear scoring. */
module Constants {
  /** Number of columns of the playfield. */
  const GridWidth: int := 10
  /** Number of rows of the playfield. */
  const GridHeight: int := 20

  /** Fall progress a piece must accumulate before it drops one row. */
  const MoveDelay: real := 30.0
  /** Fall progress gained per tick at level 1. */
  const InitialFallSpeed: real := 0.5
  /** Factor applied to the fall speed at every level-up. */
  const LevelSpeedup: real := 0.9

  /** Base points for clearing one, two, three and four rows at once. */
  const PointsSingle: nat := 100
  const PointsDouble: nat := 300
  const PointsTriple: nat := 500
  const PointsTetris: nat := 800
}
