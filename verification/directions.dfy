/** The eight compass steps of a letter grid, shared by the `usize` matrix
    (src/word_finder/matrix.rs) and the older `u8` grid (src/grid.rs), which
    declare the same enum. Rows grow downwards and columns to the right. */
module Directions {

  datatype Direction = Up | UpperLeft | UpperRight | Down | LowerLeft | LowerRight | Left | Right

  /** The change in row index of one step. */
  function RowDelta(d: Direction): int {
    match d
    case Up | UpperLeft | UpperRight => -1
    case Down | LowerLeft | LowerRight => 1
    case Left | Right => 0
  }

  /** The change in column index of one step. */
  function ColDelta(d: Direction): int {
    match d
    case Left | UpperLeft | LowerLeft => -1
    case Right | UpperRight | LowerRight => 1
    case Up | Down => 0
  }

  /** A step along a row or a column, not a diagonal. */
  predicate IsOrthogonal(d: Direction) {
    RowDelta(d) == 0 || ColDelta(d) == 0
  }

  /** The direction sets of the word finders, in the order they are tried. */
  const AllDirections: seq<Direction> := [Down, Right, Up, Left, LowerRight, LowerLeft, UpperRight, UpperLeft]
  const OrthogonalDirections: seq<Direction> := [Down, Right, Up, Left]

  /** The direction set of a word finder: all eight directions when
      `diagonal` is set, otherwise only the four orthogonal ones. */
  function DirectionSet(diagonal: bool): (ds: seq<Direction>)
    ensures forall d :: d in ds <==> diagonal || IsOrthogonal(d)
    ensures |ds| == if diagonal then 8 else 4
    ensures forall i, j :: 0 <= i < j < |ds| ==> ds[i] != ds[j]
  {
    assert forall d :: d in AllDirections && (d in OrthogonalDirections <==> IsOrthogonal(d)) by {
      forall d ensures d in AllDirections && (d in OrthogonalDirections <==> IsOrthogonal(d)) {
        DirectionSetsAreComplete(d);
      }
    }
    DirectionSetsAreComplete(Up);
    if diagonal then AllDirections else OrthogonalDirections
  }

  /** Every direction is a genuine move to one of the eight neighbours, and
      no two directions make the same move. */
  lemma StepsAreDistinctNeighbours(d: Direction, e: Direction)
    ensures -1 <= RowDelta(d) <= 1 && -1 <= ColDelta(d) <= 1
    ensures RowDelta(d) != 0 || ColDelta(d) != 0
    ensures RowDelta(d) == RowDelta(e) && ColDelta(d) == ColDelta(e) ==> d == e
  {
  }

  /** The diagonal set lists each of the eight directions exactly once; the
      orthogonal set lists exactly the four orthogonal ones, once each. */
  lemma DirectionSetsAreComplete(d: Direction)
    ensures d in AllDirections
    ensures d in OrthogonalDirections <==> IsOrthogonal(d)
    ensures |AllDirections| == 8 && |OrthogonalDirections| == 4
    ensures forall i, j :: 0 <= i < j < |AllDirections| ==> AllDirections[i] != AllDirections[j]
    ensures forall i, j :: 0 <= i < j < |OrthogonalDirections| ==> OrthogonalDirections[i] != OrthogonalDirections[j]
  {
  }
}
