/** The letter matrix of src/word_finder/matrix.rs: cells stored row-major in
    one sequence, an index-to-point mapping, and the one-cell `next` step.

    Sizes are `usize` in the source; they are unbounded here (see README). Two
    behaviours of the source are kept as written: `get_element` compares the
    row with the WIDTH and the column with the HEIGHT, so that only square
    matrices accept exactly their in-bounds points, and `next` uses
    `checked_sub`, so that a step off the top or left edge gives `None`. */
module Matrix {
  import opened Outcomes
  import opened Directions

  /** `(row, column)`. */
  type Point = (nat, nat)

  datatype Matrix = Matrix(elements: seq<char>, height: nat, width: nat, capacity: nat)

  /** The shape every matrix built by `New` has. */
  ghost predicate Valid(m: Matrix) {
    |m.elements| == m.capacity == m.width * m.height
  }

  /** A point inside the rectangle the rows describe. */
  ghost predicate InBounds(m: Matrix, p: Point) {
    p.0 < m.height && p.1 < m.width
  }

  /** The rows, concatenated in order. */
  function Flatten(rows: seq<seq<char>>): seq<char> {
    if rows == [] then [] else rows[0] + Flatten(rows[1..])
  }

  /** Rows of equal width `w` flatten to `w` letters per row. */
  lemma {:induction false} FlattenLength(rows: seq<seq<char>>, w: nat)
    requires forall k :: 0 <= k < |rows| ==> |rows[k]| == w
    ensures |Flatten(rows)| == w * |rows|
  {
    if rows != [] {
      FlattenLength(rows[1..], w);
      assert w * |rows| == w + w * |rows[1..]|;
    }
  }

  /** Row-major layout: cell `(r, c)` of rows of equal width `w` lands at
      index `r * w + c` of the flattened rows. */
  lemma {:induction false} FlattenCell(rows: seq<seq<char>>, w: nat, r: nat, c: nat)
    requires forall k :: 0 <= k < |rows| ==> |rows[k]| == w
    requires r < |rows| && c < w
    ensures r * w + c < |Flatten(rows)| && Flatten(rows)[r * w + c] == rows[r][c]
    decreases r
  {
    var rest := rows[1..];
    if r > 0 {
      FlattenCell(rest, w, r - 1, c);
      assert r * w + c == w + ((r - 1) * w + c);
      assert rows[r] == rest[r - 1];
    }
  }

  /** The row-major index of cell `(r, c)` in rows of width `w`. */
  function CellIndex(w: nat, r: nat, c: nat): nat {
    r * w + c
  }

  /** `elements` holds the rows, `w` letters each, in row-major order. */
  ghost predicate RowMajor(elements: seq<char>, rows: seq<seq<char>>, w: nat) {
    forall r: nat, c: nat :: r < |rows| && c < |rows[r]| ==>
      CellIndex(w, r, c) < |elements| && elements[CellIndex(w, r, c)] == rows[r][c]
  }

  lemma FlattenRowMajor(rows: seq<seq<char>>, w: nat)
    requires forall k :: 0 <= k < |rows| ==> |rows[k]| == w
    ensures RowMajor(Flatten(rows), rows, w)
  {
    forall r: nat, c: nat | r < |rows| && c < |rows[r]|
      ensures CellIndex(w, r, c) < |Flatten(rows)| && Flatten(rows)[CellIndex(w, r, c)] == rows[r][c]
    {
      FlattenCell(rows, w, r, c);
    }
  }

  /** `Matrix::new`: an empty outer slice panics on the `unwrap` of its first
      row, a row whose length differs from the first row's panics with "Rows
      are of different sizes", and otherwise the cells are stored row-major
      with capacity `width * height`. */
  function New(rows: seq<seq<char>>): (r: Result<Matrix>)
    ensures r == Err(UnwrapOnNone) <==> |rows| == 0
    ensures r == Err(RowsOfDifferentSizes) <==> |rows| > 0 && exists k :: 0 <= k < |rows| && |rows[k]| != |rows[0]|
    ensures r.Ok? <==> |rows| > 0 && forall k :: 0 <= k < |rows| ==> |rows[k]| == |rows[0]|
    ensures r.Ok? ==> Valid(r.value) && r.value.height == |rows| && r.value.width == |rows[0]|
    ensures r.Ok? ==> RowMajor(r.value.elements, rows, r.value.width)
  {
    if |rows| == 0 then Err(UnwrapOnNone)
    else if exists k :: 0 <= k < |rows| && |rows[k]| != |rows[0]| then Err(RowsOfDifferentSizes)
    else
      var width := |rows[0]|;
      FlattenLength(rows, width);
      FlattenRowMajor(rows, width);
      Ok(Matrix(Flatten(rows), |rows|, width, width * |rows|))
  }

  /** `Matrix::get_element`: the row is compared with the width and the column
      with the height, then the row-major index must be a stored cell. */
  function GetElement(m: Matrix, p: Point): (r: Option<char>)
    ensures r.Some? ==> r.value in m.elements
    ensures r.Some? ==> p.0 < m.width && p.1 < m.height
  {
    if p.0 < m.width && p.1 < m.height then
      var index := CellIndex(m.width, p.0, p.1);
      if index < |m.elements| then Some(m.elements[index]) else None
    else None
  }

  /** `Matrix::get_letter`: unwraps `get_element`. */
  function GetLetter(m: Matrix, p: Point): (r: Result<char>)
    ensures r.Err? <==> GetElement(m, p).None?
    ensures r.Err? ==> r.fault == UnwrapOnNone
    ensures r.Ok? ==> Some(r.value) == GetElement(m, p)
  {
    match GetElement(m, p)
    case None => Err(UnwrapOnNone)
    case Some(letter) => Ok(letter)
  }

  /** `Matrix::get_point_from_index`: the row-major point of a stored index;
      an index at or past the capacity panics. */
  function PointFromIndex(m: Matrix, index: nat): (r: Result<Point>)
    requires Valid(m)
    ensures r.Err? <==> index >= m.capacity
    ensures r.Err? ==> r.fault == IndexOutOfBounds
    ensures r.Ok? ==> InBounds(m, r.value) && CellIndex(m.width, r.value.0, r.value.1) == index
  {
    if index < m.capacity then
      DivModRowMajor(index, m.width, m.height);
      Ok((index / m.width, index % m.width))
    else Err(IndexOutOfBounds)
  }

  lemma DivModRowMajor(i: nat, w: nat, h: nat)
    requires i < w * h
    ensures w > 0 && i / w < h && i % w < w && (i / w) * w + i % w == i
  {
  }

  /** `Matrix::validate_point`. */
  function ValidatePoint(m: Matrix, row: nat, col: nat): (r: bool)
    ensures r ==> row < m.width && col < m.height
  {
    GetElement(m, (row, col)).Some?
  }

  /** `checked_sub(1)`. */
  function CheckedDecrement(x: nat): (r: Option<nat>)
    ensures r.Some? <==> x > 0
    ensures r.Some? ==> r.value + 1 == x
  {
    if x == 0 then None else Some(x - 1)
  }

  /** `Matrix::next`: one step in direction `d`, `None` when the step would go
      below row or column 0 or lands on a point `validate_point` rejects. */
  function Next(m: Matrix, p: Point, d: Direction): (r: Option<Point>)
    ensures r.Some? ==>
      && r.value.0 == p.0 + RowDelta(d) && r.value.1 == p.1 + ColDelta(d)
      && ValidatePoint(m, r.value.0, r.value.1)
    ensures r.None? <==>
      || p.0 + RowDelta(d) < 0 || p.1 + ColDelta(d) < 0
      || !ValidatePoint(m, (p.0 + RowDelta(d)) as nat, (p.1 + ColDelta(d)) as nat)
  {
    var target :- match d
      case Up => var row :- CheckedDecrement(p.0); Some((row, p.1))
      case Down => Some((p.0 + 1, p.1))
      case Left => var col :- CheckedDecrement(p.1); Some((p.0, col))
      case Right => Some((p.0, p.1 + 1))
      case UpperLeft =>
        var row :- CheckedDecrement(p.0);
        var col :- CheckedDecrement(p.1);
        Some((row, col))
      case UpperRight => var row :- CheckedDecrement(p.0); Some((row, p.1 + 1))
      case LowerLeft => var col :- CheckedDecrement(p.1); Some((p.0 + 1, col))
      case LowerRight => Some((p.0 + 1, p.1 + 1));
    if ValidatePoint(m, target.0, target.1) then Some(target) else None
  }

  // ---------------------------------------------------------------------------
  // What the swapped bounds check accepts

  /** Every accepted point lies on a stored row, and its letter is the one
      stored at its row-major index. */
  lemma AcceptedPointsReadTheirIndex(m: Matrix, p: Point)
    requires Valid(m) && ValidatePoint(m, p.0, p.1)
    ensures p.0 < m.height
    ensures p.0 * m.width + p.1 < m.capacity
    ensures GetElement(m, p) == Some(m.elements[p.0 * m.width + p.1])
  {
    if p.0 >= m.height {
      MulMonotone(m.height, p.0, m.width);
    }
  }

  /** On a square matrix the check is exact: a point is accepted if and only
      if it is in bounds, and then its letter is its row-major cell. */
  lemma {:induction false} SquareAcceptsExactlyInBounds(m: Matrix, p: Point)
    requires Valid(m) && m.width == m.height
    ensures ValidatePoint(m, p.0, p.1) <==> InBounds(m, p)
    ensures InBounds(m, p) ==> GetElement(m, p) == Some(m.elements[p.0 * m.width + p.1])
  {
    if InBounds(m, p) {
      InBoundsIndex(m, p);
    }
  }

  lemma InBoundsIndex(m: Matrix, p: Point)
    requires Valid(m) && InBounds(m, p)
    ensures p.0 * m.width + p.1 < m.capacity
  {
    assert p.0 * m.width <= (m.height - 1) * m.width;
  }

  /** On a square matrix `next` moves to the neighbour in direction `d` exactly
      when that neighbour is in bounds, and gives `None` otherwise. */
  lemma SquareNextStaysInBounds(m: Matrix, p: Point, d: Direction)
    requires Valid(m) && m.width == m.height
    ensures Next(m, p, d) ==
      var row, col := p.0 + RowDelta(d), p.1 + ColDelta(d);
      if 0 <= row < m.height && 0 <= col < m.width then Some((row as nat, col as nat)) else None
  {
    var row, col := p.0 + RowDelta(d), p.1 + ColDelta(d);
    if 0 <= row && 0 <= col {
      SquareAcceptsExactlyInBounds(m, (row as nat, col as nat));
    }
  }

  /** On a matrix that is not square, some in-bounds point is rejected:
      `(width, 0)` when there are more rows than columns, `(0, height)` when
      there are more columns than rows. */
  lemma NonSquareRejectsInBoundsPoint(m: Matrix)
    requires Valid(m) && m.width != m.height && m.width > 0 && m.height > 0
    ensures m.width < m.height ==> InBounds(m, (m.width, 0)) && !ValidatePoint(m, m.width, 0)
    ensures m.height < m.width ==> InBounds(m, (0, m.height)) && !ValidatePoint(m, 0, m.height)
  {
  }

  /** On a matrix with more rows than columns, the point just past the end of
      row 0 is accepted and reads the first letter of row 1. */
  lemma TallMatrixReadsPastRowEnd(m: Matrix)
    requires Valid(m) && 0 < m.width < m.height
    ensures !InBounds(m, (0, m.width))
    ensures ValidatePoint(m, 0, m.width) && GetElement(m, (0, m.width)) == Some(m.elements[m.width])
  {
    assert m.width < m.width * m.height;
  }

  /** Row-major round trip: on a square matrix every stored index maps to a
      point whose letter is the letter stored at that index. */
  lemma SquareIndexRoundTrip(m: Matrix, index: nat)
    requires Valid(m) && m.width == m.height && index < m.capacity
    ensures PointFromIndex(m, index).Ok?
    ensures GetLetter(m, PointFromIndex(m, index).value) == Ok(m.elements[index])
  {
    var p := PointFromIndex(m, index).value;
    SquareAcceptsExactlyInBounds(m, p);
  }

  /** On a matrix with more rows than columns, index `width * width` is the
      in-bounds point `(width, 0)`, whose letter cannot be read. */
  lemma TallIndexWithoutLetter(m: Matrix)
    requires Valid(m) && 0 < m.width < m.height
    ensures CellIndex(m.width, m.width, 0) < m.capacity
    ensures PointFromIndex(m, CellIndex(m.width, m.width, 0)) == Ok((m.width, 0))
    ensures GetLetter(m, (m.width, 0)).Err?
  {
    DivModOf(m.width, 0, m.width);
    MulMonotone(m.width + 1, m.height, m.width);
  }

  /** On a matrix with more columns than rows, index `height` is the in-bounds
      point `(0, height)`, whose letter cannot be read. */
  lemma WideIndexWithoutLetter(m: Matrix)
    requires Valid(m) && 0 < m.height < m.width
    ensures m.height < m.capacity
    ensures PointFromIndex(m, m.height) == Ok((0, m.height))
    ensures GetLetter(m, (0, m.height)).Err?
  {
    DivModOf(0, m.height, m.width);
    MulMonotone(1, m.height, m.width);
  }

  /** On a matrix that is not square, some stored index maps to a point whose
      letter cannot be read. */
  lemma NonSquareIndexWithoutLetter(m: Matrix)
    requires Valid(m) && m.width != m.height && m.width > 0 && m.height > 0
    ensures exists index: nat :: index < m.capacity && PointFromIndex(m, index).Ok? && GetLetter(m, PointFromIndex(m, index).value).Err?
  {
    if m.width < m.height {
      TallIndexWithoutLetter(m);
      var index := CellIndex(m.width, m.width, 0);
      assert index < m.capacity && PointFromIndex(m, index).Ok? && GetLetter(m, PointFromIndex(m, index).value).Err?;
    } else {
      WideIndexWithoutLetter(m);
      var index := m.height;
      assert index < m.capacity && PointFromIndex(m, index).Ok? && GetLetter(m, PointFromIndex(m, index).value).Err?;
    }
  }

  /** Row-major round trip the other way: the index of an in-bounds point
      maps back to that point. */
  lemma IndexOfPoint(m: Matrix, row: nat, col: nat)
    requires Valid(m) && InBounds(m, (row, col))
    ensures CellIndex(m.width, row, col) < m.capacity
    ensures PointFromIndex(m, CellIndex(m.width, row, col)) == Ok((row, col))
  {
    InBoundsIndex(m, (row, col));
    DivModOf(row, col, m.width);
  }

  lemma DivModOf(q: nat, r: nat, w: nat)
    requires r < w
    ensures (q * w + r) / w == q && (q * w + r) % w == r
  {
    var n := q * w + r;
    var q', r' := n / w, n % w;
    assert q' * w + r' == q * w + r;
    if q' > q {
      MulMonotone(q + 1, q', w);
    } else if q' < q {
      MulMonotone(q' + 1, q, w);
    }
  }

  lemma MulMonotone(a: nat, b: nat, w: nat)
    requires a <= b
    ensures a * w <= b * w
  {
  }

  // ---------------------------------------------------------------------------
  // The unit tests of src/word_finder/matrix.rs, on the model

  /** `test_new_matrix`: the cells of a 3 by 3 matrix are stored row by row. */
  lemma NewMatrixStoresRowByRow(rows: seq<seq<char>>)
    requires rows == ["cbc", "aee", "ttl"]
    ensures New(rows).Ok?
    ensures New(rows).value.elements[0] == 'c' && New(rows).value.elements[3] == 'a'
    ensures New(rows).value.elements[4] == 'e' && New(rows).value.elements[8] == 'l'
  {
    assert forall k :: 0 <= k < |rows| ==> |rows[k]| == 3;
    var m := New(rows).value;
    assert RowMajor(m.elements, rows, 3);
    assert rows[0][0] == 'c' && rows[1][0] == 'a' && rows[1][1] == 'e' && rows[2][2] == 'l';
    assert m.elements[CellIndex(3, 0, 0)] == 'c';
    assert m.elements[CellIndex(3, 1, 0)] == 'a';
    assert m.elements[CellIndex(3, 1, 1)] == 'e';
    assert m.elements[CellIndex(3, 2, 2)] == 'l';
  }

  /** `test_new_matrix_panics_for_uneven_matrix`. */
  lemma NewRejectsUnevenRows(rows: seq<seq<char>>)
    requires rows == ["ab", "def", "ghi"]
    ensures New(rows) == Err(RowsOfDifferentSizes)
  {
    assert |rows[1]| != |rows[0]|;
  }

  /** The 3 by 3 matrix of rows "abc", "def", "ghi" the remaining tests use. */
  lemma AlphabetMatrix(rows: seq<seq<char>>)
    requires rows == ["abc", "def", "ghi"]
    ensures New(rows).Ok?
    ensures Valid(New(rows).value)
    ensures New(rows).value.width == 3 && New(rows).value.height == 3 && New(rows).value.capacity == 9
    ensures New(rows).value.elements[0] == 'a' && New(rows).value.elements[8] == 'i'
  {
    assert forall k :: 0 <= k < |rows| ==> |rows[k]| == 3;
    var m := New(rows).value;
    assert RowMajor(m.elements, rows, 3);
    assert rows[0][0] == 'a' && rows[2][2] == 'i';
    assert m.elements[CellIndex(3, 0, 0)] == 'a';
    assert m.elements[CellIndex(3, 2, 2)] == 'i';
  }

  /** `test_get_matrix_element`. */
  lemma AlphabetMatrixElements(rows: seq<seq<char>>)
    requires rows == ["abc", "def", "ghi"]
    ensures New(rows).Ok?
    ensures GetElement(New(rows).value, (0, 0)) == Some('a')
    ensures GetElement(New(rows).value, (2, 2)) == Some('i')
  {
    AlphabetMatrix(rows);
    assert CellIndex(3, 2, 2) == 8;
  }

  /** `test_matrix_next`. */
  lemma AlphabetMatrixSteps(rows: seq<seq<char>>)
    requires rows == ["abc", "def", "ghi"]
    ensures New(rows).Ok?
    ensures Next(New(rows).value, (0, 0), Down) == Some((1, 0))
    ensures Next(New(rows).value, (0, 1), Left) == Some((0, 0))
    ensures Next(New(rows).value, (2, 2), Right) == None
    ensures Next(New(rows).value, (1, 1), Up) == Some((0, 1))
  {
    AlphabetMatrix(rows);
    var m := New(rows).value;
    ThreeByThreeStep(m, (0, 0), Down, Some((1, 0)));
    ThreeByThreeStep(m, (0, 1), Left, Some((0, 0)));
    ThreeByThreeStep(m, (2, 2), Right, None);
    ThreeByThreeStep(m, (1, 1), Up, Some((0, 1)));
  }

  /** One step of `test_matrix_next` on a 3 by 3 matrix. */
  lemma ThreeByThreeStep(m: Matrix, p: Point, d: Direction, q: Option<Point>)
    requires Valid(m) && m.width == 3 && m.height == 3
    requires (p, d, q) in [((0, 0), Down, Some((1, 0))), ((0, 1), Left, Some((0, 0))),
                           ((2, 2), Right, None), ((1, 1), Up, Some((0, 1)))]
    ensures Next(m, p, d) == q
  {
    SquareNextStaysInBounds(m, p, d);
  }

  /** `test_get_point_from_index`. */
  lemma AlphabetMatrixPoints(rows: seq<seq<char>>)
    requires rows == ["abc", "def", "ghi"]
    ensures New(rows).Ok?
    ensures PointFromIndex(New(rows).value, 5) == Ok((1, 2))
    ensures PointFromIndex(New(rows).value, 7) == Ok((2, 1))
    ensures PointFromIndex(New(rows).value, 0) == Ok((0, 0))
    ensures PointFromIndex(New(rows).value, 8) == Ok((2, 2))
  {
    AlphabetMatrix(rows);
    var m := New(rows).value;
    IndexOfPoint(m, 1, 2);
    IndexOfPoint(m, 2, 1);
    IndexOfPoint(m, 0, 0);
    IndexOfPoint(m, 2, 2);
  }
}
