/** The older `u8` letter grid of src/grid.rs: the same row-major layout,
    bounds check and `next` step as the `usize` matrix, with every size and
    coordinate a `u8`.

    The `u8` arithmetic is kept inside its range by preconditions rather than
    modelled as wrap-around or overflow panics: `New` needs at most 255 rows
    and at most 255 cells, `GetCell` needs every index its bounds check lets
    through to be below 256 (`Fits`), and `Next` needs coordinates below 255
    so that `+ 1` cannot overflow. Under those conditions every operation is
    proved to agree with its `Matrix` counterpart on `AsMatrix`. */
module Grid {
  import opened Outcomes
  import opened Directions
  import Matrix

  type u8 = x: int | 0 <= x < 256

  /** `(row, column)`. */
  type Point = (u8, u8)

  datatype Grid = Grid(cells: seq<char>, height: u8, width: u8, capacity: u8)

  /** The shape every grid built by `New` has. */
  ghost predicate Valid(g: Grid) {
    |g.cells| == g.capacity == g.width * g.height
  }

  /** The same grid read as a `usize` matrix. */
  function AsMatrix(g: Grid): (m: Matrix.Matrix)
    ensures Valid(g) <==> Matrix.Valid(m)
  {
    Matrix.Matrix(g.cells, g.height, g.width, g.capacity)
  }

  /** A nested slice whose height and cell count fit in a `u8`, so that
      `Grid::new` neither truncates a length nor overflows the capacity. */
  predicate SizesFit(rows: seq<seq<char>>) {
    |rows| < 256 && (|rows| > 0 ==> |rows[0]| * |rows| < 256)
  }

  /** Every point `get_cell`'s bounds check lets through has a row-major index
      that fits in a `u8`: the largest is `(width - 1) * width + height - 1`. */
  ghost predicate Fits(g: Grid) {
    g.width == 0 || g.height == 0 || (g.width - 1) * g.width + g.height - 1 < 256
  }

  /** `Grid::new`: the twin of `Matrix::new`. */
  function New(rows: seq<seq<char>>): (r: Result<Grid>)
    requires SizesFit(rows)
    ensures r.Ok? <==> Matrix.New(rows).Ok?
    ensures r.Err? ==> r.fault == Matrix.New(rows).fault
    ensures r.Ok? ==> Valid(r.value) && AsMatrix(r.value) == Matrix.New(rows).value
  {
    if |rows| == 0 then Err(UnwrapOnNone)
    else
      var width: u8 := |rows[0]|;
      var height: u8 := |rows|;
      if exists k :: 0 <= k < |rows| && |rows[k]| != width then Err(RowsOfDifferentSizes)
      else
        Matrix.FlattenLength(rows, width);
        Ok(Grid(Matrix.Flatten(rows), height, width, width * height))
  }

  /** `Grid::get_cell`: the row is compared with the width and the column with
      the height, as in `Matrix::get_element`. */
  function GetCell(g: Grid, p: Point): (r: Option<char>)
    requires Fits(g)
    ensures r == Matrix.GetElement(AsMatrix(g), p)
  {
    if p.0 < g.width && p.1 < g.height then
      Matrix.MulMonotone(p.0, g.width - 1, g.width);
      var index: u8 := p.0 * g.width + p.1;
      if index < |g.cells| then Some(g.cells[index]) else None
    else None
  }

  /** `Grid::get_letter`: unwraps `get_cell`. */
  function GetLetter(g: Grid, p: Point): (r: Result<char>)
    requires Fits(g)
    ensures r == Matrix.GetLetter(AsMatrix(g), (p.0, p.1))
  {
    match GetCell(g, p)
    case None => Err(UnwrapOnNone)
    case Some(letter) => Ok(letter)
  }

  /** `Grid::get_point_from_index`. */
  function PointFromIndex(g: Grid, index: u8): (r: Result<Point>)
    requires Valid(g)
    ensures r.Ok? <==> Matrix.PointFromIndex(AsMatrix(g), index).Ok?
    ensures r.Err? ==> r.fault == IndexOutOfBounds
    ensures r.Ok? ==> r.value == Matrix.PointFromIndex(AsMatrix(g), index).value
  {
    if index < g.capacity then Ok((index / g.width, index % g.width))
    else Err(IndexOutOfBounds)
  }

  /** `Grid::validate_point`. */
  function ValidatePoint(g: Grid, row: u8, col: u8): (r: bool)
    requires Fits(g)
    ensures r == Matrix.ValidatePoint(AsMatrix(g), row, col)
  {
    GetCell(g, (row, col)).Some?
  }

  /** `checked_sub(1)` on a `u8`. */
  function CheckedDecrement(x: u8): (r: Option<u8>)
    ensures r == Matrix.CheckedDecrement(x)
  {
    if x == 0 then None else Some(x - 1)
  }

  /** `Grid::next`: the twin of `Matrix::next`; the `+ 1` steps are where a
      `u8` could overflow, hence the bound on the coordinates. */
  function Next(g: Grid, p: Point, d: Direction): (r: Option<Point>)
    requires Fits(g) && p.0 < 255 && p.1 < 255
    ensures r == Matrix.Next(AsMatrix(g), p, d)
  {
    var target :- match d
      case Up => var row :- CheckedDecrement(p.0); Some((row, p.1))
      case Down => Some((p.0 + 1, p.1))
      case Left => var col :- CheckedDecrement(p.1); Some((p.0, col))
      case Right => Some((p.0, p.1 + 1))
      case UpperLeft =>
        var row :- CheckedDecrement(p.0);
        var col :- CheckedDecrement(p.1);
        Some((row, col))
      case UpperRight => var row :- CheckedDecrement(p.0); Some((row, p.1 + 1))
      case LowerLeft => var col :- CheckedDecrement(p.1); Some((p.0 + 1, col))
      case LowerRight => Some((p.0 + 1, p.1 + 1));
    if ValidatePoint(g, target.0, target.1) then Some(target) else None
  }

  /** Every square grid `New` builds meets `Fits`: its largest accepted index
      is `width * width - 1`. */
  lemma SquareGridsFit(rows: seq<seq<char>>)
    requires SizesFit(rows) && New(rows).Ok? && New(rows).value.width == New(rows).value.height
    ensures Fits(New(rows).value)
  {
  }

  // ---------------------------------------------------------------------------
  // The unit tests of src/grid.rs, on the model

  /** `test_grid_new`. */
  lemma NewGridStoresRowByRow(rows: seq<seq<char>>)
    requires rows == ["cbc", "aee", "ttl"]
    ensures SizesFit(rows) && New(rows).Ok?
    ensures New(rows).value.cells[0] == 'c' && New(rows).value.cells[3] == 'a'
    ensures New(rows).value.cells[4] == 'e' && New(rows).value.cells[8] == 'l'
  {
    Matrix.NewMatrixStoresRowByRow(rows);
  }

  /** `test_grid_new_panics_for_uneven_matrix`. */
  lemma NewGridRejectsUnevenRows(rows: seq<seq<char>>)
    requires rows == ["ab", "def", "ghi"]
    ensures SizesFit(rows) && New(rows) == Err(RowsOfDifferentSizes)
  {
    Matrix.NewRejectsUnevenRows(rows);
  }

  /** The 3 by 3 grid of rows "abc", "def", "ghi" the remaining tests use,
      read as the matrix of the same rows. */
  lemma AlphabetGrid(rows: seq<seq<char>>)
    requires rows == ["abc", "def", "ghi"]
    ensures SizesFit(rows) && New(rows).Ok? && Fits(New(rows).value)
    ensures Matrix.New(rows).Ok? && AsMatrix(New(rows).value) == Matrix.New(rows).value
  {
    Matrix.AlphabetMatrix(rows);
  }

  /** `test_grid_get_cell`. */
  lemma AlphabetGridCells(rows: seq<seq<char>>)
    requires rows == ["abc", "def", "ghi"]
    ensures SizesFit(rows) && New(rows).Ok? && Fits(New(rows).value)
    ensures GetCell(New(rows).value, (0, 0)) == Some('a')
    ensures GetCell(New(rows).value, (2, 2)) == Some('i')
  {
    AlphabetGrid(rows);
    Matrix.AlphabetMatrixElements(rows);
  }

  /** `test_grid_next`. */
  lemma AlphabetGridSteps(rows: seq<seq<char>>)
    requires rows == ["abc", "def", "ghi"]
    ensures SizesFit(rows) && New(rows).Ok? && Fits(New(rows).value)
    ensures Next(New(rows).value, (0, 0), Down) == Some((1, 0))
    ensures Next(New(rows).value, (0, 1), Left) == Some((0, 0))
    ensures Next(New(rows).value, (2, 2), Right) == None
    ensures Next(New(rows).value, (1, 1), Up) == Some((0, 1))
  {
    AlphabetGrid(rows);
    Matrix.AlphabetMatrixSteps(rows);
  }

  /** `test_grid_get_point_from_index`. */
  lemma AlphabetGridPoints(rows: seq<seq<char>>)
    requires rows == ["abc", "def", "ghi"]
    ensures SizesFit(rows) && New(rows).Ok?
    ensures PointFromIndex(New(rows).value, 5) == Ok((1, 2))
    ensures PointFromIndex(New(rows).value, 7) == Ok((2, 1))
    ensures PointFromIndex(New(rows).value, 0) == Ok((0, 0))
    ensures PointFromIndex(New(rows).value, 8) == Ok((2, 2))
  {
    AlphabetGrid(rows);
    Matrix.AlphabetMatrixPoints(rows);
  }
}
