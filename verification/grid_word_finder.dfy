/** The older grid word finder of src/word_finder.rs: the same depth-first
    search as `MatrixWordFinder`, over the `u8` grid, with a trie as its
    dictionary and no filters.

    `Traverse` prunes the branch when the word so far begins no trie word,
    records the word when the trie holds it, then marks the point, appends
    its letter, tries every unvisited neighbour and backtracks. Its own
    contract states what it keeps and records; `SearchAgrees` proves the
    whole search equal to the matrix finder's with the default filters, which
    carries over the path and panic facts proved there. */
module GridWordFinder {
  import opened Outcomes
  import opened Letters
  import opened Directions
  import Trie
  import Grid
  import Matrix
  import Dictionaries
  import Filters
  import MatrixWordFinder

  type Point = Grid.Point

  datatype Finder = Finder(dictionary: Trie.TrieNode, directions: seq<Direction>)

  /** `WordFinderState` with `u8` points. */
  datatype State = State(word: string, visited: set<Point>, found: set<string>)

  /** `GridWordFinder::new`: the direction set of `MatrixWordFinder::new`. */
  function New(dictionary: Trie.TrieNode, diagonal: bool): (f: Finder)
    ensures f.dictionary == dictionary
    ensures AsMatrixFinder(f) == MatrixWordFinder.New(Dictionaries.WordTrie(dictionary), diagonal)
  {
    Finder(dictionary, DirectionSet(diagonal))
  }

  // ---------------------------------------------------------------------------
  // The matrix finder it agrees with

  function AsMatrixFinder(f: Finder): MatrixWordFinder.Finder {
    MatrixWordFinder.Finder(Dictionaries.WordTrie(f.dictionary), f.directions)
  }

  /** A set of `u8` points read as a set of `usize` points. */
  function Widen(v: set<Point>): (r: set<Matrix.Point>)
    ensures forall q :: q in r <==> q in v
  {
    assert forall p :: p in v ==> p.0 >= 0 && p.1 >= 0;
    v
  }

  function AsMatrixState(s: State): MatrixWordFinder.State {
    MatrixWordFinder.State(s.word, Widen(s.visited), s.found)
  }

  function Lift(r: Result<State>): Result<MatrixWordFinder.State> {
    match r
    case Ok(s) => Ok(AsMatrixState(s))
    case Err(e) => Err(e)
  }

  /** What the traversal needs of its inputs: a well-formed trie, ASCII cells,
      and a grid whose bounds check cannot overflow. */
  ghost predicate Ready(f: Finder, g: Grid.Grid) {
    Trie.Wf(f.dictionary) && Grid.Fits(g) && IsAsciiString(g.cells)
  }

  lemma ReadyForMatrix(f: Finder, g: Grid.Grid, w: string)
    requires Ready(f, g) && MatrixWordFinder.FromMatrix(Grid.AsMatrix(g), w)
    ensures Dictionaries.Usable(AsMatrixFinder(f).dictionary)
    ensures MatrixWordFinder.Readable(AsMatrixFinder(f).dictionary, Grid.AsMatrix(g))
    ensures IsAsciiString(w)
  {
    MatrixWordFinder.MatrixWordsAreAdmitted(AsMatrixFinder(f).dictionary, Grid.AsMatrix(g), w);
  }

  // ---------------------------------------------------------------------------
  // The search

  /** `GridWordFinder::traverse` entered at `p` with state `s`. */
  function Traverse(f: Finder, g: Grid.Grid, p: Point, s: State): (r: Result<State>)
    requires Ready(f, g) && MatrixWordFinder.FromMatrix(Grid.AsMatrix(g), s.word)
    requires p !in s.visited
    ensures r.Ok? ==> r.value.word == s.word && r.value.visited == s.visited && s.found <= r.value.found
    ensures r.Ok? ==> forall w :: w in r.value.found - s.found ==> IsAsciiString(w) && Trie.Search(f.dictionary, w) == Ok(true)
    ensures (ReadyForMatrix(f, g, s.word); Trie.StartsWith(f.dictionary, s.word) == Ok(false) ==> r == Ok(s))
    decreases |MatrixWordFinder.Cells(Grid.AsMatrix(g)) - Widen(s.visited + {p})|, 1
  {
    ReadyForMatrix(f, g, s.word);
    var more :- Trie.StartsWith(f.dictionary, s.word);
    if !more then Ok(s)
    else
      var hit := Trie.Search(f.dictionary, s.word).value;
      var found := if hit then s.found + {s.word} else s.found;
      var visited := s.visited + {p};
      var letter :- Grid.GetLetter(g, p);
      var s' :- TraverseDirs(f, g, p, State(s.word + [letter], visited, found), 0);
      Ok(State(s'.word[..|s'.word| - 1], s'.visited - {p}, s'.found))
  }

  /** The `for direction in self.directions` loop of `traverse`, from the
      `i`-th direction on, around the readable point `p`. */
  function TraverseDirs(f: Finder, g: Grid.Grid, p: Point, s: State, i: nat): (r: Result<State>)
    requires Ready(f, g) && MatrixWordFinder.FromMatrix(Grid.AsMatrix(g), s.word)
    requires Matrix.GetElement(Grid.AsMatrix(g), (p.0, p.1)).Some?
    requires i <= |f.directions|
    ensures r.Ok? ==> r.value.word == s.word && r.value.visited == s.visited && s.found <= r.value.found
    ensures r.Ok? ==> forall w :: w in r.value.found - s.found ==> IsAsciiString(w) && Trie.Search(f.dictionary, w) == Ok(true)
    decreases |MatrixWordFinder.Cells(Grid.AsMatrix(g)) - Widen(s.visited)|, 0, |f.directions| - i
  {
    if i == |f.directions| then Ok(s)
    else
      var s' :- (
        match Grid.Next(g, p, f.directions[i])
        case None => Ok(s)
        case Some(q) =>
          if q in s.visited then Ok(s)
          else
            MatrixWordFinder.AcceptedPointsAreCells(Grid.AsMatrix(g), (q.0, q.1));
            MatrixWordFinder.VisitShrinks(MatrixWordFinder.Cells(Grid.AsMatrix(g)), Widen(s.visited), (q.0, q.1));
            assert Widen(s.visited + {q}) == Widen(s.visited) + {(q.0, q.1)};
            Traverse(f, g, q, s));
      TraverseDirs(f, g, p, s', i + 1)
  }

  /** `WordFinder::search` for grids: a traversal from every index. */
  function Search(f: Finder, g: Grid.Grid): (r: Result<set<string>>)
    requires Ready(f, g) && Grid.Valid(g)
    ensures r.Ok? ==> forall w :: w in r.value ==> IsAsciiString(w) && Trie.Search(f.dictionary, w) == Ok(true)
    ensures r.Ok? && g.width == g.height ==> forall w :: w in r.value <==>
      && IsAsciiString(w) && Trie.Search(f.dictionary, w) == Ok(true)
      && MatrixWordFinder.Recordable(AsMatrixFinder(f), Grid.AsMatrix(g), w)
  {
    var r := SearchFrom(f, g, 0, State([], {}, {}));
    if r.Ok? && g.width == g.height then
      SearchFromFindsExactly(f, g);
      r
    else r
  }

  function SearchFrom(f: Finder, g: Grid.Grid, index: nat, s: State): (r: Result<set<string>>)
    requires Ready(f, g) && Grid.Valid(g)
    requires s.word == [] && s.visited == {}
    ensures r.Ok? ==> s.found <= r.value
    ensures r.Ok? ==> forall w :: w in r.value - s.found ==> IsAsciiString(w) && Trie.Search(f.dictionary, w) == Ok(true)
    decreases g.capacity - index
  {
    if index >= g.capacity then Ok(s.found)
    else
      var p := Grid.PointFromIndex(g, index).value;
      var s' :- Traverse(f, g, p, s);
      SearchFrom(f, g, index + 1, s')
  }

  // ---------------------------------------------------------------------------
  // Agreement with the matrix finder

  /** The grid traversal is the matrix traversal with the default filters,
      which let every word through to the dictionary. */
  lemma {:induction false} TraverseAgrees(f: Finder, g: Grid.Grid, p: Point, s: State)
    requires Ready(f, g) && MatrixWordFinder.FromMatrix(Grid.AsMatrix(g), s.word)
    requires p !in s.visited
    ensures (ReadyForMatrix(f, g, s.word);
             Lift(Traverse(f, g, p, s)) ==
             MatrixWordFinder.Traverse(AsMatrixFinder(f), Grid.AsMatrix(g), Filters.Default, (p.0, p.1), AsMatrixState(s)))
    decreases |MatrixWordFinder.Cells(Grid.AsMatrix(g)) - Widen(s.visited + {p})|, 1
  {
    ReadyForMatrix(f, g, s.word);
    Filters.DefaultAcceptsAll(s.word);
    if Trie.StartsWith(f.dictionary, s.word) == Ok(true) && Grid.GetLetter(g, p).Ok? {
      var hit := Trie.Search(f.dictionary, s.word).value;
      var found := if hit then s.found + {s.word} else s.found;
      var s1 := State(s.word + [Grid.GetLetter(g, p).value], s.visited + {p}, found);
      assert AsMatrixState(s1).visited == AsMatrixState(s).visited + {(p.0, p.1)};
      TraverseDirsAgrees(f, g, p, s1, 0);
    }
  }

  lemma {:induction false} TraverseDirsAgrees(f: Finder, g: Grid.Grid, p: Point, s: State, i: nat)
    requires Ready(f, g) && MatrixWordFinder.FromMatrix(Grid.AsMatrix(g), s.word)
    requires Matrix.GetElement(Grid.AsMatrix(g), (p.0, p.1)).Some?
    requires i <= |f.directions|
    ensures (ReadyForMatrix(f, g, s.word);
             Lift(TraverseDirs(f, g, p, s, i)) ==
             MatrixWordFinder.TraverseDirs(AsMatrixFinder(f), Grid.AsMatrix(g), Filters.Default, (p.0, p.1), AsMatrixState(s), i))
    decreases |MatrixWordFinder.Cells(Grid.AsMatrix(g)) - Widen(s.visited)|, 0, |f.directions| - i
  {
    ReadyForMatrix(f, g, s.word);
    if i < |f.directions| {
      var t := (
        match Grid.Next(g, p, f.directions[i])
        case None => Ok(s)
        case Some(q) => if q in s.visited then Ok(s) else Traverse(f, g, q, s));
      match Grid.Next(g, p, f.directions[i]) {
        case None =>
        case Some(q) =>
          if q !in s.visited {
            MatrixWordFinder.AcceptedPointsAreCells(Grid.AsMatrix(g), (q.0, q.1));
            MatrixWordFinder.VisitShrinks(MatrixWordFinder.Cells(Grid.AsMatrix(g)), Widen(s.visited), (q.0, q.1));
            assert Widen(s.visited + {q}) == Widen(s.visited) + {(q.0, q.1)};
            TraverseAgrees(f, g, q, s);
          }
      }
      if t.Ok? {
        TraverseDirsAgrees(f, g, p, t.value, i + 1);
      }
    }
  }

  lemma {:induction false} SearchFromAgrees(f: Finder, g: Grid.Grid, index: nat, s: State)
    requires Ready(f, g) && Grid.Valid(g)
    requires s.word == [] && s.visited == {}
    ensures (ReadyForMatrix(f, g, s.word);
             SearchFrom(f, g, index, s) ==
             MatrixWordFinder.SearchFrom(AsMatrixFinder(f), Grid.AsMatrix(g), Filters.Default, index, AsMatrixState(s)))
    decreases g.capacity - index
  {
    ReadyForMatrix(f, g, s.word);
    if index < g.capacity {
      var p := Grid.PointFromIndex(g, index).value;
      var m := Grid.AsMatrix(g);
      assert Matrix.PointFromIndex(m, index).value == (p.0, p.1);
      TraverseAgrees(f, g, p, s);
      var t := Traverse(f, g, p, s);
      var mt := MatrixWordFinder.Traverse(AsMatrixFinder(f), m, Filters.Default, (p.0, p.1), AsMatrixState(s));
      assert Lift(t) == mt;
      var mf := AsMatrixFinder(f);
      if t.Ok? {
        SearchFromAgrees(f, g, index + 1, t.value);
        assert mt == Ok(AsMatrixState(t.value));
        assert SearchFrom(f, g, index, s) == SearchFrom(f, g, index + 1, t.value);
        assert MatrixWordFinder.SearchFrom(mf, m, Filters.Default, index, AsMatrixState(s))
          == MatrixWordFinder.SearchFrom(mf, m, Filters.Default, index + 1, AsMatrixState(t.value));
      } else {
        assert mt == Err(t.fault);
        assert SearchFrom(f, g, index, s) == Err(t.fault);
        assert MatrixWordFinder.SearchFrom(mf, m, Filters.Default, index, AsMatrixState(s)) == Err(t.fault);
      }
    }
  }

  /** The older finder on a grid finds exactly what the newer finder finds on
      the same cells read as a matrix, with the trie and the default filters,
      and panics exactly when it does. */
  lemma SearchAgrees(f: Finder, g: Grid.Grid)
    requires Ready(f, g) && Grid.Valid(g)
    ensures (ReadyForMatrix(f, g, []);
             Search(f, g) == MatrixWordFinder.Search(AsMatrixFinder(f), Grid.AsMatrix(g), Filters.Default))
  {
    SearchFromAgrees(f, g, 0, State([], {}, {}));
  }

  /** On a square grid the older finder's outer loop returns exactly the
      trie words that are `Recordable` on the grid read as a matrix. */
  lemma SearchFromFindsExactly(f: Finder, g: Grid.Grid)
    requires Ready(f, g) && Grid.Valid(g) && g.width == g.height
    requires SearchFrom(f, g, 0, State([], {}, {})).Ok?
    ensures forall w :: w in SearchFrom(f, g, 0, State([], {}, {})).value <==>
      && IsAsciiString(w) && Trie.Search(f.dictionary, w) == Ok(true)
      && MatrixWordFinder.Recordable(AsMatrixFinder(f), Grid.AsMatrix(g), w)
  {
    var mf, m := AsMatrixFinder(f), Grid.AsMatrix(g);
    SearchFromAgrees(f, g, 0, State([], {}, {}));
    ReadyForMatrix(f, g, []);
    assert AsMatrixState(State([], {}, {})) == MatrixWordFinder.State([], {}, {});
    MatrixWordFinder.SearchFromFindsExactly(mf, m, Filters.Default);
    forall w ensures Filters.Accepted(mf.dictionary, Filters.Default, w) <==>
      IsAsciiString(w) && Trie.Search(f.dictionary, w) == Ok(true)
    {
      Filters.DefaultAcceptsAll(w);
    }
  }

  /** Every word the older finder reports is spelled along a simple path of
      the grid, and is recorded only with a further unvisited neighbour. */
  lemma FoundWordsAreRecordable(f: Finder, g: Grid.Grid)
    requires Ready(f, g) && Grid.Valid(g) && Search(f, g).Ok?
    ensures forall w :: w in Search(f, g).value ==>
      MatrixWordFinder.Recordable(AsMatrixFinder(f), Grid.AsMatrix(g), w)
  {
    SearchAgrees(f, g);
    ReadyForMatrix(f, g, []);
    MatrixWordFinder.SearchFindsRecordableWords(AsMatrixFinder(f), Grid.AsMatrix(g), Filters.Default);
  }

  /** A square grid of letters is searched without a panic. */
  lemma SquareLetterGridSucceeds(f: Finder, g: Grid.Grid)
    requires Ready(f, g) && Grid.Valid(g) && g.width == g.height && IsLetterString(g.cells)
    ensures Search(f, g).Ok?
  {
    SearchAgrees(f, g);
    ReadyForMatrix(f, g, []);
    assert MatrixWordFinder.Dependable(AsMatrixFinder(f).dictionary, Grid.AsMatrix(g));
  }
}
