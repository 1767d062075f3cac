/** The matrix word finder of src/word_finder/matrix_word_finder.rs.

    `Traverse` is a depth-first search over simple paths of the matrix: it
    prunes the branch when the word spelled so far is not the beginning of a
    dictionary word, records the word when it passes the filters and is a
    dictionary word, then marks the point visited, appends the point's letter
    and tries every neighbour in the finder's directions that is not yet
    visited, and finally pops the letter and unmarks the point. `Search`
    starts a traversal at every index of the matrix in turn.

    The word is checked BEFORE the point's letter is appended, so a word is
    recorded only on entry into one more unvisited neighbour of its last
    letter (see `Recordable`). */
module MatrixWordFinder {
  import opened Outcomes
  import opened Letters
  import opened Directions
  import opened Filters
  import Matrix
  import Dictionaries

  type Point = Matrix.Point

  datatype Finder = Finder(dictionary: Dictionaries.Dictionary, directions: seq<Direction>)

  /** `WordFinderState`: the word spelled so far, the points on the current
      path, and the words recorded so far. */
  datatype State = State(word: string, visited: set<Point>, found: set<string>)

  /** `MatrixWordFinder::new`: all eight directions, or only the four
      orthogonal ones. */
  function New(dictionary: Dictionaries.Dictionary, diagonal: bool): (f: Finder)
    ensures f.dictionary == dictionary
    ensures forall d :: d in f.directions <==> diagonal || IsOrthogonal(d)
    ensures |f.directions| == if diagonal then 8 else 4
  {
    Finder(dictionary, DirectionSet(diagonal))
  }

  /** The points the bounds check of `get_element` can accept; every point a
      traversal visits is one of them, which bounds the depth of the search. */
  ghost function Cells(m: Matrix.Matrix): set<Point> {
    set r: nat, c: nat | r < m.width && c < m.height :: (r, c)
  }

  lemma AcceptedPointsAreCells(m: Matrix.Matrix, p: Point)
    requires Matrix.GetElement(m, p).Some?
    ensures p in Cells(m)
  {
    assert p == (p.0, p.1);
  }

  /** Visiting one more cell leaves fewer cells unvisited. */
  lemma VisitShrinks(cells: set<Point>, visited: set<Point>, p: Point)
    requires p in cells && p !in visited
    ensures |cells - (visited + {p})| < |cells - visited|
  {
    assert cells - visited == (cells - (visited + {p})) + {p};
  }

  /** Every letter of `w` is a letter of the matrix. */
  ghost predicate FromMatrix(m: Matrix.Matrix, w: string) {
    forall k :: 0 <= k < |w| ==> w[k] in m.elements
  }

  /** The dictionary can be asked about words of the matrix's letters: the
      trie needs them to be ASCII. */
  predicate Readable(d: Dictionaries.Dictionary, m: Matrix.Matrix) {
    Dictionaries.Admits(d, m.elements)
  }

  /** No query about words of the matrix's letters can panic. */
  predicate Dependable(d: Dictionaries.Dictionary, m: Matrix.Matrix) {
    Dictionaries.Reliable(d, m.elements)
  }

  lemma MatrixWordsAreAdmitted(d: Dictionaries.Dictionary, m: Matrix.Matrix, w: string)
    requires FromMatrix(m, w)
    ensures Readable(d, m) ==> Dictionaries.Admits(d, w)
    ensures Dependable(d, m) ==> Dictionaries.Reliable(d, w)
  {
    forall k | 0 <= k < |w|
      ensures exists j :: 0 <= j < |m.elements| && m.elements[j] == w[k]
    {
      assert w[k] in m.elements;
    }
  }

  /** `MatrixWordFinder::traverse` entered at `p` with state `s`. */
  function Traverse(f: Finder, m: Matrix.Matrix, filters: BasicWordFilters, p: Point, s: State): (r: Result<State>)
    requires Dictionaries.Usable(f.dictionary) && Readable(f.dictionary, m) && FromMatrix(m, s.word)
    requires p !in s.visited
    ensures r.Ok? ==> r.value.word == s.word && r.value.visited == s.visited && s.found <= r.value.found
    ensures r.Ok? ==> forall w :: w in r.value.found - s.found ==> Accepted(f.dictionary, filters, w)
    ensures (MatrixWordsAreAdmitted(f.dictionary, m, s.word);
             Dictionaries.StartsWith(f.dictionary, s.word) == Ok(false) ==> r == Ok(s))
    ensures Dependable(f.dictionary, m) && Matrix.GetElement(m, p).Some? ==> r.Ok?
    decreases |Cells(m) - (s.visited + {p})|, 1
  {
    MatrixWordsAreAdmitted(f.dictionary, m, s.word);
    var more :- Dictionaries.StartsWith(f.dictionary, s.word);
    if !more then Ok(s)
    else
      var hit := Record(f.dictionary, filters, s.word).value;
      var found := if hit then s.found + {s.word} else s.found;
      var visited := s.visited + {p};
      var letter :- Matrix.GetLetter(m, p);
      var s' :- TraverseDirs(f, m, filters, p, State(s.word + [letter], visited, found), 0);
      Ok(State(s'.word[..|s'.word| - 1], s'.visited - {p}, s'.found))
  }

  /** The `for direction in self.directions` loop of `traverse`, from the
      `i`-th direction on, around point `p`. */
  function TraverseDirs(f: Finder, m: Matrix.Matrix, filters: BasicWordFilters, p: Point, s: State, i: nat): (r: Result<State>)
    requires Dictionaries.Usable(f.dictionary) && Readable(f.dictionary, m) && FromMatrix(m, s.word)
    requires i <= |f.directions|
    ensures r.Ok? ==> r.value.word == s.word && r.value.visited == s.visited && s.found <= r.value.found
    ensures r.Ok? ==> forall w :: w in r.value.found - s.found ==> Accepted(f.dictionary, filters, w)
    ensures Dependable(f.dictionary, m) ==> r.Ok?
    decreases |Cells(m) - s.visited|, 0, |f.directions| - i
  {
    if i == |f.directions| then Ok(s)
    else
      var s' :- (
        match Matrix.Next(m, p, f.directions[i])
        case None => Ok(s)
        case Some(q) =>
          if q in s.visited then Ok(s)
          else
            AcceptedPointsAreCells(m, q);
            VisitShrinks(Cells(m), s.visited, q);
            Traverse(f, m, filters, q, s));
      TraverseDirs(f, m, filters, p, s', i + 1)
  }

  /** `WordFinder::search`: a traversal from every index of the matrix. */
  function Search(f: Finder, m: Matrix.Matrix, filters: BasicWordFilters): (r: Result<set<string>>)
    requires Matrix.Valid(m) && Dictionaries.Usable(f.dictionary) && Readable(f.dictionary, m)
    ensures r.Ok? ==> forall w :: w in r.value ==> Accepted(f.dictionary, filters, w)
    ensures Dependable(f.dictionary, m) && m.width == m.height ==> r.Ok?
    ensures r.Ok? && m.width == m.height ==>
      forall w :: w in r.value <==> Accepted(f.dictionary, filters, w) && Recordable(f, m, w)
  {
    var r := SearchFrom(f, m, filters, 0, State([], {}, {}));
    if r.Ok? && m.width == m.height then
      SearchFromFindsExactly(f, m, filters);
      r
    else r
  }

  function SearchFrom(f: Finder, m: Matrix.Matrix, filters: BasicWordFilters, index: nat, s: State): (r: Result<set<string>>)
    requires Matrix.Valid(m) && Dictionaries.Usable(f.dictionary) && Readable(f.dictionary, m)
    requires s.word == [] && s.visited == {}
    ensures r.Ok? ==> s.found <= r.value
    ensures r.Ok? ==> forall w :: w in r.value - s.found ==> Accepted(f.dictionary, filters, w)
    ensures Dependable(f.dictionary, m) && m.width == m.height ==> r.Ok?
    decreases m.capacity - index
  {
    if index >= m.capacity then Ok(s.found)
    else
      var p := Matrix.PointFromIndex(m, index).value;
      SquareStartsAreAccepted(m, p);
      var s' :- Traverse(f, m, filters, p, s);
      SearchFrom(f, m, filters, index + 1, s')
  }

  lemma SquareStartsAreAccepted(m: Matrix.Matrix, p: Point)
    requires Matrix.Valid(m) && Matrix.InBounds(m, p)
    ensures m.width == m.height ==> Matrix.GetElement(m, p).Some?
  {
    if m.width == m.height {
      Matrix.SquareAcceptsExactlyInBounds(m, p);
    }
  }

  // ---------------------------------------------------------------------------
  // Where recorded words come from

  /** `q` is reached from `p` by `next` in one of the finder's directions. */
  ghost predicate Step(f: Finder, m: Matrix.Matrix, p: Point, q: Point) {
    exists d :: d in f.directions && Matrix.Next(m, p, d) == Some(q)
  }

  /** `path` is a simple path of readable points, each a step from the one
      before, whose letters spell `w`. */
  ghost predicate SpelledAlong(f: Finder, m: Matrix.Matrix, path: seq<Point>, w: string) {
    && |path| == |w|
    && (forall k :: 0 <= k < |path| ==> Matrix.GetLetter(m, path[k]) == Ok(w[k]))
    && (forall k, l :: 0 <= k < l < |path| ==> path[k] != path[l])
    && (forall k :: 0 <= k < |path| - 1 ==> Step(f, m, path[k], path[k + 1]))
  }

  /** What the search can record: a word spelled along a simple path that
      some further readable point, off the path, continues; for a non-empty
      path that point is a step from the path's last point. */
  ghost predicate Recordable(f: Finder, m: Matrix.Matrix, w: string) {
    exists path: seq<Point>, q: Point ::
      && SpelledAlong(f, m, path, w) && q !in path && Matrix.GetLetter(m, q).Ok?
      && (|path| > 0 ==> Step(f, m, path[|path| - 1], q))
  }

  /** Appending an unvisited readable point that is a step from the end of
      the path extends the path and its spelling. */
  lemma ExtendPath(f: Finder, m: Matrix.Matrix, path: seq<Point>, w: string, p: Point, letter: char)
    requires SpelledAlong(f, m, path, w) && p !in path && Matrix.GetLetter(m, p) == Ok(letter)
    requires |path| > 0 ==> Step(f, m, path[|path| - 1], p)
    ensures SpelledAlong(f, m, path + [p], w + [letter])
  {
    var path1, w1 := path + [p], w + [letter];
    assert forall k :: 0 <= k < |path| ==> path1[k] == path[k] && w1[k] == w[k];
  }

  /** A traversal entered at `p` along `path` records only words that
      continue `path` and are `Recordable`. */
  lemma {:induction false} TraverseRecordsAlongPaths(
    f: Finder, m: Matrix.Matrix, filters: BasicWordFilters, p: Point, s: State, path: seq<Point>)
    requires Dictionaries.Usable(f.dictionary) && Readable(f.dictionary, m) && FromMatrix(m, s.word)
    requires p !in s.visited
    requires SpelledAlong(f, m, path, s.word) && (forall x :: x in s.visited <==> x in path)
    requires |path| > 0 ==> Step(f, m, path[|path| - 1], p)
    requires Traverse(f, m, filters, p, s).Ok?
    ensures forall w :: w in Traverse(f, m, filters, p, s).value.found - s.found ==> Recordable(f, m, w)
    decreases |Cells(m) - (s.visited + {p})|, 1
  {
    MatrixWordsAreAdmitted(f.dictionary, m, s.word);
    if Dictionaries.StartsWith(f.dictionary, s.word) == Ok(true) {
      var found := if Record(f.dictionary, filters, s.word).value then s.found + {s.word} else s.found;
      var s1 := Entered(f, m, filters, p, s);
      ExtendPath(f, m, path, s.word, p, s1.word[|s.word|]);
      TraverseDirsRecordsAlongPaths(f, m, filters, p, s1, 0, path + [p]);
      PathWordIsRecordable(f, m, path, s.word, p);
      Gathered(f, m, s.found, s1.found, TraverseDirs(f, m, filters, p, s1, 0).value.found, s.word);
    }
  }

  /** Words gathered in two rounds, the first adding at most `w0`, are
      `Recordable` when each round's additions are. */
  lemma Gathered(f: Finder, m: Matrix.Matrix, before: set<string>, mid: set<string>, after: set<string>, w0: string)
    requires mid - before <= {w0} && Recordable(f, m, w0)
    requires forall w :: w in after - mid ==> Recordable(f, m, w)
    ensures forall w :: w in after - before ==> Recordable(f, m, w)
  {
    forall w | w in after - before ensures Recordable(f, m, w) {
      if w in mid {
        assert w in mid - before;
        assert w == w0;
      } else {
        assert w in after - mid;
      }
    }
  }

  /** The state a traversal that goes on hands to its direction loop, and
      what it makes of the loop's result. */
  lemma Entered(f: Finder, m: Matrix.Matrix, filters: BasicWordFilters, p: Point, s: State) returns (s1: State)
    requires Dictionaries.Usable(f.dictionary) && Readable(f.dictionary, m) && FromMatrix(m, s.word)
    requires p !in s.visited
    requires Traverse(f, m, filters, p, s).Ok?
    requires (MatrixWordsAreAdmitted(f.dictionary, m, s.word); Dictionaries.StartsWith(f.dictionary, s.word) == Ok(true))
    ensures Matrix.GetLetter(m, p).Ok? && s1.word == s.word + [Matrix.GetLetter(m, p).value]
    ensures s1.visited == s.visited + {p} && FromMatrix(m, s1.word)
    ensures s1.found - s.found <= {s.word} && s.found <= s1.found
    ensures Accepted(f.dictionary, filters, s.word) ==> s.word in s1.found
    ensures TraverseDirs(f, m, filters, p, s1, 0).Ok?
    ensures Traverse(f, m, filters, p, s).value.found == TraverseDirs(f, m, filters, p, s1, 0).value.found
  {
    var found := if Record(f.dictionary, filters, s.word).value then s.found + {s.word} else s.found;
    var letter := Matrix.GetLetter(m, p).value;
    s1 := State(s.word + [letter], s.visited + {p}, found);
    assert FromMatrix(m, s1.word);
  }

  /** The word spelled along a path that an unvisited point continues is
      `Recordable`. */
  lemma PathWordIsRecordable(f: Finder, m: Matrix.Matrix, path: seq<Point>, w: string, p: Point)
    requires SpelledAlong(f, m, path, w) && p !in path && Matrix.GetLetter(m, p).Ok?
    requires |path| > 0 ==> Step(f, m, path[|path| - 1], p)
    ensures Recordable(f, m, w)
  {
  }

  /** The direction loop around the last point `p` of `path` records only
      `Recordable` words. */
  lemma {:induction false} TraverseDirsRecordsAlongPaths(
    f: Finder, m: Matrix.Matrix, filters: BasicWordFilters, p: Point, s: State, i: nat, path: seq<Point>)
    requires Dictionaries.Usable(f.dictionary) && Readable(f.dictionary, m) && FromMatrix(m, s.word)
    requires i <= |f.directions|
    requires SpelledAlong(f, m, path, s.word) && (forall x :: x in s.visited <==> x in path)
    requires |path| > 0 && path[|path| - 1] == p
    requires TraverseDirs(f, m, filters, p, s, i).Ok?
    ensures forall w :: w in TraverseDirs(f, m, filters, p, s, i).value.found - s.found ==> Recordable(f, m, w)
    decreases |Cells(m) - s.visited|, 0, |f.directions| - i
  {
    if i < |f.directions| {
      var s' := s;
      match Matrix.Next(m, p, f.directions[i]) {
        case None =>
        case Some(q) =>
          if q !in s.visited {
            AcceptedPointsAreCells(m, q);
            VisitShrinks(Cells(m), s.visited, q);
            assert Step(f, m, p, q);
            TraverseRecordsAlongPaths(f, m, filters, q, s, path);
            s' := Traverse(f, m, filters, q, s).value;
          }
      }
      TraverseDirsRecordsAlongPaths(f, m, filters, p, s', i + 1, path);
    }
  }

  /** Every word the search gathers from the `index`-th cell on is
      `Recordable`. */
  lemma {:induction false} SearchFromRecordsAlongPaths(
    f: Finder, m: Matrix.Matrix, filters: BasicWordFilters, index: nat, s: State, w: string)
    requires Matrix.Valid(m) && Dictionaries.Usable(f.dictionary) && Readable(f.dictionary, m)
    requires s.word == [] && s.visited == {}
    requires SearchFrom(f, m, filters, index, s).Ok?
    requires w in SearchFrom(f, m, filters, index, s).value - s.found
    ensures Recordable(f, m, w)
    decreases m.capacity - index
  {
    if index < m.capacity {
      var s' := StartRecordsAlongPaths(f, m, filters, index, s);
      if w !in s'.found {
        SearchFromRecordsAlongPaths(f, m, filters, index + 1, s', w);
      }
    }
  }

  /** One turn of the search: the traversal from the `index`-th cell. */
  lemma StartRecordsAlongPaths(
    f: Finder, m: Matrix.Matrix, filters: BasicWordFilters, index: nat, s: State) returns (s': State)
    requires Matrix.Valid(m) && Dictionaries.Usable(f.dictionary) && Readable(f.dictionary, m)
    requires s.word == [] && s.visited == {}
    requires index < m.capacity
    requires SearchFrom(f, m, filters, index, s).Ok?
    ensures s'.word == [] && s'.visited == {}
    ensures SearchFrom(f, m, filters, index + 1, s') == SearchFrom(f, m, filters, index, s)
    ensures forall w :: w in s'.found - s.found ==> Recordable(f, m, w)
  {
    var p := Matrix.PointFromIndex(m, index).value;
    s' := Traverse(f, m, filters, p, s).value;
    assert SpelledAlong(f, m, [], []);
    TraverseRecordsAlongPaths(f, m, filters, p, s, []);
  }

  /** Every word the search returns is a dictionary word that passes the
      filters and is spelled along a simple path of the matrix, which some
      further unvisited point continues. */
  lemma SearchFindsRecordableWords(f: Finder, m: Matrix.Matrix, filters: BasicWordFilters)
    requires Matrix.Valid(m) && Dictionaries.Usable(f.dictionary) && Readable(f.dictionary, m)
    requires Search(f, m, filters).Ok?
    ensures forall w :: w in Search(f, m, filters).value ==> Accepted(f.dictionary, filters, w) && Recordable(f, m, w)
  {
    forall w | w in Search(f, m, filters).value ensures Recordable(f, m, w) {
      SearchFromRecordsAlongPaths(f, m, filters, 0, State([], {}, {}), w);
    }
  }

  // ---------------------------------------------------------------------------
  // Which recordable words are found

  /** `trail` is a simple path spelling `w` followed by the point that
      continues it: the points the traversal enters on its way to recording
      `w`. */
  ghost predicate Trail(f: Finder, m: Matrix.Matrix, trail: seq<Point>, w: string) {
    && |trail| == |w| + 1
    && (forall a :: 0 <= a < |w| ==> Matrix.GetLetter(m, trail[a]) == Ok(w[a]))
    && (forall a, b :: 0 <= a < b < |trail| ==> trail[a] != trail[b])
    && (forall a :: 0 <= a < |w| ==> Step(f, m, trail[a], trail[a + 1]))
  }

  lemma TrailOf(f: Finder, m: Matrix.Matrix, w: string) returns (trail: seq<Point>)
    requires Recordable(f, m, w)
    ensures Trail(f, m, trail, w) && Matrix.GetLetter(m, trail[0]).Ok?
  {
    var path, q :| SpelledAlong(f, m, path, w) && q !in path && Matrix.GetLetter(m, q).Ok?
      && (|path| > 0 ==> Step(f, m, path[|path| - 1], q));
    trail := path + [q];
    assert forall a :: 0 <= a < |path| ==> trail[a] == path[a];
    forall a, b | 0 <= a < b < |trail| ensures trail[a] != trail[b] {
      if b == |path| {
        assert trail[a] in path;
      }
    }
  }

  /** The points of a path, as a set. */
  ghost function Points(path: seq<Point>): (ps: set<Point>)
    ensures forall x :: x in ps <==> x in path
  {
    set x | x in path
  }

  /** A traversal entered at the `k`-th point of `w`'s trail, with the first
      `k` letters of `w` spelled along the points before it, records `w`. */
  lemma {:induction false} TraverseFinds(
    f: Finder, m: Matrix.Matrix, filters: BasicWordFilters, trail: seq<Point>, w: string, k: nat, s: State)
    requires Dictionaries.Usable(f.dictionary) && Readable(f.dictionary, m) && FromMatrix(m, s.word)
    requires Trail(f, m, trail, w) && Accepted(f.dictionary, filters, w)
    requires k <= |w| && s.word == w[..k] && s.visited == Points(trail[..k])
    requires trail[k] !in s.visited && Traverse(f, m, filters, trail[k], s).Ok?
    ensures w in Traverse(f, m, filters, trail[k], s).value.found
    decreases |w| - k, 1
  {
    var p := trail[k];
    Dictionaries.SearchHitsHavePrefixes(f.dictionary, w, k);
    var s1 := Entered(f, m, filters, p, s);
    if k == |w| {
      assert s.word == w;
    } else {
      assert s1.word == w[..k + 1] by {
        assert Matrix.GetLetter(m, p) == Ok(w[k]);
      }
      VisitAlongTrail(trail, k);
      var j := NextOnTrail(f, m, trail, w, k);
      var sj := DirsReach(f, m, filters, p, s1, 0, j);
      ChosenDirectionFinds(f, m, filters, trail, w, k + 1, sj, j);
    }
  }

  /** The points before the `k`-th point of the trail do not include it. */
  lemma TrailPointIsNew(f: Finder, m: Matrix.Matrix, trail: seq<Point>, w: string, k: nat)
    requires Trail(f, m, trail, w) && k < |trail|
    ensures trail[k] !in Points(trail[..k])
  {
    assert forall a :: 0 <= a < k ==> trail[..k][a] == trail[a] != trail[k];
  }

  /** Marking the `k`-th point of the trail visited. */
  lemma VisitAlongTrail(trail: seq<Point>, k: nat)
    requires k < |trail|
    ensures Points(trail[..k]) + {trail[k]} == Points(trail[..k + 1])
  {
    assert trail[..k + 1] == trail[..k] + [trail[k]];
  }

  /** The direction that leads from the `k`-th point of the trail to the
      next. */
  lemma NextOnTrail(f: Finder, m: Matrix.Matrix, trail: seq<Point>, w: string, k: nat) returns (j: nat)
    requires Trail(f, m, trail, w) && k < |w|
    ensures j < |f.directions| && Matrix.Next(m, trail[k], f.directions[j]) == Some(trail[k + 1])
  {
    assert Step(f, m, trail[k], trail[k + 1]);
    var d :| d in f.directions && Matrix.Next(m, trail[k], d) == Some(trail[k + 1]);
    j :| 0 <= j < |f.directions| && f.directions[j] == d;
  }

  /** The direction loop from direction `i` on reaches direction `j` with
      the same word and visited points, and keeps every word it has by
      then. */
  lemma {:induction false} DirsReach(f: Finder, m: Matrix.Matrix, filters: BasicWordFilters, p: Point, s: State, i: nat, j: nat)
      returns (sj: State)
    requires Dictionaries.Usable(f.dictionary) && Readable(f.dictionary, m) && FromMatrix(m, s.word)
    requires i <= j < |f.directions| && TraverseDirs(f, m, filters, p, s, i).Ok?
    ensures sj.word == s.word && sj.visited == s.visited
    ensures TraverseDirs(f, m, filters, p, sj, j).Ok?
    ensures TraverseDirs(f, m, filters, p, sj, j).value.found <= TraverseDirs(f, m, filters, p, s, i).value.found
    decreases j - i
  {
    if i == j {
      sj := s;
    } else {
      var s' := TurnOfDirs(f, m, filters, p, s, i);
      sj := DirsReach(f, m, filters, p, s', i + 1, j);
    }
  }

  /** The turn of the direction loop that leads to the next point of the
      trail records `w`. */
  lemma {:induction false} ChosenDirectionFinds(
    f: Finder, m: Matrix.Matrix, filters: BasicWordFilters, trail: seq<Point>, w: string, k: nat, s: State, j: nat)
    requires Dictionaries.Usable(f.dictionary) && Readable(f.dictionary, m) && FromMatrix(m, s.word)
    requires Trail(f, m, trail, w) && Accepted(f.dictionary, filters, w)
    requires 0 < k <= |w| && s.word == w[..k] && s.visited == Points(trail[..k])
    requires j < |f.directions| && Matrix.Next(m, trail[k - 1], f.directions[j]) == Some(trail[k])
    requires TraverseDirs(f, m, filters, trail[k - 1], s, j).Ok?
    ensures w in TraverseDirs(f, m, filters, trail[k - 1], s, j).value.found
    decreases |w| - k + 1, 0
  {
    TrailPointIsNew(f, m, trail, w, k);
    var s' := TurnOfDirs(f, m, filters, trail[k - 1], s, j);
    TraverseFinds(f, m, filters, trail, w, k, s);
  }

  /** One turn of the direction loop: the state the next turn starts from. */
  lemma TurnOfDirs(f: Finder, m: Matrix.Matrix, filters: BasicWordFilters, p: Point, s: State, i: nat)
      returns (s': State)
    requires Dictionaries.Usable(f.dictionary) && Readable(f.dictionary, m) && FromMatrix(m, s.word)
    requires i < |f.directions| && TraverseDirs(f, m, filters, p, s, i).Ok?
    ensures s'.word == s.word && s'.visited == s.visited
    ensures TraverseDirs(f, m, filters, p, s, i) == TraverseDirs(f, m, filters, p, s', i + 1)
    ensures Matrix.Next(m, p, f.directions[i]).Some? && Matrix.Next(m, p, f.directions[i]).value !in s.visited ==>
      Traverse(f, m, filters, Matrix.Next(m, p, f.directions[i]).value, s) == Ok(s')
  {
    s' := s;
    match Matrix.Next(m, p, f.directions[i]) {
      case None =>
      case Some(q) =>
        if q !in s.visited {
          AcceptedPointsAreCells(m, q);
          VisitShrinks(Cells(m), s.visited, q);
          s' := Traverse(f, m, filters, q, s).value;
        }
    }
  }

  /** The outer loop of `search`, from index `index` on, finds `w` when the
      trail of `w` starts at the point of index `start`. */
  lemma SearchFromFinds(
    f: Finder, m: Matrix.Matrix, filters: BasicWordFilters, index: nat, s: State, start: nat, trail: seq<Point>, w: string)
    requires Matrix.Valid(m) && Dictionaries.Usable(f.dictionary) && Readable(f.dictionary, m)
    requires s.word == [] && s.visited == {}
    requires Trail(f, m, trail, w) && Accepted(f.dictionary, filters, w)
    requires index <= start < m.capacity && Matrix.PointFromIndex(m, start) == Ok(trail[0])
    requires SearchFrom(f, m, filters, index, s).Ok?
    ensures w in SearchFrom(f, m, filters, index, s).value
  {
    var ss := SearchReach(f, m, filters, index, s, start);
    var s' := TurnOfSearch(f, m, filters, start, ss);
    assert trail[..0] == [];
    TraverseFinds(f, m, filters, trail, w, 0, ss);
  }

  /** The outer loop from index `index` on reaches index `start` and ends
      with what the loop from `start` on ends with. */
  lemma {:induction false} SearchReach(f: Finder, m: Matrix.Matrix, filters: BasicWordFilters, index: nat, s: State, start: nat)
      returns (ss: State)
    requires Matrix.Valid(m) && Dictionaries.Usable(f.dictionary) && Readable(f.dictionary, m)
    requires s.word == [] && s.visited == {}
    requires index <= start && SearchFrom(f, m, filters, index, s).Ok?
    ensures ss.word == [] && ss.visited == {}
    ensures SearchFrom(f, m, filters, start, ss) == SearchFrom(f, m, filters, index, s)
    decreases start - index
  {
    if index == start {
      ss := s;
    } else if index < m.capacity {
      var s' := TurnOfSearch(f, m, filters, index, s);
      ss := SearchReach(f, m, filters, index + 1, s', start);
    } else {
      ss := s;
    }
  }

  /** One turn of the outer loop: the state the next turn starts from. */
  lemma TurnOfSearch(f: Finder, m: Matrix.Matrix, filters: BasicWordFilters, index: nat, s: State) returns (s': State)
    requires Matrix.Valid(m) && Dictionaries.Usable(f.dictionary) && Readable(f.dictionary, m)
    requires s.word == [] && s.visited == {}
    requires index < m.capacity && SearchFrom(f, m, filters, index, s).Ok?
    ensures s'.word == [] && s'.visited == {}
    ensures Traverse(f, m, filters, Matrix.PointFromIndex(m, index).value, s) == Ok(s')
    ensures SearchFrom(f, m, filters, index, s) == SearchFrom(f, m, filters, index + 1, s')
  {
    s' := Traverse(f, m, filters, Matrix.PointFromIndex(m, index).value, s).value;
  }

  /** On a square matrix the outer loop returns exactly the accepted
      `Recordable` words: every word it records lies along a trail, and every
      trail starts at a point the loop reaches, from which the traversal
      follows it to its end because every prefix of a dictionary word passes
      `starts_with`. */
  lemma SearchFromFindsExactly(f: Finder, m: Matrix.Matrix, filters: BasicWordFilters)
    requires Matrix.Valid(m) && m.width == m.height && Dictionaries.Usable(f.dictionary) && Readable(f.dictionary, m)
    requires SearchFrom(f, m, filters, 0, State([], {}, {})).Ok?
    ensures forall w :: w in SearchFrom(f, m, filters, 0, State([], {}, {})).value <==>
      Accepted(f.dictionary, filters, w) && Recordable(f, m, w)
  {
    var s := State([], {}, {});
    forall w ensures w in SearchFrom(f, m, filters, 0, s).value <==> Accepted(f.dictionary, filters, w) && Recordable(f, m, w) {
      if w in SearchFrom(f, m, filters, 0, s).value {
        SearchFromRecordsAlongPaths(f, m, filters, 0, s, w);
      } else if Accepted(f.dictionary, filters, w) && Recordable(f, m, w) {
        var trail := TrailOf(f, m, w);
        var p := trail[0];
        Matrix.SquareAcceptsExactlyInBounds(m, p);
        Matrix.IndexOfPoint(m, p.0, p.1);
        SearchFromFinds(f, m, filters, 0, s, Matrix.CellIndex(m.width, p.0, p.1), trail, w);
      }
    }
  }

  /** On a matrix of one cell no non-empty word can be recorded: its path
      would use the only cell, leaving no further point to step to. */
  lemma SingleCellRecordsOnlyEmptyWord(f: Finder, m: Matrix.Matrix, w: string)
    requires m.width == 1 && m.height == 1 && Recordable(f, m, w)
    ensures w == []
  {
    var path, q :| SpelledAlong(f, m, path, w) && q !in path && (|path| > 0 ==> Step(f, m, path[|path| - 1], q));
    forall k | 0 <= k < |path| ensures !Step(f, m, path[k], q) {
      NoStepFromOnlyCell(f, m, path[k], q);
    }
  }

  /** In a 1x1 matrix no direction leads from the one cell to a cell. */
  lemma NoStepFromOnlyCell(f: Finder, m: Matrix.Matrix, p: Point, q: Point)
    requires m.width == 1 && m.height == 1 && Matrix.GetLetter(m, p).Ok?
    ensures !Step(f, m, p, q)
  {
    forall d | d in f.directions ensures Matrix.Next(m, p, d) != Some(q) {
      StepsAreDistinctNeighbours(d, d);
    }
  }

  /** On a 1x1 matrix exactly the empty word is recordable. */
  lemma SingleCellRecordsExactlyEmptyWord(f: Finder, m: Matrix.Matrix)
    requires Matrix.Valid(m) && m.width == 1 && m.height == 1
    ensures forall w :: Recordable(f, m, w) <==> w == []
  {
    forall w | Recordable(f, m, w) ensures w == [] {
      SingleCellRecordsOnlyEmptyWord(f, m, w);
    }
    Matrix.SquareIndexRoundTrip(m, 0);
    var q := Matrix.PointFromIndex(m, 0).value;
    assert SpelledAlong(f, m, [], []) && q !in [] && Matrix.GetLetter(m, q).Ok?;
  }

  /** A square matrix on which only the empty word is recordable yields the
      empty word when it is accepted, and nothing otherwise. */
  lemma OnlyEmptyRecordableFindsOnlyEmptyWord(f: Finder, m: Matrix.Matrix, filters: BasicWordFilters)
    requires Matrix.Valid(m) && m.width == m.height
    requires Dictionaries.Usable(f.dictionary) && Readable(f.dictionary, m) && Dependable(f.dictionary, m)
    requires forall w :: Recordable(f, m, w) <==> w == []
    ensures Search(f, m, filters) == if Accepted(f.dictionary, filters, []) then Ok({[]}) else Ok({})
  {
    var r := Search(f, m, filters);
    if Accepted(f.dictionary, filters, []) {
      assert r.value == {[]};
    } else {
      assert r.value == {};
    }
  }

  /** A 1x1 matrix yields the empty word when the dictionary and the
      filters accept it, and nothing otherwise: every step leaves the
      matrix, so only the empty word is recordable, and it is recorded on
      entry into the one cell. */
  lemma SingleCellFindsOnlyEmptyWord(f: Finder, m: Matrix.Matrix, filters: BasicWordFilters)
    requires Matrix.Valid(m) && m.width == 1 && m.height == 1
    requires Dictionaries.Usable(f.dictionary) && Readable(f.dictionary, m) && Dependable(f.dictionary, m)
    ensures Search(f, m, filters) == if Accepted(f.dictionary, filters, []) then Ok({[]}) else Ok({})
  {
    SingleCellRecordsExactlyEmptyWord(f, m);
    OnlyEmptyRecordableFindsOnlyEmptyWord(f, m, filters);
  }

  /** A 1x1 matrix yields nothing from a set dictionary without the empty
      word. */
  lemma SingleCellFindsNothing(f: Finder, m: Matrix.Matrix, filters: BasicWordFilters)
    requires Matrix.Valid(m) && m.width == 1 && m.height == 1
    requires f.dictionary.WordSet? && [] !in f.dictionary.words
    ensures Search(f, m, filters) == Ok({})
  {
    Dictionaries.SearchIsMembership(f.dictionary, []);
    SingleCellFindsOnlyEmptyWord(f, m, filters);
  }

  /** A traversal whose word is a dictionary prefix reads the letter of the
      point it enters, and panics when that point has none. */
  lemma TraverseFailsWithoutLetter(f: Finder, m: Matrix.Matrix, filters: BasicWordFilters, p: Point, s: State)
    requires Dictionaries.Usable(f.dictionary) && Readable(f.dictionary, m) && FromMatrix(m, s.word)
    requires p !in s.visited
    requires (MatrixWordsAreAdmitted(f.dictionary, m, s.word); Dictionaries.StartsWith(f.dictionary, s.word) == Ok(true))
    requires Matrix.GetLetter(m, p).Err?
    ensures Traverse(f, m, filters, p, s).Err?
  {
  }

  /** The outer loop of `search` panics once it reaches an index whose point
      has no letter, unless an earlier traversal has already panicked. */
  lemma {:induction false} SearchFromFails(f: Finder, m: Matrix.Matrix, filters: BasicWordFilters, index: nat, bad: nat, s: State)
    requires Matrix.Valid(m) && Dictionaries.Usable(f.dictionary) && Readable(f.dictionary, m)
    requires s.word == [] && s.visited == {}
    requires Dictionaries.StartsWith(f.dictionary, []) == Ok(true)
    requires index <= bad < m.capacity
    requires Matrix.GetLetter(m, Matrix.PointFromIndex(m, bad).value).Err?
    ensures SearchFrom(f, m, filters, index, s).Err?
    decreases bad - index
  {
    var p := Matrix.PointFromIndex(m, index).value;
    if index == bad {
      TraverseFailsWithoutLetter(f, m, filters, p, s);
    } else {
      var t := Traverse(f, m, filters, p, s);
      if t.Ok? {
        SearchFromFails(f, m, filters, index + 1, bad, t.value);
      }
    }
  }

  /** The search panics on every non-square matrix of a dictionary whose
      `starts_with("")` holds: the swapped bounds check leaves some stored
      index without a readable letter, and the empty word is always a
      prefix when the outer loop reaches it. */
  lemma NonSquareSearchFails(f: Finder, m: Matrix.Matrix, filters: BasicWordFilters)
    requires Matrix.Valid(m) && m.width != m.height && m.width > 0 && m.height > 0
    requires Dictionaries.Usable(f.dictionary) && Readable(f.dictionary, m)
    requires Dictionaries.StartsWith(f.dictionary, []) == Ok(true)
    ensures Search(f, m, filters).Err?
  {
    Matrix.NonSquareIndexWithoutLetter(m);
    var bad: nat :| bad < m.capacity && Matrix.PointFromIndex(m, bad).Ok? && Matrix.GetLetter(m, Matrix.PointFromIndex(m, bad).value).Err?;
    SearchFromFails(f, m, filters, 0, bad, State([], {}, {}));
  }

  /** On the 1 by 1 matrix "a" with the dictionary {"a"}, the search returns
      nothing: the single letter is never recorded. */
  lemma SingleLetterIsNotFound(rows: seq<seq<char>>, words: set<string>, diagonal: bool)
    requires rows == ["a"] && words == {"a"}
    ensures Matrix.New(rows).Ok?
    ensures Search(New(Dictionaries.WordSet(words), diagonal), Matrix.New(rows).value, Default) == Ok({})
  {
    assert forall k :: 0 <= k < |rows| ==> |rows[k]| == 1;
    SingleCellFindsNothing(New(Dictionaries.WordSet(words), diagonal), Matrix.New(rows).value, Default);
  }
}
