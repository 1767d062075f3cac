# word-finder, modelled in Dafny

A model of the core of the Rust crate `word-finder`: a word search library
that prunes its searches with a dictionary's prefix test. The model covers
both generations of the code.

- **Dictionaries.** The 26-slot trie of `src/trie.rs` has `insert`,
  `search`, `starts_with` and the `search_for_chars!` walk. It is related to
  an abstraction, the set of lower-case words it stores (`Trie.Words`).
  The `HashSet<String>` dictionary is in `src/dictionaries/sets.rs`. Both sit
  behind one `Dictionaries.Dictionary` value, whose `Search`/`StartsWith`
  dispatch on the kind.
- **Letter grids.** The `usize` matrix of `src/word_finder/matrix.rs` has
  row-major storage, the index-to-point map and the eight-direction `next`
  step. The older `u8` grid of `src/grid.rs` is proved equal to it
  operation by operation.
- **Word filters.** `BasicWordFilters` (`src/word_finder/mod.rs`): a word
  passes when it starts with, ends with and contains three given strings.
- **Grid word finders.** The depth-first, backtracking search of
  `src/word_finder/matrix_word_finder.rs`. It keeps a per-path visited set,
  cuts every branch whose word is not a dictionary prefix, and collects the
  recorded words in a set. On a square matrix a successful search returns
  exactly the accepted words that are `Recordable`, defined below. The older, filterless `src/word_finder.rs` over a
  trie and a `u8` grid is proved to compute exactly what the newer finder
  computes with the default filters.
- **Anagram finders.** The prefix/suffix search of
  `src/word_finder/anagram_word_finder.rs`. The older
  `src/word_unscrambler.rs` is proved equal to it over a trie.

Every Rust panic is an `Err(Fault)` of `Outcomes.Result`: an `unwrap` of
`None`, "Rows are of different sizes", "Index out of bounds", or a
non-alphabetic character reaching the trie. A panic inside a search
therefore makes the whole search an `Err`. The traversals are pure
functions: `traverse` takes a `State` and returns the state it leaves
behind. The loops over directions and over suffix positions are recursive
functions with explicit lexicographic variants. The direction loop
decreases the number of unvisited cells first and the number of directions
still to try second. The suffix loop decreases the length of the suffix
first and the number of suffix positions still to try second.

The model reproduces three behaviours of the code as written:
- `get_element` (and `get_cell`) compares the row with the width and the
  column with the height. On a non-square matrix some in-bounds points are
  rejected and some points past the row's end are read (`Matrix.NonSquareRejectsInBoundsPoint`,
  `Matrix.TallMatrixReadsPastRowEnd`). As a result, the search panics on
  every non-square matrix with at least one row and one column, given a
  dictionary for which `starts_with("")` holds
  (`MatrixWordFinder.NonSquareSearchFails`). Rows of zero length hold no
  cell, so the search visits nothing there.
- `traverse` tests the current word before it appends the point's letter.
  A word is therefore recorded only on entry into one further unvisited, readable
  neighbour of its last cell (`MatrixWordFinder.Recordable`). A 1 by 1
  matrix yields at most the empty word, and that only when the dictionary
  and the filters accept it (`MatrixWordFinder.SingleCellFindsOnlyEmptyWord`).
  So the matrix "a" with the dictionary {"a"} yields nothing
  (`MatrixWordFinder.SingleLetterIsNotFound`).
- `starts_with("")` holds of every trie, but of a set dictionary only when
  the set is non-empty (`Dictionaries.EmptyPrefix`).

## Model

| member | source | states |
|---|---|---|
| Trie.EmptyNode | src/trie.rs:31-37 | a fresh node is well formed and stores no word |
| Trie.New | src/trie.rs:50-54 | a fresh trie is well formed and stores no word |
| Trie.CharToIndex | src/trie.rs:41-46 | panics exactly on a non-letter, naming it; otherwise a slot below 26 whose letter is the lower-case form of the character |
| Trie.Walk | src/trie.rs:1-11 | a panic names a non-letter of the walked string; a node the walk reaches is well formed |
| Trie.Search | src/trie.rs:68-72 | panics exactly when `starts_with` panics, and a successful search implies `starts_with` of the same word |
| Trie.StartsWith | src/trie.rs:74-78 | the empty prefix always holds; a panic names a non-letter of the prefix |
| Trie.Insert | src/trie.rs:55-66 | panics exactly when the word holds a non-letter; otherwise the trie stays well formed |
| Trie.SearchIsMembership | src/trie.rs:68-72 | on a word of letters, `search` is membership of its lower-case spelling in the stored words |
| Trie.StartsWithIsPrefixMembership | src/trie.rs:74-78 | on a trie built by `new` and `insert`, `starts_with(p)` holds exactly when `p` is empty or some stored word extends its lower-case spelling |
| Trie.InsertAddsWord | src/trie.rs:55-66 | inserting a word of letters adds exactly its lower-case spelling to the stored words and keeps every branch live |
| Trie.NewTrieQueries | src/trie.rs:31-78 | on a fresh trie `starts_with("")` holds; `search` is false of every word, including the empty one, unless its first character is a non-letter, which panics |
| Trie.WalkFoundMeansLetters | src/trie.rs:1-11 | a walk that reaches a node has passed only letters |
| Trie.WalkIgnoresCase | src/trie.rs:1-46 | a string and its lower-case spelling walk to the same node, or panic alike |
| Trie.QueriesIgnoreCase | src/trie.rs:41-78 | `search` and `starts_with` cannot tell a string from its lower-case spelling |
| Trie.InsertKeepsPaths | src/trie.rs:55-66 | `insert` only creates nodes and sets flags: an existing path survives, and an end-of-word flag stays set |
| Trie.InsertIsMonotone | src/trie.rs:55-66 | what `search` or `starts_with` accepted before an insert it still accepts after it |
| Trie.InsertThenQuery | src/trie.rs:55-78 | after `insert(w)`, `search(w)` holds and `starts_with` holds of every prefix of `w` |
| Trie.WalkPanicsAtNonLetter | src/trie.rs:1-44 | the walk panics exactly when some non-letter of the string follows a prefix of letters whose path exists |
| Trie.Build | src/trie_builder.rs:32-36 | folding `insert` over lines panics exactly when some line holds a non-letter |
| Trie.BuildStoresLines | src/trie_builder.rs:32-36 | building adds exactly the lower-case spellings of the lines to the stored words |
| Trie.BuildThenQuery | src/trie.rs:55-78 | in a trie built from lines of letters, `search(w)` is membership of `w`'s lower-case spelling among the lines' spellings, and `starts_with(w)` never panics |
| Trie.BuildLowerWordsThenQuery | src/trie.rs:55-78 | for lower-case words, `search(q)` is membership of `q` in the inserted list |
| Trie.ScenarioSearchFinds | src/trie.rs:85-98 | after inserting the test's five words, `search` holds of "apple", "app", "banana" and "ball" |
| Trie.ScenarioSearchMisses | src/trie.rs:96-97 | strict prefixes that were never inserted ("ban", "b") are not found |
| Trie.ScenarioPrefixFinds | src/trie.rs:99-101 | `starts_with` holds of "b", "ba" and "ball" |
| Trie.ScenarioPrefixMisses | src/trie.rs:102-103 | `starts_with` is false of "ballistic" and "cackle" |
| Dictionaries.Search | src/dictionaries/sets.rs:5-7 | a query that cannot panic succeeds; `search` panics exactly when `starts_with` does; a hit implies `starts_with` |
| Dictionaries.StartsWith | src/dictionaries/sets.rs:9-11 | a query that cannot panic succeeds; only a trie panics, naming a non-letter of the prefix |
| Dictionaries.SearchIsMembership | src/dictionaries/sets.rs:5-7 | `search` is membership of the looked-up spelling: the word itself for a set, its lower-case spelling for a trie |
| Dictionaries.StartsWithIsPrefixMembership | src/dictionaries/sets.rs:9-11 | `starts_with(p)` holds exactly when some member extends the looked-up spelling of `p`; the trie also accepts the empty prefix |
| Dictionaries.EmptyPrefix | src/dictionaries/sets.rs:9-11 | `starts_with("")` holds of every trie, and of a set exactly when the set is non-empty |
| Dictionaries.PrefixHitsAreReliable | src/trie.rs:74-78 | a successful `starts_with` means the query cannot panic: on a trie it holds only letters |
| Dictionaries.PrefixClosed | src/dictionaries/sets.rs:9-11 | `starts_with` holds of every prefix of a string it holds of |
| Dictionaries.SearchHitsHavePrefixes | src/dictionaries/sets.rs:5-11 | `starts_with` holds of every prefix of a word `search` finds |
| Matrix.New | src/word_finder/matrix.rs:29-50 | succeeds exactly on a non-empty list of rows of equal length; an empty outer slice panics on the `unwrap`; rows of unequal length panic with "Rows are of different sizes"; otherwise the cells are stored row-major with width that of the first row and capacity width times height |
| Matrix.GetElement | src/word_finder/matrix.rs:59-66 | a returned element is a stored letter, and its point has row below the width and column below the height |
| Matrix.GetLetter | src/word_finder/matrix.rs:51-53 | panics exactly when `get_element` gives `None`, and otherwise returns its letter |
| Matrix.PointFromIndex | src/word_finder/matrix.rs:68-74 | panics exactly on an index at or past the capacity; otherwise returns the in-bounds point whose row-major index is the input |
| Matrix.ValidatePoint | src/word_finder/matrix.rs:76-82 | an accepted point has row below the width and column below the height |
| Matrix.CheckedDecrement | src/word_finder/matrix.rs:86-92 | `checked_sub(1)`: defined exactly above zero, one less |
| Matrix.Next | src/word_finder/matrix.rs:84-101 | a returned point is the input moved by exactly the direction's step and accepted by `validate_point`; `None` exactly when the step goes below zero or the target is rejected |
| Matrix.AcceptedPointsReadTheirIndex | src/word_finder/matrix.rs:59-82 | every accepted point lies on a stored row and reads the letter at its row-major index |
| Matrix.SquareAcceptsExactlyInBounds | src/word_finder/matrix.rs:59-82 | on a square matrix a point is accepted exactly when it is in bounds |
| Matrix.SquareNextStaysInBounds | src/word_finder/matrix.rs:84-101 | on a square matrix `next` moves to the in-bounds neighbour in the direction, or gives `None` when there is none |
| Matrix.NonSquareRejectsInBoundsPoint | src/word_finder/matrix.rs:60 | on a non-square matrix some in-bounds point is rejected |
| Matrix.TallMatrixReadsPastRowEnd | src/word_finder/matrix.rs:60-62 | with more rows than columns, the point just past the first row's end is accepted and reads the next row's first letter |
| Matrix.SquareIndexRoundTrip | src/word_finder/matrix.rs:51-74 | on a square matrix every stored index maps to a point that reads the letter stored at that index |
| Matrix.IndexOfPoint | src/word_finder/matrix.rs:68-74 | the row-major index of an in-bounds point maps back to that point |
| Matrix.NonSquareIndexWithoutLetter | src/word_finder/matrix.rs:51-74 | on a non-square matrix some stored index maps to a point whose letter cannot be read |
| Matrix.NewMatrixStoresRowByRow | src/word_finder/matrix.rs:110-117 | the cells of the test's 3 by 3 matrix are stored row by row |
| Matrix.NewRejectsUnevenRows | src/word_finder/matrix.rs:119-123 | rows of lengths 2, 3, 3 are rejected with "Rows are of different sizes" |
| Matrix.AlphabetMatrixElements | src/word_finder/matrix.rs:125-131 | `get_element` reads 'a' at (0, 0) and 'i' at (2, 2) |
| Matrix.AlphabetMatrixSteps | src/word_finder/matrix.rs:133-141 | the four steps of the `next` test, including `None` off the right edge |
| Matrix.AlphabetMatrixPoints | src/word_finder/matrix.rs:143-151 | indices 5, 7, 0, 8 map to (1, 2), (2, 1), (0, 0), (2, 2) |
| Directions.DirectionSet | src/word_finder/matrix_word_finder.rs:31-37 | with `diagonal` the set holds all eight directions, without it exactly the four orthogonal ones, each once |
| Directions.DirectionSetsAreComplete | src/word_finder/matrix_word_finder.rs:31-37 | the diagonal list names each of the eight directions once; the orthogonal list names exactly the four orthogonal ones once |
| Directions.StepsAreDistinctNeighbours | src/word_finder/matrix.rs:84-94 | every direction moves to one of the eight neighbours, and no two directions make the same move |
| Grid.New | src/grid.rs:29-52 | the `u8` grid is built exactly when the matrix is, with the same fault, and holds the same cells and sizes |
| Grid.GetCell | src/grid.rs:61-68 | the same bounds check and read as the matrix's `get_element`, row against width included |
| Grid.GetLetter | src/grid.rs:53-55 | the matrix's `get_letter` |
| Grid.PointFromIndex | src/grid.rs:70-76 | the matrix's row-major point, and the same panic at or past the capacity |
| Grid.ValidatePoint | src/grid.rs:78-84 | the matrix's `validate_point` |
| Grid.Next | src/grid.rs:86-103 | the matrix's `next`, `checked_sub` at row or column zero included |
| Grid.CheckedDecrement | src/grid.rs:88-94 | the `u8` `checked_sub(1)` of `next` is the matrix's `usize` one: defined exactly above zero, one less |
| Grid.SquareGridsFit | src/grid.rs:61-64 | on a square grid every index the bounds check lets through fits in a `u8` |
| Grid.NewGridStoresRowByRow | src/grid.rs:110-122 | the cells of the test's 3 by 3 grid are stored row by row |
| Grid.NewGridRejectsUnevenRows | src/grid.rs:124-132 | rows of lengths 2, 3, 3 are rejected with "Rows are of different sizes" |
| Grid.AlphabetGridCells | src/grid.rs:134-144 | `get_cell` reads 'a' at (0, 0) and 'i' at (2, 2) |
| Grid.AlphabetGridSteps | src/grid.rs:146-154 | the four steps of the `next` test |
| Grid.AlphabetGridPoints | src/grid.rs:156-164 | indices 5, 7, 0, 8 map to (1, 2), (2, 1), (0, 0), (2, 2) |
| Filters.Contains | src/word_finder/mod.rs:36 | `str::contains`: the string occurs at some position of the word |
| Filters.EndsWith | src/word_finder/mod.rs:35 | `str::ends_with`: holds exactly when the word is some string followed by the ending |
| Filters.PassesFilters | src/word_finder/mod.rs:32-38 | a word that passes is at least as long as each of the three strings |
| Filters.PassesMeansSplits | src/word_finder/mod.rs:32-38 | a word passes exactly when it is the start string followed by something, something followed by the end string, and something, the contained string, something |
| Filters.DefaultAcceptsAll | src/word_finder/mod.rs:15-37 | the default filters accept every word |
| Filters.ApplicationFilter | src/word_finder/mod.rs:53-61 | filters ("app", "ion", "cat") accept "application" and reject "apple", "caution" and "bobcat" |
| Filters.Record | src/word_finder/matrix_word_finder.rs:53-56 | the recording test holds exactly of dictionary words that pass the filters, and panics only when `search` does |
| MatrixWordFinder.New | src/word_finder/matrix_word_finder.rs:30-43 | all eight directions with `diagonal`, exactly the four orthogonal ones without, each once |
| MatrixWordFinder.Traverse | src/word_finder/matrix_word_finder.rs:45-74 | on return the word and the visited set are as they were; found words only grow, and every new one is a dictionary word that passes the filters; a word that is not a dictionary prefix changes nothing; with a dictionary that cannot panic, entering a readable point cannot panic |
| MatrixWordFinder.TraverseDirs | src/word_finder/matrix_word_finder.rs:62-69 | the direction loop restores the word and visited set, adds only accepted words, and cannot panic with a dictionary that cannot panic |
| MatrixWordFinder.SearchFrom | src/word_finder/matrix_word_finder.rs:81-84 | the loop over start cells only adds to the found words, and every new one is a dictionary word that passes the filters; on a square matrix with a dictionary that cannot panic it succeeds |
| MatrixWordFinder.Search | src/word_finder/matrix_word_finder.rs:78-86 | every word found is a dictionary word that passes the filters; on a square matrix with a dictionary that cannot panic the search succeeds; on a square matrix a successful search returns exactly the accepted words that are `Recordable` |
| MatrixWordFinder.SearchFromFindsExactly | src/word_finder/matrix_word_finder.rs:52-86 | the loop over start cells of a square matrix, when it succeeds, collects a word exactly when the dictionary and filters accept it and it is `Recordable` |
| MatrixWordFinder.TraverseFinds | src/word_finder/matrix_word_finder.rs:52-68 | a traversal entered at a cell of a simple path that spells an accepted word, with a prefix of that word already built along the path, records the word |
| MatrixWordFinder.SearchFindsRecordableWords | src/word_finder/matrix_word_finder.rs:52-86 | every word found is spelled along a simple path of cells, each a step in the finder's directions from the one before, which one more unvisited cell, whose letter can be read, continues |
| MatrixWordFinder.TraverseRecordsAlongPaths | src/word_finder/matrix_word_finder.rs:52-68 | a traversal entered along a simple path records only words spelled along an extension of that path |
| MatrixWordFinder.SingleCellRecordsExactlyEmptyWord | src/word_finder/matrix_word_finder.rs:52-68 | on a 1 by 1 matrix the empty word is the only `Recordable` word, because a word is recorded one step late |
| MatrixWordFinder.OnlyEmptyRecordableFindsOnlyEmptyWord | src/word_finder/matrix_word_finder.rs:52-86 | on a square matrix whose only `Recordable` word is the empty one, the search returns the empty word when the dictionary and filters accept it, and nothing otherwise |
| MatrixWordFinder.SingleCellFindsOnlyEmptyWord | src/word_finder/matrix_word_finder.rs:52-86 | a 1 by 1 matrix yields the empty word when the dictionary and filters accept it, and nothing otherwise |
| MatrixWordFinder.SingleCellFindsNothing | src/word_finder/matrix_word_finder.rs:52-86 | a 1 by 1 matrix yields no word from a set dictionary without the empty word |
| MatrixWordFinder.SingleLetterIsNotFound | src/word_finder/matrix_word_finder.rs:52-86 | on the matrix "a" with the dictionary {"a"} the search returns nothing |
| MatrixWordFinder.TraverseFailsWithoutLetter | src/word_finder/matrix_word_finder.rs:52-60 | a traversal whose word is a dictionary prefix panics on a point whose letter cannot be read |
| MatrixWordFinder.NonSquareSearchFails | src/word_finder/matrix_word_finder.rs:78-86 | on every non-square matrix of positive width and height the search panics when `starts_with("")` holds |
| GridWordFinder.New | src/word_finder.rs:33-46 | the older finder keeps the trie and takes the same direction set as the newer finder's `new` |
| GridWordFinder.Traverse | src/word_finder.rs:48-69 | on return the word and the visited set are as they were; found words only grow, each new one a word the trie's `search` accepts; a word that is not a trie prefix changes nothing |
| GridWordFinder.TraverseDirs | src/word_finder.rs:57-64 | the older direction loop restores the word and the visited set, and only adds words the trie's `search` accepts |
| GridWordFinder.SearchFrom | src/word_finder.rs:76-79 | the older loop over start cells only adds to the found words, each new one a word the trie's `search` accepts |
| GridWordFinder.Search | src/word_finder.rs:73-81 | every word found is one the trie's `search` accepts; on a square grid a successful search returns exactly the trie's words that are `Recordable` on the grid read as a matrix |
| GridWordFinder.SearchFromFindsExactly | src/word_finder.rs:48-81 | on a square grid the older finder's loop, when it succeeds, collects exactly the trie's words that are `Recordable` on the grid read as a matrix |
| GridWordFinder.TraverseAgrees | src/word_finder.rs:48-69 | the older traversal is the newer one with the default filters, on the same grid read as a matrix |
| GridWordFinder.SearchAgrees | src/word_finder.rs:73-81 | the older search returns exactly what the newer one returns with the default filters, or panics exactly when it does |
| GridWordFinder.FoundWordsAreRecordable | src/word_finder.rs:49-64 | every word the older finder reports is spelled along a simple path of the grid under its directions |
| GridWordFinder.SquareLetterGridSucceeds | src/word_finder.rs:73-81 | a square grid of letters is searched without a panic |
| AnagramWordFinder.Remove | src/word_finder/anagram_word_finder.rs:27 | the suffix without its `i`-th letter: one shorter, the other letters in order, the multiset less that letter |
| AnagramWordFinder.FindPermutations | src/word_finder/anagram_word_finder.rs:15-37 | words only grow; every new word passes the filters, is a dictionary word and is the prefix plus at least one letter drawn from the suffix; an empty suffix returns at once |
| AnagramWordFinder.TryEach | src/word_finder/anagram_word_finder.rs:25-35 | the loop over suffix positions only adds words; each new one is a dictionary word that passes the filters and is the prefix plus letters drawn from the suffix; with a prefix and suffix the dictionary cannot panic on, it succeeds |
| AnagramWordFinder.Search | src/word_finder/anagram_word_finder.rs:40-45 | every word found is a non-empty dictionary word that passes the filters and uses a sub-multiset of the input's letters; the empty input yields nothing |
| AnagramWordFinder.FindComplete | src/word_finder/anagram_word_finder.rs:25-35 | every accepted word built from the prefix with letters of the suffix is found |
| AnagramWordFinder.SearchFindsExactly | src/word_finder/anagram_word_finder.rs:25-45 | a word is found exactly when it is a non-empty dictionary word that passes the filters and whose letters are a sub-multiset of the input's |
| AnagramWordFinder.ElectrificationWords | src/word_finder/anagram_word_finder.rs:55-88 | over the test's eight-word set with the default filters, "electrification" yields exactly "traction", "cat", "fear", "electric" and "craft": five words, "fear" and "traction" among them, "electricity" not |
| AnagramWordFinder.AnagramsOfElectrification | src/word_finder/anagram_word_finder.rs:55-88 | the same five words come from every string with the letters of "electrification", in any order |
| WordUnscrambler.TryEach | src/word_unscrambler.rs:38-48 | the older loop over suffix positions only adds words |
| WordUnscrambler.FindPermutations | src/word_unscrambler.rs:28-50 | words only grow |
| WordUnscrambler.Unscramble | src/word_unscrambler.rs:53-58 | the result is exactly the non-empty trie words that pass the filters and use a sub-multiset of the input's letters; an input of letters cannot panic; the empty input yields nothing |
| WordUnscrambler.FindAgrees | src/word_unscrambler.rs:28-50 | the older recursion is the newer one over the same trie |
| WordUnscrambler.SearchAgrees | src/word_unscrambler.rs:53-58 | `unscramble` is the anagram finder's `search` over the same trie |
| WordUnscrambler.UnscrambleFindsExactly | src/word_unscrambler.rs:38-46 | exactness of the anagram finder, read for a trie |

## Left out

- Reading the word list (`src/trie_builder.rs:14-31`): the path and extension checks and the file I/O. Building a dictionary is modelled as `insert` folded over a sequence of lines (`Trie.Build`).
- `WordService` in `src/lib.rs` and the command line of `src/main.rs`. These are glue, `Rc` sharing and standard input/output.
- The trait declarations of `src/dictionaries/mod.rs` and `src/dictionaries/tries/mod.rs` have no behaviour. They become the `Dictionaries.Dictionary` datatype.
- Non-ASCII text. Every trie query and both anagram finders require ASCII strings. Outside ASCII, `char_to_index` gives out-of-range slots, `to_lowercase` can change a character's length, and the anagram finders slice by byte offset.
- `usize` is unbounded in the model: the matrix's `width * height` and `+ 1` steps never overflow.
- Grid.New: requires the height and the cell count to fit in a `u8`, instead of modelling the truncating casts and the overflowing `width * height`.
- Grid.GetCell: requires that every point the bounds check lets through has a row-major index below 256. On a non-square grid, `row * width + col` can overflow even when the capacity fits.
- Grid.GetLetter: requires the same, since it reads through `get_cell`.
- Grid.ValidatePoint: requires the same, since it reads through `get_cell`.
- Grid.Next: requires both coordinates below 255, so the `+ 1` steps cannot overflow.
- GridWordFinder.Search: requires the grid to meet the `u8` conditions above and the dictionary to be a well-formed trie.
- GridWordFinder.Traverse: requires the same of the grid and the trie.
- `BasicWordFilters::new` and `AnagramWordFinder::new` only store their arguments. Their tests are constructor checks, and the constructors are the `BasicWordFilters` and dictionary values themselves. The older unscrambler's copy of `BasicWordFilters` (`src/word_unscrambler.rs:16-21, 61-77`) is the same filter as `Filters`.
- The 4 by 4 matrix test (`src/word_finder/matrix_word_finder.rs:95-130`, exactly six words) is not proved on its concrete data. Showing that no other dictionary word is `Recordable` needs an argument over every simple path of the 16 cells. What is proved instead is general: on every square matrix the grid search returns exactly the accepted `Recordable` words (`MatrixWordFinder.Search`). The "electrification" anagram test is proved as a lemma (`AnagramWordFinder.ElectrificationWords`) from the exact characterisation `AnagramWordFinder.SearchFindsExactly`.
- Tests that need the external `scrabble-dictionary.txt` word list, and the timing and printing in tests.
