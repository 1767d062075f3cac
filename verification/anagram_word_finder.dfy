/** The anagram finder of src/word_finder/anagram_word_finder.rs.

    `FindPermutations(prefix, suffix)` tries every position of `suffix` in
    turn: it moves that letter to the end of the prefix, and when the new
    prefix begins some dictionary word it records the prefix (if it passes
    the filters and is a dictionary word) and recurses on the rest of the
    suffix. A letter is removed by its position, so a repeated letter of the
    input can be used as often as it occurs.

    The source slices the suffix with a character index used as a byte
    offset, which is only right for ASCII text; the model asks for ASCII
    input. */
module AnagramWordFinder {
  import opened Outcomes
  import opened Letters
  import opened Filters
  import Dictionaries
  import AnagramLetters

  /** `suffix` without its `i`-th letter: `&suffix[0..index]` followed by
      `&suffix[index + 1..]`. */
  function Remove(s: string, i: nat): (r: string)
    requires i < |s|
    ensures |r| == |s| - 1
    ensures forall k :: 0 <= k < |r| ==> r[k] == s[if k < i then k else k + 1]
    ensures multiset(r) + multiset{s[i]} == multiset(s)
  {
    assert s == s[..i] + [s[i]] + s[i + 1..];
    s[..i] + s[i + 1..]
  }

  /** `w` is the prefix followed by at least one more letter, the added
      letters drawn from the suffix, each position at most once. */
  ghost predicate BuiltFrom(prefix: string, suffix: string, w: string) {
    && |prefix| < |w| && prefix <= w
    && multiset(w[|prefix|..]) <= multiset(suffix)
  }

  /** `find_permutations`: the words of `words` and the words found below
      `prefix` with the letters of `suffix`. */
  function FindPermutations(d: Dictionaries.Dictionary, filters: BasicWordFilters, prefix: string, suffix: string, words: set<string>): (r: Result<set<string>>)
    requires Dictionaries.Usable(d) && IsAsciiString(prefix) && IsAsciiString(suffix)
    ensures r.Ok? ==> words <= r.value
    ensures r.Ok? ==> forall w :: w in r.value - words ==> Accepted(d, filters, w) && BuiltFrom(prefix, suffix, w)
    ensures Dictionaries.Reliable(d, prefix) && Dictionaries.Reliable(d, suffix) ==> r.Ok?
    ensures suffix == [] ==> r == Ok(words)
    decreases |suffix|, 1
  {
    if |suffix| == 0 then Ok(words)
    else TryEach(d, filters, prefix, suffix, words, 0)
  }

  /** The `for (index, char) in suffix.chars().enumerate()` loop, from
      position `i` on. */
  function TryEach(d: Dictionaries.Dictionary, filters: BasicWordFilters, prefix: string, suffix: string, words: set<string>, i: nat): (r: Result<set<string>>)
    requires Dictionaries.Usable(d) && IsAsciiString(prefix) && IsAsciiString(suffix)
    requires i <= |suffix|
    ensures r.Ok? ==> words <= r.value
    ensures r.Ok? ==> forall w :: w in r.value - words ==> Accepted(d, filters, w) && BuiltFrom(prefix, suffix, w)
    ensures Dictionaries.Reliable(d, prefix) && Dictionaries.Reliable(d, suffix) ==> r.Ok?
    decreases |suffix|, 0, |suffix| - i
  {
    if i == |suffix| then Ok(words)
    else
      var next := prefix + [suffix[i]];
      var rest := Remove(suffix, i);
      var more :- Dictionaries.StartsWith(d, next);
      if !more then TryEach(d, filters, prefix, suffix, words, i + 1)
      else
        var hit := Record(d, filters, next).value;
        var found := if hit then words + {next} else words;
        var words' :- FindPermutations(d, filters, next, rest, found);
        ChoicesBuild(prefix, suffix, i, words' - words);
        TryEach(d, filters, prefix, suffix, words', i + 1)
  }

  /** A word built from `prefix` plus the `i`-th letter, with letters of the
      rest of the suffix, is built from `prefix` with letters of the suffix. */
  lemma ChoiceBuilds(prefix: string, suffix: string, i: nat, w: string)
    requires i < |suffix|
    requires w == prefix + [suffix[i]] || BuiltFrom(prefix + [suffix[i]], Remove(suffix, i), w)
    ensures BuiltFrom(prefix, suffix, w)
  {
    var next := prefix + [suffix[i]];
    assert w[|prefix|..] == [suffix[i]] + w[|next|..];
    assert multiset(w[|prefix|..]) == multiset{suffix[i]} + multiset(w[|next|..]);
  }

  lemma ChoicesBuild(prefix: string, suffix: string, i: nat, ws: set<string>)
    requires i < |suffix|
    requires forall w :: w in ws ==> w == prefix + [suffix[i]] || BuiltFrom(prefix + [suffix[i]], Remove(suffix, i), w)
    ensures forall w :: w in ws ==> BuiltFrom(prefix, suffix, w)
  {
    forall w | w in ws ensures BuiltFrom(prefix, suffix, w) {
      ChoiceBuilds(prefix, suffix, i, w);
    }
  }

  /** `WordFinder::search` for strings: the permutations of `word` below the
      empty prefix. */
  function Search(d: Dictionaries.Dictionary, word: string, filters: BasicWordFilters): (r: Result<set<string>>)
    requires Dictionaries.Usable(d) && IsAsciiString(word)
    ensures r.Ok? ==> forall w :: w in r.value ==> Accepted(d, filters, w) && w != [] && multiset(w) <= multiset(word)
    ensures Dictionaries.Reliable(d, word) ==> r.Ok?
    ensures word == [] ==> r == Ok({})
  {
    var r := FindPermutations(d, filters, [], word, {});
    if r.Ok? then
      BuiltFromNothing(word, r.value);
      r
    else r
  }

  /** Words built from the empty prefix are non-empty arrangements of some
      of the letters. */
  lemma BuiltFromNothing(word: string, ws: set<string>)
    requires forall w :: w in ws - {} ==> BuiltFrom([], word, w)
    ensures forall w :: w in ws ==> w != [] && multiset(w) <= multiset(word)
  {
    forall w | w in ws ensures w != [] && multiset(w) <= multiset(word) {
      assert w in ws - {};
      assert w[0..] == w;
    }
  }

  // ---------------------------------------------------------------------------
  // Completeness

  /** Every accepted word built from the prefix with letters of the suffix is
      found: each of its prefixes begins a dictionary word, so the search
      follows it letter by letter. */
  lemma {:induction false} FindComplete(d: Dictionaries.Dictionary, filters: BasicWordFilters, prefix: string, suffix: string, words: set<string>, w: string)
    requires Dictionaries.Usable(d) && IsAsciiString(prefix) && IsAsciiString(suffix)
    requires FindPermutations(d, filters, prefix, suffix, words).Ok?
    requires Accepted(d, filters, w) && BuiltFrom(prefix, suffix, w)
    ensures w in FindPermutations(d, filters, prefix, suffix, words).value
    decreases |suffix|, 1
  {
    var c := w[|prefix|];
    assert w[|prefix|..] == [c] + w[|prefix| + 1..];
    assert multiset(w[|prefix|..]) == multiset{c} + multiset(w[|prefix| + 1..]);
    assert c in multiset(suffix);
    var j :| 0 <= j < |suffix| && suffix[j] == c;
    Cancel(c, multiset(w[|prefix| + 1..]), multiset(Remove(suffix, j)));
    TryEachComplete(d, filters, prefix, suffix, words, 0, j, w);
  }

  lemma Cancel(c: char, x: multiset<char>, y: multiset<char>)
    requires multiset{c} + x <= multiset{c} + y
    ensures x <= y
  {
    forall e ensures x[e] <= y[e] {
      assert (multiset{c} + x)[e] <= (multiset{c} + y)[e];
    }
  }

  lemma {:induction false} TryEachComplete(d: Dictionaries.Dictionary, filters: BasicWordFilters, prefix: string, suffix: string, words: set<string>, i: nat, j: nat, w: string)
    requires Dictionaries.Usable(d) && IsAsciiString(prefix) && IsAsciiString(suffix)
    requires i <= j < |suffix|
    requires TryEach(d, filters, prefix, suffix, words, i).Ok?
    requires Accepted(d, filters, w) && prefix + [suffix[j]] <= w
    requires multiset(w[|prefix| + 1..]) <= multiset(Remove(suffix, j))
    ensures w in TryEach(d, filters, prefix, suffix, words, i).value
    decreases |suffix|, 0, |suffix| - i
  {
    if i == j {
      ChosenLetterFinds(d, filters, prefix, suffix, words, i, w);
    } else {
      var words' := Advance(d, filters, prefix, suffix, words, i);
      TryEachComplete(d, filters, prefix, suffix, words', i + 1, j, w);
    }
  }

  /** One turn of the loop: the words collected after position `i`. */
  lemma Advance(d: Dictionaries.Dictionary, filters: BasicWordFilters, prefix: string, suffix: string, words: set<string>, i: nat)
      returns (words': set<string>)
    requires Dictionaries.Usable(d) && IsAsciiString(prefix) && IsAsciiString(suffix)
    requires i < |suffix|
    requires TryEach(d, filters, prefix, suffix, words, i).Ok?
    ensures TryEach(d, filters, prefix, suffix, words, i) == TryEach(d, filters, prefix, suffix, words', i + 1)
    ensures Dictionaries.StartsWith(d, prefix + [suffix[i]]) == Ok(true) ==>
      var found := if Record(d, filters, prefix + [suffix[i]]).value then words + {prefix + [suffix[i]]} else words;
      FindPermutations(d, filters, prefix + [suffix[i]], Remove(suffix, i), found) == Ok(words')
  {
    var next := prefix + [suffix[i]];
    if Dictionaries.StartsWith(d, next).value {
      var found := if Record(d, filters, next).value then words + {next} else words;
      words' := FindPermutations(d, filters, next, Remove(suffix, i), found).value;
    } else {
      words' := words;
    }
  }

  /** The turn that picks the word's next letter finds the word. */
  lemma {:induction false} ChosenLetterFinds(d: Dictionaries.Dictionary, filters: BasicWordFilters, prefix: string, suffix: string, words: set<string>, i: nat, w: string)
    requires Dictionaries.Usable(d) && IsAsciiString(prefix) && IsAsciiString(suffix)
    requires i < |suffix|
    requires TryEach(d, filters, prefix, suffix, words, i).Ok?
    requires Accepted(d, filters, w) && prefix + [suffix[i]] <= w
    requires multiset(w[|prefix| + 1..]) <= multiset(Remove(suffix, i))
    ensures w in TryEach(d, filters, prefix, suffix, words, i).value
    decreases |suffix|, 0, 0
  {
    var next := prefix + [suffix[i]];
    var rest := Remove(suffix, i);
    Dictionaries.SearchHitsHavePrefixes(d, w, |next|);
    assert w[..|next|] == next;
    var words' := Advance(d, filters, prefix, suffix, words, i);
    var found := if Record(d, filters, next).value then words + {next} else words;
    if w == next {
      assert w in found;
    } else {
      assert w[|next|..] == w[|prefix| + 1..];
      FindComplete(d, filters, next, rest, found, w);
    }
    assert w in words';
  }

  /** The search returns exactly the accepted non-empty words whose letters
      are a sub-multiset of the input's. */
  lemma SearchFindsExactly(d: Dictionaries.Dictionary, word: string, filters: BasicWordFilters, w: string)
    requires Dictionaries.Usable(d) && IsAsciiString(word) && Search(d, word, filters).Ok?
    ensures w in Search(d, word, filters).value <==> Accepted(d, filters, w) && w != [] && multiset(w) <= multiset(word)
  {
    if Accepted(d, filters, w) && w != [] && multiset(w) <= multiset(word) {
      assert w[0..] == w;
      FindComplete(d, filters, [], word, {}, w);
    }
  }

  // ---------------------------------------------------------------------------
  // The test of src/word_finder/anagram_word_finder.rs

  /** `test_anagram_word_finder_search`: over the test's eight words,
      "electrification" yields exactly five of them, among them "fear" and
      "traction" but not "electricity" (it has no 'y'); "apple" and
      "possible" need a 'p'. */
  lemma ElectrificationWords(words: set<string>, word: string)
    requires words == {"traction", "electricity", "cat", "fear", "apple", "electric", "craft", "possible"}
    requires word == "electrification"
    ensures IsAsciiString(word) && Search(Dictionaries.WordSet(words), word, Default).Ok?
    ensures Search(Dictionaries.WordSet(words), word, Default).value == {"traction", "cat", "fear", "electric", "craft"}
  {
    AnagramLetters.ElectrificationLetters();
    AnagramsOfElectrification(words, word, multiset(word));
  }

  /** The same holds of every rearrangement of "electrification": the search
      depends on the input's letters only through their multiset. */
  lemma AnagramsOfElectrification(words: set<string>, word: string, letters: multiset<char>)
    requires words == {"traction", "electricity", "cat", "fear", "apple", "electric", "craft", "possible"}
    requires letters == multiset(word)
    requires letters == multiset{'e', 'l', 'e', 'c', 't', 'r', 'i', 'f', 'i', 'c', 'a', 't', 'i', 'o', 'n'}
    ensures IsAsciiString(word) && Search(Dictionaries.WordSet(words), word, Default).Ok?
    ensures Search(Dictionaries.WordSet(words), word, Default).value == {"traction", "cat", "fear", "electric", "craft"}
  {
    AsciiByLetters(word, letters);
    ExpectedWordsFound(words, word, letters);
    var found := Search(Dictionaries.WordSet(words), word, Default).value;
    var expected: set<string> := {"traction", "cat", "fear", "electric", "craft"};
    forall w | w in found ensures w in expected {
      FoundWordExpected(words, word, letters, w);
    }
    SameMembers(found, expected);
  }

  /** A word found is one of the five: the other three need a 'y' or a 'p'. */
  lemma FoundWordExpected(words: set<string>, word: string, letters: multiset<char>, w: string)
    requires words == {"traction", "electricity", "cat", "fear", "apple", "electric", "craft", "possible"}
    requires IsAsciiString(word) && letters == multiset(word)
    requires letters == multiset{'e', 'l', 'e', 'c', 't', 'r', 'i', 'f', 'i', 'c', 'a', 't', 'i', 'o', 'n'}
    requires w in Search(Dictionaries.WordSet(words), word, Default).value
    ensures w in {"traction", "cat", "fear", "electric", "craft"}
  {
    FoundLacksYAndP(words, word, letters, w);
    KeptWords(words, w);
  }

  /** A found word is one of the listed words and, like "electrification",
      has no 'y' and no 'p'. */
  lemma FoundLacksYAndP(words: set<string>, word: string, letters: multiset<char>, w: string)
    requires IsAsciiString(word) && letters == multiset(word)
    requires letters == multiset{'e', 'l', 'e', 'c', 't', 'r', 'i', 'f', 'i', 'c', 'a', 't', 'i', 'o', 'n'}
    requires w in Search(Dictionaries.WordSet(words), word, Default).value
    ensures w in words && 'y' !in w && 'p' !in w
  {
    FoundInSet(words, word, w);
    AnagramLetters.LacksYAndP(w, letters);
  }

  /** A word whose letters are all lower-case ASCII letters is ASCII. */
  lemma AsciiByLetters(word: string, letters: multiset<char>)
    requires letters == multiset{'e', 'l', 'e', 'c', 't', 'r', 'i', 'f', 'i', 'c', 'a', 't', 'i', 'o', 'n'}
    requires letters == multiset(word)
    ensures IsAsciiString(word)
  {
    AnagramLetters.ElectrificationLettersAreLower(letters);
    forall i | 0 <= i < |word| ensures IsAscii(word[i]) {
      assert word[i] in multiset(word);
    }
  }

  /** Each of the five expected words is found. */
  lemma ExpectedWordsFound(words: set<string>, word: string, letters: multiset<char>)
    requires words == {"traction", "electricity", "cat", "fear", "apple", "electric", "craft", "possible"}
    requires IsAsciiString(word) && letters == multiset(word)
    requires letters == multiset{'e', 'l', 'e', 'c', 't', 'r', 'i', 'f', 'i', 'c', 'a', 't', 'i', 'o', 'n'}
    ensures Search(Dictionaries.WordSet(words), word, Default).Ok?
    ensures forall w :: w in {"traction", "cat", "fear", "electric", "craft"} ==>
      w in Search(Dictionaries.WordSet(words), word, Default).value
  {
    AnagramLetters.TractionFits(letters);
    FittingSetWordFound(words, word, "traction");
    AnagramLetters.CatFits(letters);
    FittingSetWordFound(words, word, "cat");
    AnagramLetters.FearFits(letters);
    FittingSetWordFound(words, word, "fear");
    AnagramLetters.ElectricFits(letters);
    FittingSetWordFound(words, word, "electric");
    AnagramLetters.CraftFits(letters);
    FittingSetWordFound(words, word, "craft");
    forall w | w in {"traction", "cat", "fear", "electric", "craft"}
      ensures w in Search(Dictionaries.WordSet(words), word, Default).value
    {
      ExpectedWords(w);
    }
  }

  /** Over a set dictionary and the default filters, a word found is a member
      of the set that takes its letters from the input. */
  lemma FoundInSet(words: set<string>, word: string, w: string)
    requires IsAsciiString(word) && w in Search(Dictionaries.WordSet(words), word, Default).value
    ensures w in words && multiset(w) <= multiset(word)
  {
    SearchFindsExactly(Dictionaries.WordSet(words), word, Default, w);
    Dictionaries.SearchIsMembership(Dictionaries.WordSet(words), w);
  }

  /** Over a set dictionary and the default filters, every non-empty member
      that takes its letters from the input is found. */
  lemma FittingSetWordFound(words: set<string>, word: string, w: string)
    requires IsAsciiString(word) && w in words && w != [] && multiset(w) <= multiset(word)
    ensures Search(Dictionaries.WordSet(words), word, Default).Ok?
    ensures w in Search(Dictionaries.WordSet(words), word, Default).value
  {
    SearchFindsExactly(Dictionaries.WordSet(words), word, Default, w);
    Dictionaries.SearchIsMembership(Dictionaries.WordSet(words), w);
    Filters.DefaultAcceptsAll(w);
  }

  /** The test's words without a 'y' or a 'p'. */
  lemma KeptWords(words: set<string>, w: string)
    requires words == {"traction", "electricity", "cat", "fear", "apple", "electric", "craft", "possible"}
    requires w in words
    requires 'y' !in w && 'p' !in w
    ensures w in {"traction", "cat", "fear", "electric", "craft"}
  {
    assert 'y' in "electricity" && 'p' in "apple" && 'p' in "possible";
  }

  lemma ExpectedWords(w: string)
    requires w in {"traction", "cat", "fear", "electric", "craft"}
    ensures w == "traction" || w == "cat" || w == "fear" || w == "electric" || w == "craft"
  {
  }

  lemma SameMembers(a: set<string>, b: set<string>)
    requires forall x :: x in a ==> x in b
    requires forall x :: x in b ==> x in a
    ensures a == b
  {
  }
}
