/** The older unscrambler of src/word_unscrambler.rs: the prefix/suffix
    search of the anagram finder, written against a trie. Its own copy of
    `BasicWordFilters` is the same three-string filter as `Filters`.

    `SearchAgrees` proves it equal to the anagram finder over the trie, so
    the anagram finder's soundness and completeness carry over to
    `Unscramble`'s contract. */
module WordUnscrambler {
  import opened Outcomes
  import opened Letters
  import opened Filters
  import Trie
  import Dictionaries
  import AnagramWordFinder

  /** `PrefixBasedWordUnscrambler::find_permutations`. */
  function FindPermutations(t: Trie.TrieNode, filters: BasicWordFilters, prefix: string, suffix: string, words: set<string>): (r: Result<set<string>>)
    requires Trie.Wf(t) && IsAsciiString(prefix) && IsAsciiString(suffix)
    ensures r.Ok? ==> words <= r.value
    decreases |suffix|, 1
  {
    if |suffix| == 0 then Ok(words)
    else TryEach(t, filters, prefix, suffix, words, 0)
  }

  /** Its loop over the positions of the suffix, from position `i` on. */
  function TryEach(t: Trie.TrieNode, filters: BasicWordFilters, prefix: string, suffix: string, words: set<string>, i: nat): (r: Result<set<string>>)
    requires Trie.Wf(t) && IsAsciiString(prefix) && IsAsciiString(suffix)
    requires i <= |suffix|
    ensures r.Ok? ==> words <= r.value
    decreases |suffix|, 0, |suffix| - i
  {
    if i == |suffix| then Ok(words)
    else
      var next := prefix + [suffix[i]];
      var rest := AnagramWordFinder.Remove(suffix, i);
      var more :- Trie.StartsWith(t, next);
      if !more then TryEach(t, filters, prefix, suffix, words, i + 1)
      else
        var hit := PassesFilters(filters, next) && Trie.Search(t, next).value;
        var found := if hit then words + {next} else words;
        var words' :- FindPermutations(t, filters, next, rest, found);
        TryEach(t, filters, prefix, suffix, words', i + 1)
  }

  /** `WordUnscrambler::unscramble`: the trie words of the input's letters
      that pass the filters. */
  function Unscramble(t: Trie.TrieNode, word: string, filters: BasicWordFilters): (r: Result<set<string>>)
    requires Trie.Wf(t) && IsAsciiString(word)
    ensures r.Ok? ==> forall w :: w in r.value <==>
      && w != [] && multiset(w) <= multiset(word) && IsAsciiString(w)
      && PassesFilters(filters, w) && Trie.Search(t, w) == Ok(true)
    ensures IsLetterString(word) ==> r.Ok?
    ensures word == [] ==> r == Ok({})
  {
    SearchAgrees(t, word, filters);
    var r := FindPermutations(t, filters, [], word, {});
    if r.Ok? then
      UnscrambleFindsExactly(t, word, filters);
      r
    else r
  }

  /** The unscrambler is the anagram finder over the same trie. */
  lemma {:induction false} FindAgrees(t: Trie.TrieNode, filters: BasicWordFilters, prefix: string, suffix: string, words: set<string>)
    requires Trie.Wf(t) && IsAsciiString(prefix) && IsAsciiString(suffix)
    ensures FindPermutations(t, filters, prefix, suffix, words) ==
      AnagramWordFinder.FindPermutations(Dictionaries.WordTrie(t), filters, prefix, suffix, words)
    decreases |suffix|, 1
  {
    if |suffix| > 0 {
      TryEachAgrees(t, filters, prefix, suffix, words, 0);
    }
  }

  lemma {:induction false} TryEachAgrees(t: Trie.TrieNode, filters: BasicWordFilters, prefix: string, suffix: string, words: set<string>, i: nat)
    requires Trie.Wf(t) && IsAsciiString(prefix) && IsAsciiString(suffix)
    requires i <= |suffix|
    ensures TryEach(t, filters, prefix, suffix, words, i) ==
      AnagramWordFinder.TryEach(Dictionaries.WordTrie(t), filters, prefix, suffix, words, i)
    decreases |suffix|, 0, |suffix| - i
  {
    if i < |suffix| {
      var d := Dictionaries.WordTrie(t);
      var next := prefix + [suffix[i]];
      var rest := AnagramWordFinder.Remove(suffix, i);
      if Trie.StartsWith(t, next) == Ok(true) {
        var found := if PassesFilters(filters, next) && Trie.Search(t, next).value then words + {next} else words;
        assert found == if Record(d, filters, next).value then words + {next} else words;
        FindAgrees(t, filters, next, rest, found);
        var r := FindPermutations(t, filters, next, rest, found);
        if r.Ok? {
          TryEachAgrees(t, filters, prefix, suffix, r.value, i + 1);
        }
      } else if Trie.StartsWith(t, next) == Ok(false) {
        TryEachAgrees(t, filters, prefix, suffix, words, i + 1);
      }
    }
  }

  lemma SearchAgrees(t: Trie.TrieNode, word: string, filters: BasicWordFilters)
    requires Trie.Wf(t) && IsAsciiString(word)
    ensures FindPermutations(t, filters, [], word, {}) == AnagramWordFinder.Search(Dictionaries.WordTrie(t), word, filters)
  {
    FindAgrees(t, filters, [], word, {});
  }

  /** What the anagram finder's exact result means for a trie. */
  lemma UnscrambleFindsExactly(t: Trie.TrieNode, word: string, filters: BasicWordFilters)
    requires Trie.Wf(t) && IsAsciiString(word)
    requires AnagramWordFinder.Search(Dictionaries.WordTrie(t), word, filters).Ok?
    ensures forall w :: w in AnagramWordFinder.Search(Dictionaries.WordTrie(t), word, filters).value <==>
      && w != [] && multiset(w) <= multiset(word) && IsAsciiString(w)
      && PassesFilters(filters, w) && Trie.Search(t, w) == Ok(true)
  {
    var d := Dictionaries.WordTrie(t);
    forall w ensures w in AnagramWordFinder.Search(d, word, filters).value <==>
      && w != [] && multiset(w) <= multiset(word) && IsAsciiString(w)
      && PassesFilters(filters, w) && Trie.Search(t, w) == Ok(true)
    {
      AnagramWordFinder.SearchFindsExactly(d, word, filters, w);
      if multiset(w) <= multiset(word) {
        SubMultisetKeepsAscii(w, word);
      }
    }
  }

  /** A word made of some of an ASCII word's letters is ASCII. */
  lemma SubMultisetKeepsAscii(w: string, word: string)
    requires IsAsciiString(word) && multiset(w) <= multiset(word)
    ensures IsAsciiString(w)
  {
    forall i | 0 <= i < |w| ensures IsAscii(w[i]) {
      assert w[i] in multiset(w);
      assert w[i] in multiset(word);
    }
  }
}
