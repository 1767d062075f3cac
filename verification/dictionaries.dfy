/** The `Dictionary` trait of src/dictionaries/mod.rs and its two
    implementations: a set of words (src/dictionaries/sets.rs) and the prefix
    tree of src/trie.rs.

    A dictionary answers two queries, `search` (is this a word?) and
    `starts_with` (is this the beginning of a word?). The set answers them
    exactly; the trie folds letter case, never panics on a string of letters,
    and panics on the first non-letter its walk reaches. Both are related here
    to one abstraction, the set of `Members` and the `Key` a query looks up. */
module Dictionaries {
  import opened Outcomes
  import opened Letters
  import Trie

  datatype Dictionary = WordSet(words: set<string>) | WordTrie(root: Trie.TrieNode)

  /** The shape the trie operations need: tries built by `Trie.New` and
      `Trie.Insert` have it. */
  ghost predicate Usable(d: Dictionary) {
    d.WordTrie? ==> Trie.Wf(d.root)
  }

  /** Queries the model covers: the trie only indexes ASCII characters. */
  predicate Admits(d: Dictionary, w: string) {
    d.WordTrie? ==> IsAsciiString(w)
  }

  /** Queries that cannot panic: every query of a set, and queries of a trie
      that hold only letters. */
  predicate Reliable(d: Dictionary, w: string) {
    d.WordSet? || IsLetterString(w)
  }

  /** The words a dictionary holds. */
  ghost function Members(d: Dictionary): set<string> {
    match d
    case WordSet(words) => words
    case WordTrie(root) => Trie.Words(root)
  }

  /** The spelling a query looks up: the trie folds upper case to lower case. */
  function Key(d: Dictionary, w: string): string {
    if d.WordSet? then w else LowerString(w)
  }

  /** `Dictionary::search`. */
  function Search(d: Dictionary, w: string): (r: Result<bool>)
    requires Usable(d) && Admits(d, w)
    ensures Reliable(d, w) ==> r.Ok?
    ensures r.Err? <==> StartsWith(d, w).Err?
    ensures r == Ok(true) ==> StartsWith(d, w) == Ok(true)
  {
    match d
    case WordSet(words) => Ok(w in words)
    case WordTrie(root) =>
      if IsLetterString(w) then
        Trie.SearchIsMembership(root, w);
        Trie.Search(root, w)
      else Trie.Search(root, w)
  }

  /** `Dictionary::starts_with`; for a set, "some member begins with `p`". */
  function StartsWith(d: Dictionary, p: string): (r: Result<bool>)
    requires Usable(d) && Admits(d, p)
    ensures Reliable(d, p) ==> r.Ok?
    ensures r.Err? ==> d.WordTrie? && r.fault.NotAnAlphabet? && r.fault.letter in p && !IsLetter(r.fault.letter)
  {
    match d
    case WordSet(words) => Ok(exists s :: s in words && p <= s)
    case WordTrie(root) =>
      if IsLetterString(p) then
        Trie.StartsWithIsPrefixMembership(root, p);
        Trie.StartsWith(root, p)
      else Trie.StartsWith(root, p)
  }

  /** `search` is membership of the looked-up spelling. */
  lemma SearchIsMembership(d: Dictionary, w: string)
    requires Usable(d) && Admits(d, w) && Reliable(d, w)
    ensures Search(d, w) == Ok(Key(d, w) in Members(d))
  {
    if d.WordTrie? {
      Trie.SearchIsMembership(d.root, w);
    }
  }

  /** `starts_with` holds exactly when some member extends the looked-up
      spelling; the trie also accepts the empty string when it is empty. */
  lemma StartsWithIsPrefixMembership(d: Dictionary, p: string)
    requires Usable(d) && Admits(d, p) && Reliable(d, p)
    ensures StartsWith(d, p) == Ok((d.WordTrie? && p == []) || exists s :: s in Members(d) && Key(d, p) <= s)
  {
    if d.WordTrie? {
      Trie.StartsWithIsPrefixMembership(d.root, p);
      assert Key(d, p) == LowerString(p) && Members(d) == Trie.Words(d.root);
      if s :| s in Trie.Words(d.root) && LowerString(p) <= s {
        assert s in Members(d) && Key(d, p) <= s;
        assert exists s' :: s' in Trie.Words(d.root) && LowerString(p) <= s';
      }
    } else {
      assert Key(d, p) == p && Members(d) == d.words;
    }
  }

  /** `starts_with("")` holds of every trie, fresh or not, but of a set only
      when the set is not empty. */
  lemma EmptyPrefix(d: Dictionary)
    requires Usable(d)
    ensures StartsWith(d, []) == Ok(d.WordTrie? || Members(d) != {})
  {
    if d.WordSet? && d.words != {} {
      var s :| s in d.words;
      assert [] <= s;
    }
  }

  /** A successful `starts_with` on a trie means the walk reached the end of
      the string, which therefore holds only letters. */
  lemma PrefixHitsAreReliable(d: Dictionary, p: string)
    requires Usable(d) && Admits(d, p) && StartsWith(d, p) == Ok(true)
    ensures Reliable(d, p)
  {
    if d.WordTrie? {
      Trie.WalkFoundMeansLetters(d.root, p);
    }
  }

  /** `starts_with` is prefix-closed: it holds of every prefix of a string it
      holds of. */
  lemma PrefixClosed(d: Dictionary, p: string, k: nat)
    requires Usable(d) && Admits(d, p) && StartsWith(d, p) == Ok(true) && k <= |p|
    ensures Admits(d, p[..k]) && StartsWith(d, p[..k]) == Ok(true)
  {
    PrefixHitsAreReliable(d, p);
    StartsWithIsPrefixMembership(d, p);
    StartsWithIsPrefixMembership(d, p[..k]);
    if k > 0 {
      var s :| s in Members(d) && Key(d, p) <= s;
      assert Key(d, p[..k]) == Key(d, p)[..k];
      assert Key(d, p[..k]) <= s;
    }
  }

  /** Every prefix of a word `search` finds satisfies `starts_with`. */
  lemma SearchHitsHavePrefixes(d: Dictionary, w: string, k: nat)
    requires Usable(d) && Admits(d, w) && Search(d, w) == Ok(true) && k <= |w|
    ensures Admits(d, w[..k]) && StartsWith(d, w[..k]) == Ok(true)
  {
    PrefixClosed(d, w, k);
  }
}
