/** Letter counts behind the "electrification" test of
    src/word_finder/anagram_word_finder.rs, on multiset displays: which of the
    test's words take their letters from "electrification". */
module AnagramLetters {
  /** The letters of "electrification". */
  lemma ElectrificationLetters()
    ensures multiset("electrification") == multiset{'e', 'l', 'e', 'c', 't', 'r', 'i', 'f', 'i', 'c', 'a', 't', 'i', 'o', 'n'}
  {
  }

  /** The letters of "traction". */
  lemma TractionLetters()
    ensures multiset("traction") == multiset{'t', 'r', 'a', 'c', 't', 'i', 'o', 'n'}
  {
  }

  /** Each letter of "traction" occurs at least as often in "electrification". */
  lemma TractionInLetters(letters: multiset<char>)
    requires letters == multiset{'e', 'l', 'e', 'c', 't', 'r', 'i', 'f', 'i', 'c', 'a', 't', 'i', 'o', 'n'}
    ensures multiset{'t', 'r', 'a', 'c', 't', 'i', 'o', 'n'} <= letters
  {
  }

  /** "traction" takes its letters from "electrification". */
  lemma TractionFits(letters: multiset<char>)
    requires letters == multiset{'e', 'l', 'e', 'c', 't', 'r', 'i', 'f', 'i', 'c', 'a', 't', 'i', 'o', 'n'}
    ensures multiset("traction") <= letters
  {
    TractionLetters();
    TractionInLetters(letters);
  }

  /** The letters of "cat". */
  lemma CatLetters()
    ensures multiset("cat") == multiset{'c', 'a', 't'}
  {
  }

  /** Each letter of "cat" occurs at least as often in "electrification". */
  lemma CatInLetters(letters: multiset<char>)
    requires letters == multiset{'e', 'l', 'e', 'c', 't', 'r', 'i', 'f', 'i', 'c', 'a', 't', 'i', 'o', 'n'}
    ensures multiset{'c', 'a', 't'} <= letters
  {
  }

  /** "cat" takes its letters from "electrification". */
  lemma CatFits(letters: multiset<char>)
    requires letters == multiset{'e', 'l', 'e', 'c', 't', 'r', 'i', 'f', 'i', 'c', 'a', 't', 'i', 'o', 'n'}
    ensures multiset("cat") <= letters
  {
    CatLetters();
    CatInLetters(letters);
  }

  /** The letters of "fear". */
  lemma FearLetters()
    ensures multiset("fear") == multiset{'f', 'e', 'a', 'r'}
  {
  }

  /** Each letter of "fear" occurs at least as often in "electrification". */
  lemma FearInLetters(letters: multiset<char>)
    requires letters == multiset{'e', 'l', 'e', 'c', 't', 'r', 'i', 'f', 'i', 'c', 'a', 't', 'i', 'o', 'n'}
    ensures multiset{'f', 'e', 'a', 'r'} <= letters
  {
  }

  /** "fear" takes its letters from "electrification". */
  lemma FearFits(letters: multiset<char>)
    requires letters == multiset{'e', 'l', 'e', 'c', 't', 'r', 'i', 'f', 'i', 'c', 'a', 't', 'i', 'o', 'n'}
    ensures multiset("fear") <= letters
  {
    FearLetters();
    FearInLetters(letters);
  }

  /** The letters of "electric". */
  lemma ElectricLetters()
    ensures multiset("electric") == multiset{'e', 'l', 'e', 'c', 't', 'r', 'i', 'c'}
  {
  }

  /** Each letter of "electric" occurs at least as often in "electrification". */
  lemma ElectricInLetters(letters: multiset<char>)
    requires letters == multiset{'e', 'l', 'e', 'c', 't', 'r', 'i', 'f', 'i', 'c', 'a', 't', 'i', 'o', 'n'}
    ensures multiset{'e', 'l', 'e', 'c', 't', 'r', 'i', 'c'} <= letters
  {
  }

  /** "electric" takes its letters from "electrification". */
  lemma ElectricFits(letters: multiset<char>)
    requires letters == multiset{'e', 'l', 'e', 'c', 't', 'r', 'i', 'f', 'i', 'c', 'a', 't', 'i', 'o', 'n'}
    ensures multiset("electric") <= letters
  {
    ElectricLetters();
    ElectricInLetters(letters);
  }

  /** The letters of "craft". */
  lemma CraftLetters()
    ensures multiset("craft") == multiset{'c', 'r', 'a', 'f', 't'}
  {
  }

  /** Each letter of "craft" occurs at least as often in "electrification". */
  lemma CraftInLetters(letters: multiset<char>)
    requires letters == multiset{'e', 'l', 'e', 'c', 't', 'r', 'i', 'f', 'i', 'c', 'a', 't', 'i', 'o', 'n'}
    ensures multiset{'c', 'r', 'a', 'f', 't'} <= letters
  {
  }

  /** "craft" takes its letters from "electrification". */
  lemma CraftFits(letters: multiset<char>)
    requires letters == multiset{'e', 'l', 'e', 'c', 't', 'r', 'i', 'f', 'i', 'c', 'a', 't', 'i', 'o', 'n'}
    ensures multiset("craft") <= letters
  {
    CraftLetters();
    CraftInLetters(letters);
  }

  /** Every letter of "electrification" is a lower-case ASCII letter. */
  lemma ElectrificationLettersAreLower(letters: multiset<char>)
    requires letters == multiset{'e', 'l', 'e', 'c', 't', 'r', 'i', 'f', 'i', 'c', 'a', 't', 'i', 'o', 'n'}
    ensures forall c :: c in letters ==> 'a' <= c <= 'z'
  {
  }

  /** "electrification" has no 'y' and no 'p', so neither has a word that
      takes its letters from it: not "electricity", "apple" or "possible". */
  lemma LacksYAndP(w: string, letters: multiset<char>)
    requires letters == multiset{'e', 'l', 'e', 'c', 't', 'r', 'i', 'f', 'i', 'c', 'a', 't', 'i', 'o', 'n'}
    requires multiset(w) <= letters
    ensures 'y' !in w && 'p' !in w
  {
    assert letters['y'] == 0 && letters['p'] == 0;
    assert multiset(w)['y'] == 0 && multiset(w)['p'] == 0;
  }
}
