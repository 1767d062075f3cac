/** ASCII characters and letters, the alphabet the trie indexes. */
module Letters {

  predicate IsAscii(c: char) {
    c as int < 128
  }

  predicate IsAsciiString(s: string) {
    forall i :: 0 <= i < |s| ==> IsAscii(s[i])
  }

  /** `char::is_alphabetic` restricted to ASCII. */
  predicate IsLetter(c: char) {
    'a' <= c <= 'z' || 'A' <= c <= 'Z'
  }

  predicate IsLetterString(s: string) {
    forall i :: 0 <= i < |s| ==> IsLetter(s[i])
  }

  /** `char::to_lowercase` restricted to ASCII: only upper-case letters change. */
  function ToLower(c: char): char {
    if 'A' <= c <= 'Z' then (c as int + 32) as char else c
  }

  function LowerString(s: string): (r: string)
    ensures |r| == |s|
    ensures forall i :: 0 <= i < |s| ==> r[i] == ToLower(s[i])
  {
    if s == [] then [] else [ToLower(s[0])] + LowerString(s[1..])
  }

  /** The letter of trie slot `i`. */
  function SlotLetter(i: nat): char
    requires i < 26
  {
    ('a' as int + i) as char
  }

  predicate IsLowerWord(s: string) {
    forall i :: 0 <= i < |s| ==> 'a' <= s[i] <= 'z'
  }

  lemma LowerStringOfLetters(s: string)
    requires IsLetterString(s)
    ensures IsLowerWord(LowerString(s))
  {
  }

  lemma LowerStringCons(c: char, s: string)
    ensures LowerString([c] + s) == [ToLower(c)] + LowerString(s)
  {
    assert ([c] + s)[1..] == s;
  }

  lemma LowerStringIdempotent(s: string)
    ensures LowerString(LowerString(s)) == LowerString(s)
  {
  }
}
