/** `BasicWordFilters` of src/word_finder/mod.rs (and its textual copy in
    src/word_unscrambler.rs): a word passes when it starts with one string,
    ends with another and contains a third. */
module Filters {
  import opened Outcomes
  import Dictionaries

  datatype BasicWordFilters = BasicWordFilters(startsWith: string, endsWith: string, contains: string)

  /** `#[derive(Default)]`: three empty strings. */
  const Default := BasicWordFilters("", "", "")

  /** `str::ends_with`: `w` is something followed by `e`. */
  function EndsWith(w: string, e: string): (r: bool)
    ensures r <==> exists y :: w == y + e
  {
    if |e| <= |w| && w[|w| - |e|..] == e then
      assert w == w[..|w| - |e|] + e;
      true
    else
      assert forall y :: w == y + e ==> w[|y|..] == e;
      false
  }

  /** `str::contains`: `c` occurs in `w` at some position. */
  function Contains(w: string, c: string): (r: bool)
    ensures r <==> exists i :: 0 <= i <= |w| && c <= w[i..]
    decreases |w|
  {
    if c <= w then
      assert c <= w[0..];
      true
    else if w == [] then false
    else
      var r := Contains(w[1..], c);
      assert forall i :: 1 <= i <= |w| ==> w[i..] == w[1..][i - 1..];
      r
  }

  /** `WordFilters::passes_filters`; a word that passes is at least as long as
      each of the three strings. */
  function PassesFilters(f: BasicWordFilters, w: string): (r: bool)
    ensures r ==> |f.startsWith| <= |w| && |f.endsWith| <= |w| && |f.contains| <= |w|
  {
    f.startsWith <= w && EndsWith(w, f.endsWith) && Contains(w, f.contains)
  }

  /** A word passes exactly when it splits as `startsWith` followed by the
      rest, as the rest followed by `endsWith`, and around an occurrence of
      `contains`. */
  lemma PassesMeansSplits(f: BasicWordFilters, w: string)
    ensures PassesFilters(f, w) <==>
      && (exists x :: w == f.startsWith + x)
      && (exists y :: w == y + f.endsWith)
      && (exists u, v :: w == u + f.contains + v)
  {
    PrefixSplits(f.startsWith, w);
    InfixSplits(f.contains, w);
  }

  lemma PrefixSplits(s: string, w: string)
    ensures s <= w <==> exists x :: w == s + x
  {
    if s <= w {
      assert w == s + w[|s|..];
    }
  }

  lemma InfixSplits(c: string, w: string)
    ensures Contains(w, c) <==> exists u, v :: w == u + c + v
  {
    if Contains(w, c) {
      var i :| 0 <= i <= |w| && c <= w[i..];
      assert w == w[..i] + c + w[i + |c|..];
    }
    if u, v :| w == u + c + v {
      assert c <= w[|u|..];
    }
  }

  /** The default filters accept every word. */
  lemma DefaultAcceptsAll(w: string)
    ensures PassesFilters(Default, w)
  {
    assert [] <= w[0..];
  }

  /** `test_passes_filter`: ("app", "ion", "cat") accepts "application" and
      rejects "apple", "caution" and "bobcat". */
  lemma ApplicationFilter(f: BasicWordFilters)
    requires f == BasicWordFilters("app", "ion", "cat")
    ensures PassesFilters(f, "application")
    ensures !PassesFilters(f, "apple") && !PassesFilters(f, "caution") && !PassesFilters(f, "bobcat")
  {
    assert "cat" <= "application"[5..];
    assert "apple"[2..][0] != "ion"[0];
    assert "caution"[0] != "app"[0] && "bobcat"[0] != "app"[0];
  }

  // ---------------------------------------------------------------------------
  // The recording test the finders share

  /** A word the search may record: a dictionary word that passes the filters. */
  ghost predicate Accepted(d: Dictionaries.Dictionary, filters: BasicWordFilters, w: string) {
    && Dictionaries.Usable(d) && Dictionaries.Admits(d, w)
    && PassesFilters(filters, w) && Dictionaries.Search(d, w) == Ok(true)
  }

  /** The recording test of the grid and anagram finders,
      `passes_filters(w) && search(w)`: the filters first, and only when they
      pass, the dictionary (`&&` short-circuits). */
  function Record(d: Dictionaries.Dictionary, filters: BasicWordFilters, w: string): (r: Result<bool>)
    requires Dictionaries.Usable(d) && Dictionaries.Admits(d, w)
    ensures r == Ok(true) <==> Accepted(d, filters, w)
    ensures r.Err? ==> PassesFilters(filters, w) && Dictionaries.Search(d, w).Err?
  {
    if PassesFilters(filters, w) then Dictionaries.Search(d, w) else Ok(false)
  }
}
