/** The 26-slot prefix tree of src/trie.rs.

    A node owns one optional child per letter `a`..`z` and an end-of-word flag.
    The abstraction of a node is `Words`, the set of lower-case words whose path
    ends on a marked node; `search` is membership in that set and `starts_with`
    is membership in its prefix closure (for tries built by `Insert`, which keep
    every subtree non-empty, the `Trimmed` invariant). */
module Trie {
  import opened Outcomes
  import opened Letters

  datatype TrieNode = TrieNode(children: seq<Option<TrieNode>>, isEndOfWord: bool)

  /** Every node has exactly 26 slots. */
  ghost predicate Valid(n: TrieNode)
    decreases n
  {
    && |n.children| == 26
    && forall i :: 0 <= i < 26 && n.children[i].Some? ==> Valid(n.children[i].value)
  }

  /** The words spelled from `n` down to a node whose end-of-word flag is set. */
  ghost function Words(n: TrieNode): set<string>
    decreases n
  {
    (if n.isEndOfWord then {[]} else {})
    + (set i, w | 0 <= i < |n.children| && i < 26 && n.children[i].Some? && w in Words(n.children[i].value)
         :: [SlotLetter(i)] + w)
  }

  /** No dead branches: every child subtree holds at least one word. */
  ghost predicate Trimmed(n: TrieNode)
    decreases n
  {
    forall i :: 0 <= i < |n.children| && n.children[i].Some? ==>
      Words(n.children[i].value) != {} && Trimmed(n.children[i].value)
  }

  /** The shape of every trie reachable from `New` by `Insert`. */
  ghost predicate Wf(n: TrieNode) {
    Valid(n) && Trimmed(n)
  }

  /** `TrieNode::new`: no children, not the end of a word. */
  function EmptyNode(): (n: TrieNode)
    ensures Wf(n)
    ensures Words(n) == {}
  {
    TrieNode(seq(26, _ => None), false)
  }

  /** `SimpleTrie::new`. */
  function New(): (t: TrieNode)
    ensures Wf(t)
    ensures Words(t) == {}
  {
    EmptyNode()
  }

  /** `SimpleTrie::char_to_index`: the slot of a letter, case-folded; any other
      character panics. */
  function CharToIndex(c: char): (r: Result<nat>)
    requires IsAscii(c)
    ensures r.Err? <==> !IsLetter(c)
    ensures r.Err? ==> r.fault == NotAnAlphabet(c)
    ensures r.Ok? ==> r.value < 26 && SlotLetter(r.value) == ToLower(c)
  {
    if !IsLetter(c) then Err(NotAnAlphabet(c))
    else Ok(ToLower(c) as int - 'a' as int)
  }

  /** The `search_for_chars!` walk: the node reached by following `w`, `None`
      when a slot on the way is empty (the walk stops there, before looking at
      the remaining characters), or the panic of `char_to_index`. */
  function Walk(n: TrieNode, w: string): (r: Result<Option<TrieNode>>)
    requires Valid(n) && IsAsciiString(w)
    ensures r.Ok? && r.value.Some? ==> Valid(r.value.value)
    ensures r.Err? ==> r.fault.NotAnAlphabet? && r.fault.letter in w && !IsLetter(r.fault.letter)
    decreases n
  {
    if w == [] then Ok(Some(n))
    else
      var i :- CharToIndex(w[0]);
      match n.children[i]
      case None => Ok(None)
      case Some(child) => Walk(child, w[1..])
  }

  /** `SimpleTrie::search`. */
  function Search(t: TrieNode, w: string): (r: Result<bool>)
    requires Valid(t) && IsAsciiString(w)
    ensures r.Err? <==> StartsWith(t, w).Err?
    ensures r == Ok(true) ==> StartsWith(t, w) == Ok(true)
  {
    var node :- Walk(t, w);
    Ok(node.Some? && node.value.isEndOfWord)
  }

  /** `SimpleTrie::starts_with`. */
  function StartsWith(t: TrieNode, p: string): (r: Result<bool>)
    requires Valid(t) && IsAsciiString(p)
    ensures p == [] ==> r == Ok(true)
    ensures r.Err? ==> r.fault.NotAnAlphabet? && r.fault.letter in p && !IsLetter(r.fault.letter)
  {
    var node :- Walk(t, p);
    Ok(node.Some?)
  }

  /** `SimpleTrie::insert`: creates the missing nodes along `w` and marks the
      last one; a non-letter anywhere in `w` panics. */
  function Insert(n: TrieNode, w: string): (r: Result<TrieNode>)
    requires Valid(n) && IsAsciiString(w)
    ensures r.Err? <==> !IsLetterString(w)
    ensures r.Ok? ==> Valid(r.value)
    decreases w
  {
    if w == [] then Ok(n.(isEndOfWord := true))
    else
      var i :- CharToIndex(w[0]);
      var child := if n.children[i].Some? then n.children[i].value else EmptyNode();
      var child' :- Insert(child, w[1..]);
      Ok(n.(children := n.children[i := Some(child')]))
  }

  /** Building a dictionary: `insert` folded over the lines of a word list; the
      first line holding a non-letter aborts the whole build. */
  function Build(t: TrieNode, lines: seq<string>): (r: Result<TrieNode>)
    requires Valid(t)
    requires forall k :: 0 <= k < |lines| ==> IsAsciiString(lines[k])
    ensures r.Err? <==> exists k :: 0 <= k < |lines| && !IsLetterString(lines[k])
    ensures r.Ok? ==> Valid(r.value)
    decreases |lines|, t
  {
    if lines == [] then Ok(t)
    else
      assert forall k :: 1 <= k < |lines| ==> lines[k] == lines[1..][k - 1];
      var t' :- Insert(t, lines[0]);
      Build(t', lines[1..])
  }

  /** The lower-case spellings of a list of lines. */
  function LowerLines(lines: seq<string>): (r: set<string>)
    ensures forall s :: s in r <==> exists k :: 0 <= k < |lines| && s == LowerString(lines[k])
  {
    if lines == [] then {}
    else
      assert forall k :: 1 <= k < |lines| ==> lines[k] == lines[1..][k - 1];
      {LowerString(lines[0])} + LowerLines(lines[1..])
  }

  // ---------------------------------------------------------------------------
  // The abstraction

  /** Membership in `Words`, one level at a time. */
  lemma WordsMember(n: TrieNode, s: string)
    requires Valid(n)
    ensures s == [] ==> (s in Words(n) <==> n.isEndOfWord)
    ensures s != [] ==> (s in Words(n) <==>
      && 'a' <= s[0] <= 'z'
      && n.children[s[0] as int - 'a' as int].Some?
      && s[1..] in Words(n.children[s[0] as int - 'a' as int].value))
  {
    if s != [] && 'a' <= s[0] <= 'z' {
      var i := s[0] as int - 'a' as int;
      if n.children[i].Some? && s[1..] in Words(n.children[i].value) {
        assert s == [SlotLetter(i)] + s[1..];
      }
    }
  }

  /** `search` on a word of letters is membership of its lower-case spelling. */
  lemma {:induction false} SearchIsMembership(t: TrieNode, w: string)
    requires Valid(t) && IsAsciiString(w) && IsLetterString(w)
    ensures Search(t, w) == Ok(LowerString(w) in Words(t))
    decreases w
  {
    WordsMember(t, LowerString(w));
    if w != [] {
      var i := CharToIndex(w[0]).value;
      LowerStringCons(w[0], w[1..]);
      assert w == [w[0]] + w[1..];
      assert LowerString(w)[1..] == LowerString(w[1..]);
      if t.children[i].Some? {
        SearchIsMembership(t.children[i].value, w[1..]);
      }
    }
  }

  /** A word starting with slot `i`'s letter is stored exactly when the
      rest is stored below slot `i`. */
  lemma WordsMemberAt(n: TrieNode, i: nat, x: string)
    requires Valid(n) && i < 26
    ensures [SlotLetter(i)] + x in Words(n) <==> n.children[i].Some? && x in Words(n.children[i].value)
  {
    var s := [SlotLetter(i)] + x;
    assert s[1..] == x;
    WordsMember(n, s);
  }

  /** A stored word extending `[letter of i] + q` continues below slot `i`
      with a word extending `q`. */
  lemma ExtensionDescends(t: TrieNode, i: nat, q: string, s: string)
    requires Valid(t) && i < 26 && s in Words(t) && [SlotLetter(i)] + q <= s
    ensures t.children[i].Some? && s[1..] in Words(t.children[i].value) && q <= s[1..]
  {
    assert s == [SlotLetter(i)] + s[1..];
    WordsMemberAt(t, i, s[1..]);
  }

  /** A word below slot `i` extending `q` is, behind the slot's letter, a
      stored word extending `[letter of i] + q`. */
  lemma ExtensionLifts(t: TrieNode, i: nat, q: string, s': string)
    requires Valid(t) && i < 26 && t.children[i].Some? && s' in Words(t.children[i].value) && q <= s'
    ensures [SlotLetter(i)] + s' in Words(t) && [SlotLetter(i)] + q <= [SlotLetter(i)] + s'
  {
    WordsMemberAt(t, i, s');
  }

  /** The stored words extending a string that starts with slot `i`'s letter
      are the child's words extending the rest, behind that letter. */
  lemma ExtensionsThroughSlot(t: TrieNode, i: nat, q: string)
    requires Valid(t) && i < 26
    ensures (exists s :: s in Words(t) && [SlotLetter(i)] + q <= s) <==>
      (t.children[i].Some? && exists s' :: s' in Words(t.children[i].value) && q <= s')
  {
    if s :| s in Words(t) && [SlotLetter(i)] + q <= s {
      ExtensionDescends(t, i, q, s);
    }
    if t.children[i].Some? && exists s' :: s' in Words(t.children[i].value) && q <= s' {
      var s' :| s' in Words(t.children[i].value) && q <= s';
      ExtensionLifts(t, i, q, s');
    }
  }

  /** On a trimmed trie, `starts_with` on a string of letters holds exactly
      when the string is empty or its lower-case spelling is a prefix of a
      stored word. */
  lemma {:induction false} StartsWithIsPrefixMembership(t: TrieNode, p: string)
    requires Wf(t) && IsAsciiString(p) && IsLetterString(p)
    ensures StartsWith(t, p) == Ok(p == [] || exists s :: s in Words(t) && LowerString(p) <= s)
    decreases p
  {
    if p != [] {
      var i := CharToIndex(p[0]).value;
      LowerStringCons(p[0], p[1..]);
      assert p == [p[0]] + p[1..];
      assert LowerString(p) == [SlotLetter(i)] + LowerString(p[1..]);
      ExtensionsThroughSlot(t, i, LowerString(p[1..]));
      if t.children[i].Some? {
        var child := t.children[i].value;
        StartsWithIsPrefixMembership(child, p[1..]);
        if p[1..] == [] {
          var s' :| s' in Words(child);
          ExtensionLifts(t, i, LowerString(p[1..]), s');
        }
      }
    }
  }

  /** Replacing the child in slot `i` by one holding one more word adds that
      word, behind the slot's letter, to the parent. */
  lemma ReplaceChildAddsWord(n: TrieNode, i: nat, c': TrieNode, x: string)
    requires Valid(n) && i < 26 && Valid(c')
    requires Words(c') == (if n.children[i].Some? then Words(n.children[i].value) else {}) + {x}
    ensures Valid(n.(children := n.children[i := Some(c')]))
    ensures Words(n.(children := n.children[i := Some(c')])) == Words(n) + {[SlotLetter(i)] + x}
  {
    var r := n.(children := n.children[i := Some(c')]);
    var y := [SlotLetter(i)] + x;
    assert y[1..] == x;
    WordsMember(r, y);
    forall s | s != y ensures s in Words(r) <==> s in Words(n) {
      ReplaceChildKeepsOtherWord(n, i, c', x, s);
    }
  }

  /** The other words of the parent are those it had before. */
  lemma ReplaceChildKeepsOtherWord(n: TrieNode, i: nat, c': TrieNode, x: string, s: string)
    requires Valid(n) && i < 26 && Valid(c')
    requires Words(c') == (if n.children[i].Some? then Words(n.children[i].value) else {}) + {x}
    requires s != [SlotLetter(i)] + x
    ensures s in Words(n.(children := n.children[i := Some(c')])) <==> s in Words(n)
  {
    var r := n.(children := n.children[i := Some(c')]);
    WordsMember(r, s);
    WordsMember(n, s);
    if s != [] && s[0] == SlotLetter(i) {
      assert s == [SlotLetter(i)] + s[1..];
    }
  }

  /** Replacing a child by a trimmed subtree that holds a word keeps the
      parent trimmed. */
  lemma ReplaceChildKeepsTrimmed(n: TrieNode, i: nat, c': TrieNode)
    requires Trimmed(n) && i < |n.children| && Trimmed(c') && Words(c') != {}
    ensures Trimmed(n.(children := n.children[i := Some(c')]))
  {
  }

  /** Inserting a word adds exactly its lower-case spelling to the abstraction,
      and keeps every subtree non-empty. */
  lemma {:induction false} InsertAddsWord(n: TrieNode, w: string)
    requires Valid(n) && IsAsciiString(w) && IsLetterString(w)
    ensures Insert(n, w).Ok?
    ensures Words(Insert(n, w).value) == Words(n) + {LowerString(w)}
    ensures Trimmed(n) ==> Trimmed(Insert(n, w).value)
    decreases w
  {
    if w != [] {
      var i := CharToIndex(w[0]).value;
      var child := if n.children[i].Some? then n.children[i].value else EmptyNode();
      InsertAddsWord(child, w[1..]);
      var child' := Insert(child, w[1..]).value;
      assert Insert(n, w) == Ok(n.(children := n.children[i := Some(child')]));
      ReplaceChildAddsWord(n, i, child', LowerString(w[1..]));
      if Trimmed(n) {
        ReplaceChildKeepsTrimmed(n, i, child');
      }
      LowerStringCons(w[0], w[1..]);
      assert w == [w[0]] + w[1..];
    }
  }

  /** A fresh trie: `starts_with("")` holds, `search` holds of nothing, and a
      non-empty query panics exactly when its first character is not a letter. */
  lemma NewTrieQueries(w: string)
    requires IsAsciiString(w)
    ensures StartsWith(New(), []) == Ok(true)
    ensures Search(New(), w) == (if w != [] && !IsLetter(w[0]) then Err(NotAnAlphabet(w[0])) else Ok(false))
  {
  }

  /** `search` holds only of words the walk completes, so only of letters. */
  lemma {:induction false} WalkFoundMeansLetters(n: TrieNode, w: string)
    requires Valid(n) && IsAsciiString(w)
    requires Walk(n, w).Ok? && Walk(n, w).value.Some?
    ensures IsLetterString(w)
    decreases w
  {
    if w != [] {
      var i := CharToIndex(w[0]).value;
      WalkFoundMeansLetters(n.children[i].value, w[1..]);
      assert forall k :: 1 <= k < |w| ==> w[k] == w[1..][k - 1];
    }
  }

  /** Upper- and lower-case spellings walk to the same node. */
  lemma {:induction false} WalkIgnoresCase(n: TrieNode, w: string)
    requires Valid(n) && IsAsciiString(w)
    ensures IsAsciiString(LowerString(w))
    ensures Walk(n, w) == Walk(n, LowerString(w))
    decreases w
  {
    if w != [] {
      LowerStringCons(w[0], w[1..]);
      assert w == [w[0]] + w[1..];
      var lw := LowerString(w);
      assert lw[0] == ToLower(w[0]) && lw[1..] == LowerString(w[1..]);
      if IsLetter(w[0]) {
        var i := CharToIndex(w[0]).value;
        assert CharToIndex(lw[0]) == Ok(i);
        if n.children[i].Some? {
          WalkIgnoresCase(n.children[i].value, w[1..]);
        }
      }
    }
  }

  /** Case folding: `search` and `starts_with` cannot tell `w` from its
      lower-case spelling. */
  lemma QueriesIgnoreCase(t: TrieNode, w: string)
    requires Valid(t) && IsAsciiString(w)
    ensures IsAsciiString(LowerString(w))
    ensures Search(t, w) == Search(t, LowerString(w))
    ensures StartsWith(t, w) == StartsWith(t, LowerString(w))
  {
    WalkIgnoresCase(t, w);
  }

  /** Insert only creates nodes and sets flags: a path that existed still exists
      and a marked end stays marked. */
  lemma {:induction false} InsertKeepsPaths(n: TrieNode, v: string, p: string)
    requires Valid(n) && IsAsciiString(v) && IsLetterString(v) && IsAsciiString(p)
    requires Walk(n, p).Ok? && Walk(n, p).value.Some?
    ensures Insert(n, v).Ok?
    ensures Walk(Insert(n, v).value, p).Ok? && Walk(Insert(n, v).value, p).value.Some?
    ensures Walk(n, p).value.value.isEndOfWord ==> Walk(Insert(n, v).value, p).value.value.isEndOfWord
    decreases p
  {
    InsertAddsWord(n, v);
    var n' := Insert(n, v).value;
    if p != [] {
      var i := CharToIndex(p[0]).value;
      if v != [] && CharToIndex(v[0]).value == i {
        InsertKeepsPaths(n.children[i].value, v[1..], p[1..]);
      } else {
        assert n'.children[i] == n.children[i];
      }
    }
  }

  /** Monotonicity of insert: what `search` or `starts_with` accepted before an
      insert it still accepts after. */
  lemma InsertIsMonotone(t: TrieNode, v: string, w: string)
    requires Valid(t) && IsAsciiString(v) && IsLetterString(v) && IsAsciiString(w)
    ensures Insert(t, v).Ok?
    ensures Search(t, w) == Ok(true) ==> Search(Insert(t, v).value, w) == Ok(true)
    ensures StartsWith(t, w) == Ok(true) ==> StartsWith(Insert(t, v).value, w) == Ok(true)
  {
    InsertAddsWord(t, v);
    if Walk(t, w).Ok? && Walk(t, w).value.Some? {
      InsertKeepsPaths(t, v, w);
    }
  }

  /** After `insert(w)`, `search(w)` holds, and so does `starts_with` of every
      prefix of `w`. */
  lemma InsertThenQuery(t: TrieNode, w: string, k: nat)
    requires Wf(t) && IsAsciiString(w) && IsLetterString(w) && k <= |w|
    ensures Insert(t, w).Ok?
    ensures Search(Insert(t, w).value, w) == Ok(true)
    ensures StartsWith(Insert(t, w).value, w[..k]) == Ok(true)
  {
    InsertAddsWord(t, w);
    var t' := Insert(t, w).value;
    SearchIsMembership(t', w);
    StartsWithIsPrefixMembership(t', w[..k]);
    assert LowerString(w[..k]) <= LowerString(w);
  }

  /** The walk panics exactly when it reaches a non-letter: the first
      non-letter of `w` follows a prefix whose path exists. */
  lemma {:induction false} WalkPanicsAtNonLetter(n: TrieNode, w: string)
    requires Valid(n) && IsAsciiString(w)
    ensures Walk(n, w).Err? <==>
      exists k :: 0 <= k < |w| && !IsLetter(w[k]) && IsLetterString(w[..k]) && StartsWith(n, w[..k]) == Ok(true)
    decreases w
  {
    if w == [] {
    } else if !IsLetter(w[0]) {
      assert w[..0] == [];
      assert StartsWith(n, w[..0]) == Ok(true);
    } else {
      var i := CharToIndex(w[0]).value;
      if n.children[i].Some? {
        var child := n.children[i].value;
        WalkPanicsAtNonLetter(child, w[1..]);
        if Walk(n, w).Err? {
          var k' :| 0 <= k' < |w[1..]| && !IsLetter(w[1..][k']) && IsLetterString(w[1..][..k'])
            && StartsWith(child, w[1..][..k']) == Ok(true);
          PrefixThroughSlot(n, w, k' + 1);
          assert w[1..][k'] == w[k' + 1];
        } else {
          forall k | 0 <= k < |w| && !IsLetter(w[k]) && IsLetterString(w[..k])
            ensures StartsWith(n, w[..k]) != Ok(true)
          {
            PrefixThroughSlot(n, w, k);
            assert w[1..][k - 1] == w[k];
          }
        }
      } else {
        forall k | 1 <= k <= |w| ensures StartsWith(n, w[..k]) == Ok(false) {
          PrefixThroughSlot(n, w, k);
        }
      }
    }
  }

  /** Walking a non-empty prefix of a word that starts with a letter goes
      through that letter's slot first. */
  lemma PrefixThroughSlot(n: TrieNode, w: string, k: nat)
    requires Valid(n) && IsAsciiString(w) && 1 <= k <= |w| && IsLetter(w[0])
    ensures IsLetterString(w[..k]) <==> IsLetterString(w[1..][..k - 1])
    ensures StartsWith(n, w[..k]) ==
      var i := CharToIndex(w[0]).value;
      if n.children[i].None? then Ok(false) else StartsWith(n.children[i].value, w[1..][..k - 1])
  {
    assert w[..k][0] == w[0];
    assert w[..k][1..] == w[1..][..k - 1];
  }

  lemma UnionStep(a: set<string>, x: string, b: set<string>)
    ensures (a + {x}) + b == a + ({x} + b)
  {
  }

  /** Building adds exactly the lower-case spellings of its lines. */
  lemma {:induction false} BuildStoresLines(t: TrieNode, lines: seq<string>)
    requires Wf(t)
    requires forall k :: 0 <= k < |lines| ==> IsAsciiString(lines[k]) && IsLetterString(lines[k])
    ensures Build(t, lines).Ok?
    ensures Wf(Build(t, lines).value)
    ensures Words(Build(t, lines).value) == Words(t) + LowerLines(lines)
    decreases |lines|, t
  {
    if lines != [] {
      InsertAddsWord(t, lines[0]);
      var t' := Insert(t, lines[0]).value;
      var rest := lines[1..];
      assert forall k :: 0 <= k < |rest| ==> rest[k] == lines[k + 1];
      BuildStoresLines(t', rest);
      assert Build(t, lines) == Build(t', rest);
      UnionStep(Words(t), LowerString(lines[0]), LowerLines(rest));
    }
  }

  lemma LowerWordIsItsOwnSpelling(s: string)
    requires IsLowerWord(s)
    ensures LowerString(s) == s
  {
  }

  /** A list of lower-case words is its own set of lower-case spellings. */
  lemma LowerLinesOfLowerWords(lines: seq<string>)
    requires forall k :: 0 <= k < |lines| ==> IsLowerWord(lines[k])
    ensures forall s :: s in LowerLines(lines) <==> s in lines
  {
    forall k | 0 <= k < |lines| ensures LowerString(lines[k]) == lines[k] {
      LowerWordIsItsOwnSpelling(lines[k]);
    }
  }

  /** Building a fresh trie from a list of words and querying it: `search`
      is membership of the lowered query among the lowered lines, and
      `starts_with` is being a prefix of one of them. */
  lemma BuildThenQuery(lines: seq<string>, w: string)
    requires forall k :: 0 <= k < |lines| ==> IsAsciiString(lines[k]) && IsLetterString(lines[k])
    requires IsAsciiString(w) && IsLetterString(w)
    ensures Build(New(), lines).Ok?
    ensures Search(Build(New(), lines).value, w) == Ok(LowerString(w) in LowerLines(lines))
    ensures StartsWith(Build(New(), lines).value, w)
      == Ok(w == [] || exists s :: s in LowerLines(lines) && LowerString(w) <= s)
  {
    BuildStoresLines(New(), lines);
    var t := Build(New(), lines).value;
    SearchIsMembership(t, w);
    StartsWithIsPrefixMembership(t, w);
  }

  /** Being a prefix of a stored spelling of lower-case lines is being a
      prefix of one of the lines. */
  lemma PrefixAmongLowerLines(lines: seq<string>, q: string)
    requires forall k :: 0 <= k < |lines| ==> IsLowerWord(lines[k])
    ensures (exists s :: s in LowerLines(lines) && q <= s)
      <==> (exists k :: 0 <= k < |lines| && q <= lines[k])
  {
    LowerLinesOfLowerWords(lines);
    if k :| 0 <= k < |lines| && q <= lines[k] {
      assert lines[k] in LowerLines(lines);
    }
  }

  /** The same for a list of lower-case words and a lower-case query, in
      terms of the list alone. */
  lemma BuildLowerWordsThenQuery(lines: seq<string>, q: string)
    requires forall k :: 0 <= k < |lines| ==> IsLowerWord(lines[k])
    requires IsLowerWord(q)
    ensures forall k :: 0 <= k < |lines| ==> IsAsciiString(lines[k]) && IsLetterString(lines[k])
    ensures IsAsciiString(q)
    ensures Build(New(), lines).Ok?
    ensures Search(Build(New(), lines).value, q) == Ok(q in lines)
    ensures StartsWith(Build(New(), lines).value, q)
      == Ok(q == [] || exists k :: 0 <= k < |lines| && q <= lines[k])
  {
    LowerWordIsItsOwnSpelling(q);
    LowerLinesOfLowerWords(lines);
    PrefixAmongLowerLines(lines, q);
    BuildThenQuery(lines, q);
  }

  /** The five words of the trie's unit test. */
  const ScenarioLines: seq<string> := ["apple", "app", "banana", "bat", "ball"]

  /** The unit test, part 1: after inserting its five words, `search` finds
      the ones it asks about. */
  lemma ScenarioSearchFinds(lines: seq<string>, q: string)
    requires lines == ScenarioLines
    requires q in ["apple", "app", "banana", "ball"]
    ensures Build(New(), lines).Ok?
    ensures Search(Build(New(), lines).value, q) == Ok(true)
  {
    assert IsLowerWord(q) && q in lines;
    BuildLowerWordsThenQuery(lines, q);
  }

  /** The unit test, part 2: strict prefixes that were never inserted are not
      found by `search`. */
  lemma ScenarioSearchMisses(lines: seq<string>, q: string)
    requires lines == ScenarioLines
    requires q in ["ban", "b"]
    ensures Build(New(), lines).Ok?
    ensures Search(Build(New(), lines).value, q) == Ok(false)
  {
    assert IsLowerWord(q) && q !in lines;
    BuildLowerWordsThenQuery(lines, q);
  }

  /** The unit test, part 3: `starts_with` holds of "b", "ba" and "ball". */
  lemma ScenarioPrefixFinds(lines: seq<string>, q: string)
    requires lines == ScenarioLines
    requires q in ["b", "ba", "ball"]
    ensures Build(New(), lines).Ok?
    ensures StartsWith(Build(New(), lines).value, q) == Ok(true)
  {
    assert IsLowerWord(q) && q <= lines[4];
    BuildLowerWordsThenQuery(lines, q);
  }

  /** The unit test, part 4: `starts_with` fails on "ballistic" and "cackle",
      which extend no stored word's path to the end. */
  lemma ScenarioPrefixMisses(lines: seq<string>, q: string)
    requires lines == ScenarioLines
    requires q in ["ballistic", "cackle"]
    ensures Build(New(), lines).Ok?
    ensures StartsWith(Build(New(), lines).value, q) == Ok(false)
  {
    assert IsLowerWord(q) && q != [];
    forall k | 0 <= k < |lines| ensures !(q <= lines[k]) {
      assert |lines[k]| < |"ballistic"| && lines[k][0] != 'c';
    }
    BuildLowerWordsThenQuery(lines, q);
  }
}
