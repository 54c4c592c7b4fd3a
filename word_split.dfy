/** Tokenising text the way countWords and countUniqueWords do it:
    String.split with the pattern [^a-zA-Z0-9']+ (every run of characters other
    than ASCII letters, digits and the single quote is one separator), and the
    lower-casing of the tokens before they are compared. */
module WordSplit {

  /** A character of the class [a-zA-Z0-9']: part of a word. */
  predicate IsWordChar(c: char) {
    ('a' <= c <= 'z') || ('A' <= c <= 'Z') || ('0' <= c <= '9') || c == '\''
  }

  /** A non-empty run of word characters. */
  ghost predicate IsWord(w: seq<char>) {
    w != [] && forall k :: 0 <= k < |w| ==> IsWordChar(w[k])
  }

  /** The first separator character at or after `i`, or |s| when there is none. */
  function NextSeparator(s: seq<char>, i: nat): (j: nat)
    requires i <= |s|
    ensures i <= j <= |s|
    ensures forall k :: i <= k < j ==> IsWordChar(s[k])
    ensures j < |s| ==> !IsWordChar(s[j])
    decreases |s| - i
  {
    if i == |s| || !IsWordChar(s[i]) then i else NextSeparator(s, i + 1)
  }

  /** The first word character at or after `i`, or |s| when there is none: the end
      of the separator run that starts at `i`. */
  function NextWordChar(s: seq<char>, i: nat): (j: nat)
    requires i <= |s|
    ensures i <= j <= |s|
    ensures forall k :: i <= k < j ==> !IsWordChar(s[k])
    ensures j < |s| ==> IsWordChar(s[j])
    decreases |s| - i
  {
    if i == |s| || IsWordChar(s[i]) then i else NextWordChar(s, i + 1)
  }

  /** The pieces String.split collects from offset `i` on, before trailing empty
      pieces are removed: the text up to the next separator run, then the pieces
      after that run; the piece after the last run is the rest of the text. */
  function Pieces(s: seq<char>, i: nat): (ps: seq<seq<char>>)
    requires i <= |s|
    ensures ps != []
    decreases |s| - i
  {
    var j := NextSeparator(s, i);
    if j == |s| then [s[i..]] else [s[i..j]] + Pieces(s, NextWordChar(s, j))
  }

  /** Removes the empty pieces at the end, as split with limit 0 does. */
  function DropTrailingEmpty(ps: seq<seq<char>>): (r: seq<seq<char>>)
    ensures |r| <= |ps| && r == ps[..|r|]
    ensures r == [] || r[|r| - 1] != []
    ensures forall k :: |r| <= k < |ps| ==> ps[k] == []
  {
    if ps == [] || ps[|ps| - 1] != [] then ps else DropTrailingEmpty(ps[..|ps| - 1])
  }

  /** String.split(s, "[^a-zA-Z0-9']+"): with no separator in `s` the whole text is
      the only token (so the empty text gives one empty token); otherwise the
      pieces between separator runs, without the empty ones at the end. */
  function Split(s: seq<char>): seq<seq<char>> {
    if NextSeparator(s, 0) == |s| then [s] else DropTrailingEmpty(Pieces(s, 0))
  }

  /** The words of `s` from offset `i` on: its maximal runs of word characters,
      left to right. This is the independent description Split is compared with. */
  function Words(s: seq<char>, i: nat): (ws: seq<seq<char>>)
    requires i <= |s|
    ensures forall k :: 0 <= k < |ws| ==> IsWord(ws[k])
    decreases |s| - i
  {
    var a := NextWordChar(s, i);
    if a == |s| then [] else
      var b := NextSeparator(s, a);
      [s[a..b]] + Words(s, b)
  }

  /** `w` sits in `s` at offset `a` (at or after `i`) as a maximal run of word
      characters of s[i..]: it starts at `i` or after a separator, and it ends at
      the end of the text or before a separator. */
  ghost predicate RunAt(s: seq<char>, i: nat, a: nat, w: seq<char>) {
    i <= a && a + |w| <= |s| && s[a..a + |w|] == w &&
    (a == i || !IsWordChar(s[a - 1])) &&
    (a + |w| == |s| || !IsWordChar(s[a + |w|]))
  }

  /** A run found past the separator at `b` is maximal from any earlier offset
      too: it cannot start right at `b`, where a separator stands. */
  lemma RunPastSeparator(s: seq<char>, i: nat, b: nat, a: nat, w: seq<char>)
    requires i <= b && RunAt(s, b, a, w) && IsWord(w)
    requires b < |s| && !IsWordChar(s[b])
    ensures RunAt(s, i, a, w)
  {
  }

  /** Every word is a maximal run of word characters of the text. */
  lemma {:induction false} WordsAreRuns(s: seq<char>, i: nat, k: nat)
    requires i <= |s| && k < |Words(s, i)|
    ensures exists a :: RunAt(s, i, a, Words(s, i)[k])
    decreases |s| - i
  {
    var a := NextWordChar(s, i);
    var b := NextSeparator(s, a);
    var ws, rest := Words(s, i), Words(s, b);
    assert ws == [s[a..b]] + rest;
    if k == 0 {
      assert s[a..a + |ws[0]|] == ws[0];
      assert RunAt(s, i, a, ws[0]);
    } else {
      assert ws[k] == rest[k - 1];
      WordsAreRuns(s, b, k - 1);
      var a' :| RunAt(s, b, a', rest[k - 1]);
      RunPastSeparator(s, i, b, a', rest[k - 1]);
    }
  }

  /** Every word character of the text lies inside one of the words. */
  lemma WordCharsAreInWords(s: seq<char>, i: nat, m: nat)
    requires i <= m < |s| && IsWordChar(s[m])
    ensures exists k: nat, a: nat :: k < |Words(s, i)| && a <= m < a + |Words(s, i)[k]| && RunAt(s, i, a, Words(s, i)[k])
  {
    var k, a := WordAround(s, i, m);
  }

  /** The word `k` around the word character at `m`, and its offset `a`. */
  lemma {:induction false} WordAround(s: seq<char>, i: nat, m: nat) returns (k: nat, a: nat)
    requires i <= m < |s| && IsWordChar(s[m])
    ensures k < |Words(s, i)| && a <= m < a + |Words(s, i)[k]| && RunAt(s, i, a, Words(s, i)[k])
    decreases |s| - i
  {
    a := NextWordChar(s, i);
    var b := NextSeparator(s, a);
    var ws, rest := Words(s, i), Words(s, b);
    assert ws == [s[a..b]] + rest;
    if m < b {
      k := 0;
      assert s[a..a + |ws[0]|] == ws[0];
    } else {
      var k', a' := WordAround(s, b, m);
      RunPastSeparator(s, i, b, a', rest[k']);
      k, a := k' + 1, a';
      assert ws[k] == rest[k'];
    }
  }

  /** Skipping separators first does not change the words found. */
  lemma WordsSkipSeparators(s: seq<char>, i: nat)
    requires i <= |s|
    ensures Words(s, i) == Words(s, NextWordChar(s, i))
  {
    var a := NextWordChar(s, i);
    assert NextWordChar(s, a) == a;
  }

  /** From the start of a word (or the end of the text), the pieces are the words,
      followed by one empty piece when the text ends with a separator run. */
  lemma {:induction false} PiecesAreWords(s: seq<char>, i: nat)
    requires i <= |s| && NextWordChar(s, i) == i
    ensures Pieces(s, i) == Words(s, i) || Pieces(s, i) == Words(s, i) + [[]]
    decreases |s| - i
  {
    var j := NextSeparator(s, i);
    if i < |s| {
      assert Words(s, i) == [s[i..j]] + Words(s, j);
      if j < |s| {
        var a := NextWordChar(s, j);
        assert a > j;
        WordsSkipSeparators(s, j);
        PiecesAreWords(s, a);
        var w, e: seq<char> := s[i..j], [];
        assert [w] + (Words(s, a) + [e]) == [w] + Words(s, a) + [e];
      } else {
        assert Words(s, |s|) == [];
        assert s[i..j] == s[i..];
      }
    } else {
      assert s[i..] == [];
      assert Pieces(s, i) == [[]] && Words(s, i) == [];
    }
  }

  /** Removing empty pieces at the end does not see past the last non-empty one. */
  lemma DropTrailingEmptyKeeps(ps: seq<seq<char>>, qs: seq<seq<char>>)
    requires forall k :: 0 <= k < |qs| ==> qs[k] != []
    ensures DropTrailingEmpty(ps + qs) == ps + qs || qs == []
    ensures DropTrailingEmpty(ps + qs + [[]]) == DropTrailingEmpty(ps + qs)
  {
    var r := ps + qs;
    assert (r + [[]])[..|r + [[]]| - 1] == r;
    if qs != [] {
      assert r[|r| - 1] == qs[|qs| - 1];
    }
  }

  /** Text with a separator: the first piece is the text before it, and the rest
      are the words after it, perhaps followed by one empty piece. */
  lemma PiecesAfterFirst(s: seq<char>)
    requires NextSeparator(s, 0) < |s|
    ensures var j := NextSeparator(s, 0);
      Pieces(s, 0)[0] == s[..j] &&
      (Pieces(s, 0)[1..] == Words(s, j) || Pieces(s, 0)[1..] == Words(s, j) + [[]])
  {
    var j := NextSeparator(s, 0);
    var a := NextWordChar(s, j);
    assert Pieces(s, 0) == [s[0..j]] + Pieces(s, a);
    PiecesAreWords(s, a);
    WordsSkipSeparators(s, j);
  }

  /** Split described by the words: the empty text gives one empty token, text
      without words gives none, and otherwise the tokens are the words, preceded by
      one empty token when the text starts with a separator. */
  lemma SplitIsWords(s: seq<char>)
    ensures Split(s) ==
      if s == [] then [[]]
      else if Words(s, 0) == [] then []
      else (if IsWordChar(s[0]) then [] else [[]]) + Words(s, 0)
  {
    var j := NextSeparator(s, 0);
    if j == |s| {
      SplitWithoutSeparator(s);
    } else if j == 0 {
      SplitLeadingSeparator(s);
    } else {
      SplitLeadingWord(s);
    }
  }

  /** Text without a separator is its own only token, and its only word when it
      is not empty. */
  lemma SplitWithoutSeparator(s: seq<char>)
    requires NextSeparator(s, 0) == |s|
    ensures Split(s) == [s]
    ensures s != [] ==> IsWordChar(s[0]) && Words(s, 0) == [s]
  {
    if s != [] {
      assert IsWordChar(s[0]) && NextWordChar(s, 0) == 0;
      assert Words(s, 0) == [s[0..|s|]] + Words(s, |s|);
      assert s[0..|s|] == s;
    }
  }

  /** Text that starts with a separator: one empty token, then the words, or no
      token at all when there is no word. */
  lemma SplitLeadingSeparator(s: seq<char>)
    requires NextSeparator(s, 0) == 0 < |s|
    ensures !IsWordChar(s[0])
    ensures Split(s) == if Words(s, 0) == [] then [] else [[]] + Words(s, 0)
  {
    PiecesAfterFirst(s);
    var ps, ws := Pieces(s, 0), Words(s, 0);
    var e: seq<char> := [];
    assert ps == [ps[0]] + ps[1..];
    assert ps[0] == e;
    WordsSkipSeparators(s, 0);
    DropTrailingEmptyKeeps([e], ws);
    if ws == [] {
      assert ps == [e] || ps == [e] + ws + [e];
      assert DropTrailingEmpty([e]) == [];
    } else {
      assert ps == [e] + ws || ps == [e] + ws + [e];
    }
  }

  /** Text that starts with a word and has a separator: the tokens are the words. */
  lemma SplitLeadingWord(s: seq<char>)
    requires 0 < NextSeparator(s, 0) < |s|
    ensures IsWordChar(s[0]) && Words(s, 0) != []
    ensures Split(s) == Words(s, 0)
  {
    var j := NextSeparator(s, 0);
    PiecesAfterFirst(s);
    var ps, ws := Pieces(s, 0), Words(s, j);
    assert ps == [ps[0]] + ps[1..];
    assert IsWordChar(s[0]) && NextWordChar(s, 0) == 0;
    assert Words(s, 0) == [s[0..j]] + ws;
    assert s[0..j] == ps[0] != [];
    DropTrailingEmptyKeeps([ps[0]], ws);
    assert ps == [ps[0]] + ws || ps == [ps[0]] + ws + [[]];
  }

  /** Every token split produces is made of word characters only (it may be
      empty), so the tokens never hold anything but ASCII letters, digits and
      single quotes. */
  lemma SplitTokensAreWordChars(s: seq<char>, k: nat)
    requires k < |Split(s)|
    ensures forall m :: 0 <= m < |Split(s)[k]| ==> IsWordChar(Split(s)[k][m])
  {
    SplitIsWords(s);
    var ws := Words(s, 0);
    if s != [] && ws != [] && !IsWordChar(s[0]) && k > 0 {
      assert Split(s)[k] == ws[k - 1];
    }
  }

  /** The lower-case form of a character, for the ASCII letters that can appear in
      a token; String.toLowerCase maps them the same way. An upper-case letter
      becomes the lower-case letter at the same place in the alphabet, every other
      character stays; no upper-case letter is left, and the result is a word
      character exactly when the input is one. */
  function LowerChar(c: char): (d: char)
    ensures 'A' <= c <= 'Z' ==> 'a' <= d <= 'z' && d as int - 'a' as int == c as int - 'A' as int
    ensures !('A' <= c <= 'Z') ==> d == c
    ensures !('A' <= d <= 'Z')
    ensures IsWordChar(d) <==> IsWordChar(c)
  {
    if 'A' <= c <= 'Z' then (c as int + 32) as char else c
  }

  /** String.toLowerCase on a token. */
  function ToLower(w: seq<char>): (r: seq<char>)
    ensures |r| == |w|
    ensures forall k :: 0 <= k < |w| ==> r[k] == LowerChar(w[k])
  {
    if w == [] then [] else [LowerChar(w[0])] + ToLower(w[1..])
  }

  /** Lower-casing leaves no upper-case letter behind and is idempotent. */
  lemma ToLowerIdempotent(w: seq<char>)
    ensures forall k :: 0 <= k < |ToLower(w)| ==> !('A' <= ToLower(w)[k] <= 'Z')
    ensures ToLower(ToLower(w)) == ToLower(w)
  {
  }

  /** The set of lower-cased tokens of `ws`, as the HashSet in countUniqueWords
      holds it after adding `ws` in order. */
  function LowerCased(ws: seq<seq<char>>): set<seq<char>> {
    if ws == [] then {} else LowerCased(ws[..|ws| - 1]) + {ToLower(ws[|ws| - 1])}
  }

  /** A string is in LowerCased(ws) exactly when it is the lower-case form of
      one of the tokens. */
  lemma LowerCasedMembers(ws: seq<seq<char>>, t: seq<char>)
    ensures t in LowerCased(ws) <==> exists k :: 0 <= k < |ws| && ToLower(ws[k]) == t
  {
    if t in LowerCased(ws) {
      var k := LowerCasedSource(ws, t);
    }
    if exists k :: 0 <= k < |ws| && ToLower(ws[k]) == t {
      var k :| 0 <= k < |ws| && ToLower(ws[k]) == t;
      LowerCasedHas(ws, k);
    }
  }

  /** The lower-cased form of each token is in the set. */
  lemma {:induction false} LowerCasedHas(ws: seq<seq<char>>, k: nat)
    requires k < |ws|
    ensures ToLower(ws[k]) in LowerCased(ws)
    decreases |ws|
  {
    var init := ws[..|ws| - 1];
    if k < |init| {
      LowerCasedHas(init, k);
      assert init[k] == ws[k];
    }
  }

  /** Each element of the set comes from some token `k`. */
  lemma {:induction false} LowerCasedSource(ws: seq<seq<char>>, t: seq<char>) returns (k: nat)
    requires t in LowerCased(ws)
    ensures k < |ws| && ToLower(ws[k]) == t
    decreases |ws|
  {
    var init := ws[..|ws| - 1];
    if t == ToLower(ws[|ws| - 1]) {
      k := |ws| - 1;
    } else {
      k := LowerCasedSource(init, t);
      assert init[k] == ws[k];
    }
  }


  /** There are never more distinct lower-cased tokens than tokens, and there is
      at least one as soon as there is a token. */
  lemma {:induction false} LowerCasedSize(ws: seq<seq<char>>)
    ensures |LowerCased(ws)| <= |ws|
    ensures ws != [] ==> |LowerCased(ws)| >= 1
    decreases |ws|
  {
    if ws != [] {
      LowerCasedSize(ws[..|ws| - 1]);
    }
  }
}
