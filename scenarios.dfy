/** Worked examples of the operations on concrete texts. */
module Scenarios {
  import opened TextSearch
  import opened WordSplit
  import FileUtilities

  /** The documented example: "wonder" sits at offset 7 of "What a wonderful world". */
  lemma WonderIsAtSeven()
    ensures Occurrences("What a wonderful world", "wonder", 0) == [7]
  {
    var s, t := "What a wonderful world", "wonder";
    assert s[7..13] == t;
    MatchAtSlice(s, t, 7);
    forall k | 0 <= k < 7 || 13 <= k < 23
      ensures !MatchAt(s, t, k)
    {
      if k + |t| <= |s| {
        assert s[k] != t[0];
      }
    }
    assert IsGreedyScan(s, t, 13, []);
    assert [7][1..] == [];
    GreedyScanIsUnique(s, t, 0, [7]);
  }

  /** "cat" occurs at offsets 0 and 8 of "cat hat cat"; the "at" of "hat" is no hit. */
  lemma CatOccurrences()
    ensures Occurrences("cat hat cat", "cat", 0) == [0, 8]
    ensures Occurrences("cat hat cat", "cat", 3) == [8]
    ensures Occurrences("cat hat cat", "cat", 11) == []
  {
    var s, o := "cat hat cat", "cat";
    assert s[0..3] == o && s[8..11] == o;
    MatchAtSlice(s, o, 0);
    MatchAtSlice(s, o, 8);
    forall k | 3 <= k < 8 || 11 <= k < 12
      ensures !MatchAt(s, o, k)
    {
      if k + |o| <= |s| {
        assert s[k] != o[0];
      }
    }
    assert IsGreedyScan(s, o, 11, []);
    assert [0, 8][1..] == [8] && [8][1..] == [];
    GreedyScanIsUnique(s, o, 0, [0, 8]);
    GreedyScanIsUnique(s, o, 3, [8]);
    GreedyScanIsUnique(s, o, 11, []);
  }

  /** The first hits indexOf reports for "cat" in "cat hat cat": offset 0 from the
      start, offset 8 from the end of the first hit, and none from the end. */
  lemma CatHits()
    ensures IndexOf("cat hat cat", "cat", 0) == 0
    ensures IndexOf("cat hat cat", "cat", 3) == 8
    ensures IndexOf("cat hat cat", "cat", 11) == -1
  {
    var s, o := "cat hat cat", "cat";
    assert s[0..3] == o && s[8..11] == o;
    MatchAtSlice(s, o, 0);
    MatchAtSlice(s, o, 8);
    forall k | 3 <= k < 8
      ensures !MatchAt(s, o, k)
    {
      assert s[k] != o[0];
    }
    IndexOfFindsFirst(s, o, 3, 8);
  }

  /** Replacing "cat" by "dog" in "cat hat cat" gives "dog hat dog". */
  lemma CatsBecomeDogs()
    ensures ReplaceFrom("cat hat cat", "cat", "dog", 0) == "dog hat dog"
  {
    var s, o, n := "cat hat cat", "cat", "dog";
    CatHits();
    ReplaceFromStep(s, o, n, 0, 0, 3);
    ReplaceFromStep(s, o, n, 3, 8, 11);
    assert ReplaceFrom(s, o, n, 11) == [];
    DogsAroundHat(s, n);
  }

  /** The pieces the two replacements of "cat hat cat" leave, put together. */
  lemma DogsAroundHat(s: seq<char>, n: seq<char>)
    requires s == "cat hat cat" && n == "dog"
    ensures s[0..0] + n + (s[3..8] + n + []) == "dog hat dog"
  {
  }

  /** A text that starts with a separator gives a leading empty token, which
      countWords counts: ", it's" splits into "" and "it's". */
  lemma LeadingSeparatorCounts()
    ensures Split(", it's") == [[], "it's"]
    ensures FileUtilities.CountWords(", it's") == 2
  {
    var s := ", it's";
    assert NextWordChar(s, 0) == 2;
    assert NextSeparator(s, 2) == 6;
    assert Words(s, 6) == [];
    assert Words(s, 0) == [s[2..6]] + Words(s, 6);
    assert s[2..6] == "it's";
    SplitIsWords(s);
  }

  /** A text of separators only has no tokens at all. */
  lemma SeparatorsOnlyCountNone()
    ensures FileUtilities.CountWords(" ,. ") == 0
  {
  }
}
