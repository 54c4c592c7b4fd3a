/** The text operations of FileUtilities: searchAll, replace, countWords and
    countUniqueWords. Java's null arguments are Option.None for strings and a
    null reference for the buffer. */
module FileUtilities {
  import opened Optional
  import opened TextSearch
  import opened WordSplit
  import opened Builder

  /** searchAll: the offsets of the non-overlapping occurrences of
      `searchString`, found left to right, or null when an argument is null or
      empty or nothing is found. Like the source, it scans the buffer twice: once
      to count the hits and once to fill an array of that size. */
  method SearchAll(fileContent: StringBuilder?, searchString: Option<seq<char>>) returns (r: array?<int>)
    ensures r == null <==>
      fileContent == null || searchString.None? || searchString.value == [] ||
      Occurrences(fileContent.content, searchString.value, 0) == []
    ensures r != null ==> r[..] == Occurrences(fileContent.content, searchString.value, 0)
    ensures r != null ==> fresh(r)
  {
    var index := -1;
    var searchCount := -1;
    var startSearchPosition := 0;
    if fileContent == null || searchString.None? || searchString.value == [] {
      return null;
    }
    var t := searchString.value;
    ghost var s := fileContent.content;
    while true
      invariant CountingPass(s, t, startSearchPosition, searchCount)
      decreases |s| - startSearchPosition
    {
      ghost var start0, count0 := startSearchPosition, searchCount;
      searchCount := searchCount + 1;
      index := fileContent.IndexOf(t, startSearchPosition);
      startSearchPosition := index + |t|;
      if index == -1 {
        CountingStop(s, t, start0, count0, searchCount);
        break;
      }
      CountingStep(s, t, start0, count0, index, startSearchPosition, searchCount);
    }
    startSearchPosition := 0;
    if searchCount > 0 {
      var indexArray := new int[searchCount];
      for i := 0 to indexArray.Length
        invariant FillingPass(s, t, startSearchPosition, indexArray[..i])
      {
        ghost var start0, stored0 := startSearchPosition, indexArray[..i];
        indexArray[i] := fileContent.IndexOf(t, startSearchPosition);
        startSearchPosition := indexArray[i] + |t|;
        assert indexArray[..i + 1] == stored0 + [indexArray[i]];
        FillingStep(s, t, start0, stored0, indexArray[i], startSearchPosition, indexArray[..i + 1]);
      }
      assert indexArray[..] == indexArray[..indexArray.Length];
      return indexArray;
    }
    return null;
  }

  /** The invariant of searchAll's counting pass: `count` + 1 hits lie before
      `start` (the counter starts at -1 because the do-while counts before it
      searches). */
  ghost predicate CountingPass(s: seq<char>, t: seq<char>, start: int, count: int) {
    |t| > 0 && 0 <= start <= |s| && count + 1 + |Occurrences(s, t, start)| == |Occurrences(s, t, 0)|
  }

  /** A round of the counting pass that hits at `p` counts it and moves the
      search past it. */
  lemma CountingStep(s: seq<char>, t: seq<char>, start: int, count: int, p: int, start': int, count': int)
    requires CountingPass(s, t, start, count)
    requires p == IndexOf(s, t, start) && p != -1 && start' == p + |t| && count' == count + 1
    ensures start < start' && CountingPass(s, t, start', count')
  {
    OccurrencesCountStep(s, t, start, p, start');
  }

  /** A round of the counting pass that misses leaves the counter at the number
      of hits. */
  lemma CountingStop(s: seq<char>, t: seq<char>, start: int, count: int, count': int)
    requires CountingPass(s, t, start, count)
    requires IndexOf(s, t, start) == -1 && count' == count + 1
    ensures count' == |Occurrences(s, t, 0)|
  {
    OccurrencesStep(s, t, start);
  }

  /** The invariant of searchAll's filling pass: the offsets stored so far are
      the first hits, and the search resumes where the rest begin. */
  ghost predicate FillingPass(s: seq<char>, t: seq<char>, start: int, stored: seq<int>) {
    |t| > 0 && 0 <= start <= |s| && |stored| <= |Occurrences(s, t, 0)| &&
    stored == Occurrences(s, t, 0)[..|stored|] &&
    Occurrences(s, t, start) == Occurrences(s, t, 0)[|stored|..]
  }

  /** A round of the filling pass, while hits remain: the next search finds the
      next one, which is stored, and the search moves past it. */
  lemma FillingStep(s: seq<char>, t: seq<char>, start: int, stored: seq<int>, p: int, start': int, stored': seq<int>)
    requires FillingPass(s, t, start, stored) && |stored| < |Occurrences(s, t, 0)|
    requires p == IndexOf(s, t, start) && start' == p + |t| && stored' == stored + [p]
    ensures FillingPass(s, t, start', stored')
  {
    var all, i := Occurrences(s, t, 0), |stored|;
    OccurrencesStep(s, t, start);
    assert all[i..][1..] == all[i + 1..];
    assert all[..i + 1] == all[..i] + [all[i]];
  }

  /** The arguments replace works with: a buffer and two non-null, non-empty strings. */
  predicate ReplaceArgsValid(fileContent: StringBuilder?, oldString: Option<seq<char>>, newString: Option<seq<char>>) {
    fileContent != null && oldString.Some? && newString.Some? && oldString.value != [] && newString.value != []
  }

  /** replace: every greedy occurrence of `oldString` in the buffer, scanning left
      to right in the ORIGINAL text, gives way to `newString`; inserted text is
      never searched again. The result is the number of replacements. With a null
      argument or an empty string nothing changes and the result is 0. */
  method Replace(fileContent: StringBuilder?, oldString: Option<seq<char>>, newString: Option<seq<char>>)
    returns (replacementCount: int)
    modifies fileContent
    ensures !ReplaceArgsValid(fileContent, oldString, newString) ==>
      replacementCount == 0 && (fileContent != null ==> fileContent.content == old(fileContent.content))
    ensures ReplaceArgsValid(fileContent, oldString, newString) ==>
      fileContent.content == ReplaceFrom(old(fileContent.content), oldString.value, newString.value, 0) &&
      replacementCount == |Occurrences(old(fileContent.content), oldString.value, 0)|
  {
    replacementCount := 0;
    var startSearchPosition := 0;
    var index := -1;
    if fileContent == null || oldString.None? || newString.None? ||
       oldString.value == [] || newString.value == [] {
      return 0;
    }
    var o, n := oldString.value, newString.value;
    ghost var orig := fileContent.content;
    ghost var final, total := ReplaceFrom(orig, o, n, 0), |Occurrences(orig, o, 0)|;
    ghost var done: seq<char>, src := [], 0;
    ReplaceStart(orig, o, n, final, total);
    while fileContent.IndexOf(o, startSearchPosition) != -1
      invariant BufferPass(orig, fileContent.content, startSearchPosition, src, done)
      invariant ResultPass(orig, o, n, src, done, final)
      invariant CountPass(orig, o, src, replacementCount, total)
      decreases |fileContent.content| - startSearchPosition
    {
      index := fileContent.IndexOf(o, startSearchPosition);
      ghost var c, q := fileContent.content, IndexOf(orig, o, src);
      ghost var start0, src0, done0, count0 := startSearchPosition, src, done, replacementCount;
      ShiftedHit(orig, o, c, startSearchPosition, src, done);
      fileContent.Replace(index, index + |o|, n);
      startSearchPosition := index + |n|;
      replacementCount := replacementCount + 1;
      done, src := done + orig[src..q] + n, q + |o|;
      BufferStep(orig, o, n, c, start0, src0, done0, index, q, fileContent.content, startSearchPosition, src, done);
      ResultStep(orig, o, n, src0, done0, final, q, src, done);
      CountStep(orig, o, src0, count0, total, q, src, replacementCount);
    }
    ReplaceStop(orig, o, n, fileContent.content, startSearchPosition, src, replacementCount, done, final, total);
  }

  /** Before the first round nothing is processed: the buffer is orig, and all
      of orig is still to be replaced. */
  lemma ReplaceStart(orig: seq<char>, o: seq<char>, n: seq<char>, final: seq<char>, total: int)
    requires |o| > 0 && final == ReplaceFrom(orig, o, n, 0) && total == |Occurrences(orig, o, 0)|
    ensures BufferPass(orig, orig, 0, 0, [])
    ensures ResultPass(orig, o, n, 0, [], final)
    ensures CountPass(orig, o, 0, 0, total)
  {
    assert orig[0..] == orig;
    assert [] + final == final;
  }

  /** The buffer half of the invariant of replace's loop, against the original
      text `orig`: the buffer `c` is the part already processed, `done`, followed
      by orig[src..], still unsearched, and the search resumes at the boundary. */
  ghost predicate BufferPass(orig: seq<char>, c: seq<char>, start: int, src: int, done: seq<char>) {
    0 <= src <= |orig| && start == |done| && c == done + orig[src..]
  }

  /** The result half of the invariant: `done` followed by the greedy replacement
      of orig[src..] is the final text. */
  ghost predicate ResultPass(orig: seq<char>, o: seq<char>, n: seq<char>, src: int, done: seq<char>, final: seq<char>) {
    |o| > 0 && 0 <= src <= |orig| && done + ReplaceFrom(orig, o, n, src) == final
  }

  /** The count half of the invariant: `count` replacements plus the greedy
      occurrences left in orig[src..] make all of them. */
  ghost predicate CountPass(orig: seq<char>, o: seq<char>, src: int, count: int, total: int) {
    |o| > 0 && 0 <= src <= |orig| && count + |Occurrences(orig, o, src)| == total
  }

  /** One round of replace's loop, on the buffer: splicing `n` in for the
      occurrence at `index` and resuming just past it keeps the buffer half of
      the invariant, with the occurrence `q` of orig left behind. */
  lemma BufferStep(orig: seq<char>, o: seq<char>, n: seq<char>, c: seq<char>, start: int, src: int,
                   done: seq<char>, index: int, q: int,
                   c': seq<char>, start': int, src': int, done': seq<char>)
    requires BufferPass(orig, c, start, src, done) && |o| > 0
    requires src <= q && q + |o| <= |orig| && 0 <= index && index + |o| <= |c| && index - start == q - src
    requires c' == c[..index] + n + c[index + |o|..] && start' == index + |n|
    requires src' == q + |o| && done' == done + orig[src..q] + n
    ensures BufferPass(orig, c', start', src', done')
    ensures |c'| - start' < |c| - start
  {
    SpliceAfterDone(orig, o, n, src, q, done, c, index, src');
    assert |c'| == |c| - |o| + |n|;
  }

  /** One round of replace's loop, on the result: the greedy replacement of
      orig[src..] begins with the text before the occurrence `q`, then `n`. */
  lemma ResultStep(orig: seq<char>, o: seq<char>, n: seq<char>, src: int, done: seq<char>, final: seq<char>,
                   q: int, src': int, done': seq<char>)
    requires ResultPass(orig, o, n, src, done, final)
    requires q == IndexOf(orig, o, src) && src <= q && q + |o| <= |orig|
    requires src' == q + |o| && done' == done + orig[src..q] + n
    ensures ResultPass(orig, o, n, src', done', final)
  {
    ReplaceFromStep(orig, o, n, src, q, src');
    MoveToDone(done, orig[src..q], n, ReplaceFrom(orig, o, n, src'), final);
  }

  /** Moving two pieces from the front of the rest to the end of the processed
      part keeps their concatenation. */
  lemma MoveToDone(done: seq<char>, a: seq<char>, b: seq<char>, rest: seq<char>, whole: seq<char>)
    requires done + (a + b + rest) == whole
    ensures done + a + b + rest == whole
  {
  }

  /** One round of replace's loop, on the count: one occurrence fewer is left. */
  lemma CountStep(orig: seq<char>, o: seq<char>, src: int, count: int, total: int,
                  q: int, src': int, count': int)
    requires CountPass(orig, o, src, count, total)
    requires q == IndexOf(orig, o, src) && src <= q
    requires src' == q + |o| && count' == count + 1
    ensures CountPass(orig, o, src', count', total)
  {
    OccurrencesCountStep(orig, o, src, q, src');
  }

  /** The buffer `done + orig[src..]` with the occurrence of `o` at `q` in orig
      spliced out for `n` is the processed part grown by orig[src..q] + n,
      followed by orig after the occurrence. */
  lemma SpliceAfterDone(orig: seq<char>, o: seq<char>, n: seq<char>, src: int, q: int, done: seq<char>, c: seq<char>,
                         index: int, next: int)
    requires 0 <= src <= q && q + |o| <= |orig| && c == done + orig[src..]
    requires index == |done| + q - src && next == q + |o|
    ensures c[..index] + n + c[index + |o|..] == done + orig[src..q] + n + orig[next..]
  {
    assert c[..index] == done + orig[src..q];
    assert c[index + |o|..] == orig[q + |o|..];
  }

  /** Where the buffer is `done` followed by orig[src..], a hit in the buffer
      after `done` is the next occurrence in orig, at the corresponding offset. */
  lemma ShiftedHit(orig: seq<char>, o: seq<char>, c: seq<char>, start: int, src: int, done: seq<char>)
    requires BufferPass(orig, c, start, src, done) && |o| > 0
    requires IndexOf(c, o, start) != -1
    ensures var q := IndexOf(orig, o, src); var index := IndexOf(c, o, start);
      src <= q && q + |o| <= |orig| && start <= index && index + |o| <= |c| && index - start == q - src
  {
    assert c[start..] == orig[src..];
    IndexOfShift(c, start, orig, src, o);
  }

  /** When the buffer holds no further hit, neither does the rest of the original
      text, so the buffer is the final text and every occurrence was replaced. */
  lemma ReplaceStop(orig: seq<char>, o: seq<char>, n: seq<char>, c: seq<char>, start: int, src: int,
                    count: int, done: seq<char>, final: seq<char>, total: int)
    requires BufferPass(orig, c, start, src, done) && ResultPass(orig, o, n, src, done, final)
    requires CountPass(orig, o, src, count, total)
    requires IndexOf(c, o, start) == -1
    ensures c == final && count == total
  {
    assert c[start..] == orig[src..];
    IndexOfShift(c, start, orig, src, o);
    OccurrencesStep(orig, o, src);
  }

  /** countWords: the number of tokens String.split gives for the separator
      pattern [^a-zA-Z0-9']+. The empty text counts as one word; otherwise the
      count is the number of maximal runs of word characters, plus one for the
      empty token before a leading separator (when there is any word at all). */
  function CountWords(fileContent: seq<char>): (wordCount: nat)
    ensures fileContent == [] ==> wordCount == 1
    ensures fileContent != [] ==>
      (wordCount == |Words(fileContent, 0)| +
        (if Words(fileContent, 0) != [] && !IsWordChar(fileContent[0]) then 1 else 0))
  {
    SplitIsWords(fileContent);
    |Split(fileContent)|
  }

  /** countUniqueWords: the number of distinct tokens once each is lower-cased,
      collected in a set as the source's HashSet does. */
  method CountUniqueWords(fileContent: seq<char>) returns (wordCount: int)
    ensures wordCount == |LowerCased(Split(fileContent))|
    ensures 0 <= wordCount <= CountWords(fileContent)
    ensures (wordCount == 0) == (CountWords(fileContent) == 0)
  {
    var words := Split(fileContent);
    var uniqueWordSet: set<seq<char>> := {};
    for i := 0 to |words|
      invariant uniqueWordSet == LowerCased(words[..i])
    {
      assert words[..i + 1][..i] == words[..i];
      uniqueWordSet := uniqueWordSet + {ToLower(words[i])};
    }
    assert words[..|words|] == words;
    wordCount := |uniqueWordSet|;
    LowerCasedSize(words);
  }
}
