# FileUtilities text operations, modelled in Dafny

This project models the text algorithms of the `FileUtilities` class of the Java
text editor (`src/TextEditor/FileUtilities.java`): `searchAll`, `replace`,
`countWords` and `countUniqueWords`. It proves what each one computes.

The editor keeps the document in a `java.lang.StringBuilder`. Here that is the
class `Builder.StringBuilder`, whose `content: seq<char>` field is updated in
place by `Replace`. Java's `null` is a null reference for the buffer and
`Option.None` for a string argument.

Modules:

- `Optional`: the `Option` datatype.
- `TextSearch`: the specification side of search and replace.
  - `IndexOf` models `StringBuilder.indexOf`: the least match at or after the clamped start, or -1.
  - `Occurrences` is the list of greedy, non-overlapping occurrences, scanning left to right.
  - `IsGreedyScan` describes that scan independently; two lemmas show it has exactly one solution, `Occurrences`.
  - `ReplaceFrom` is the text with every such occurrence replaced.
  - `SpliceBackwards` / `SpliceForwards` are a second description of replacement, splicing at the listed offsets one by one.
- `Builder`: the `StringBuilder` operations the core calls, `indexOf` and `replace`.
- `WordSplit`: `String.split("[^a-zA-Z0-9']+")` for this one delimiter class, and ASCII lower-casing.
  - The delimiter class is modelled directly; there is no regular-expression engine.
  - `Words` (the maximal runs of word characters, as `WordsAreRuns` and `WordCharsAreInWords` show) is the independent description `Split` is compared with.
- `FileUtilities`: the four operations.
  - `SearchAll` and `Replace` are methods with the source's loops. Their invariants are separate predicates with one lemma per loop step.
  - `CountWords` is a function.
  - `CountUniqueWords` is a method whose loop fills a set.
- `Scenarios`: worked examples on concrete texts, including the one in the `searchAll` documentation.

What the model establishes:

- `searchAll` returns null exactly when an argument is null or empty or the needle does not occur. Otherwise the array holds `Occurrences(buffer, needle, 0)`.
  - The counting pass and the filling pass agree.
  - Every offset is a true occurrence.
  - Offsets are at least the needle's length apart.
  - No occurrence is skipped between them.
  - The method has no `modifies` clause, so the buffer cannot change.
- `replace` returns 0 and leaves the buffer alone when an argument is null or empty.
  - Otherwise the buffer ends up as `ReplaceFrom(original, old, new, 0)`: the occurrences found by scanning the ORIGINAL text, each replaced. The scan resumes after the inserted text, so that text is never matched again.
  - The count is the number of those occurrences, which is the length of the array `searchAll` returns on the original text.
  - The loop terminates, with the measure `|buffer| - startSearchPosition`.
  - Replacing a string by itself changes nothing.
  - The new length is `|s| + count * (|new| - |old|)`.
- `countWords` is the number of tokens `split` produces:
  - 1 for the empty text;
  - otherwise the words, plus one leading empty token when the text starts with a separator and has a word.
- `countUniqueWords` is the size of the set of lower-cased tokens. It is between 0 and `countWords`, and 0 only when `countWords` is.

A behaviour of `split` that the comments of `countWords` do not mention:

- Text made only of separators (for instance `" ,. "`) has no tokens at all, so `countWords` is 0 for it. The leading empty token appears only when a word follows it.
- The model follows `String.split`; see `Scenarios.SeparatorsOnlyCountNone`.

## Model

| member | source | states |
|---|---|---|
| TextSearch.MatchAtSlice | src/TextEditor/FileUtilities.java:85 | a match at `k` means exactly that the slice of the buffer at `k` of the needle's length equals the needle |
| TextSearch.IndexOf | src/TextEditor/FileUtilities.java:85 | indexOf returns -1 or an offset at or after the (clamped) start where the needle occurs |
| TextSearch.IndexOfFindsFirst | src/TextEditor/FileUtilities.java:85 | if the needle occurs at `k` at or after the start, indexOf finds a match no later than `k` (it returns the least match) |
| TextSearch.NoMatchBeforeIndexOf | src/TextEditor/FileUtilities.java:85 | no match lies between the start and the offset indexOf returns (or the end, when it returns -1) |
| TextSearch.IndexOfShift | src/TextEditor/FileUtilities.java:118-120 | searching two buffers whose suffixes agree from the given starts gives hits at the same distance from those starts |
| TextSearch.Occurrences | src/TextEditor/FileUtilities.java:83-95 | the greedy occurrences lie at or after the start, inside the text, and each is at least the needle's length after the previous one |
| TextSearch.OccurrenceIsMatch | src/TextEditor/FileUtilities.java:92-95 | every listed offset is a true occurrence of the needle |
| TextSearch.OccurrencesIsGreedyScan | src/TextEditor/FileUtilities.java:83-87 | the occurrences form a greedy left-to-right scan: no match is skipped before each hit, and the scan resumes just past it |
| TextSearch.GreedyScanIsUnique | src/TextEditor/FileUtilities.java:83-87 | any list satisfying the greedy-scan description is the list of occurrences |
| TextSearch.OccurrencesStep | src/TextEditor/FileUtilities.java:85-87 | a missed search means no occurrences remain; a hit is the first occurrence and the rest start past it |
| TextSearch.OccurrencesHit | src/TextEditor/FileUtilities.java:85-86 | a hit is the first occurrence and the remaining occurrences are those from just past it |
| TextSearch.OccurrencesCountStep | src/TextEditor/FileUtilities.java:84-86 | each hit accounts for exactly one occurrence, and the search moves past it within the text |
| TextSearch.ReplaceFromStep | src/TextEditor/FileUtilities.java:120-124 | the replaced text from a start is the text up to the next hit, the new string, and the replaced text after the hit |
| TextSearch.ReplaceWithItself | src/TextEditor/FileUtilities.java:118-126 | replacing a string by itself leaves the text unchanged |
| TextSearch.ReplaceLength | src/TextEditor/FileUtilities.java:118-126 | the replaced text's length is the original length plus the occurrence count times the length difference of the strings |
| TextSearch.SpliceAtKeepsEarlierSpans | src/TextEditor/FileUtilities.java:121 | splicing at the last of several disjoint spans leaves the earlier spans where they were |
| TextSearch.SpliceAtSuffix | src/TextEditor/FileUtilities.java:121 | after a splice, the text from an earlier offset is the untouched part, the new string and the rest |
| TextSearch.ReplaceFromIsSpliceForwards | src/TextEditor/FileUtilities.java:118-126 | the occurrences are disjoint spans, and the replaced text equals splicing the new string over them |
| TextSearch.SpliceForwardsFirst | src/TextEditor/FileUtilities.java:121 | the forward splices are the text up to the first span, the new string, and the splices of the remaining spans |
| TextSearch.SpliceBackwardsIsForwards | src/TextEditor/FileUtilities.java:121 | splicing disjoint spans from the last to the first gives the same text as describing the splices from the first |
| TextSearch.ReplaceIsSpliceAtOccurrences | src/TextEditor/FileUtilities.java:118-126 | the replaced text equals the original with each occurrence spliced out for the new string |
| Builder.StringBuilder.IndexOf | src/TextEditor/FileUtilities.java:85 | the buffer's indexOf returns -1 or a match at or after the clamped start |
| Builder.StringBuilder.Replace | src/TextEditor/FileUtilities.java:121 | the span [start, end) of the buffer (end clamped to the length) gives way to the new string; the rest is kept |
| FileUtilities.SearchAll | src/TextEditor/FileUtilities.java:75-100 | null exactly for a null or empty argument or no occurrence; otherwise a newly allocated array holding the list of greedy occurrences |
| FileUtilities.CountingStep | src/TextEditor/FileUtilities.java:83-87 | a hit in the counting pass keeps "counter + 1 + remaining occurrences = all occurrences" and moves the start forward |
| FileUtilities.CountingStop | src/TextEditor/FileUtilities.java:87-89 | when the counting pass misses, the counter equals the number of occurrences |
| FileUtilities.FillingStep | src/TextEditor/FileUtilities.java:92-95 | each filled array slot is the next occurrence, and the search resumes at the occurrences not yet stored |
| FileUtilities.Replace | src/TextEditor/FileUtilities.java:108-129 | 0 and no change for null or empty arguments; otherwise the buffer is the original with its greedy occurrences replaced, and the count is their number |
| FileUtilities.ReplaceStart | src/TextEditor/FileUtilities.java:109-110 | before the loop, the buffer, result and count invariants hold with nothing processed |
| FileUtilities.ShiftedHit | src/TextEditor/FileUtilities.java:118-120 | the hit found in the edited buffer is the next occurrence in the original, at the same distance from the resume point |
| FileUtilities.BufferStep | src/TextEditor/FileUtilities.java:120-124 | after the splice, the buffer is still "processed text + unprocessed original", and the loop measure drops |
| FileUtilities.SpliceAfterDone | src/TextEditor/FileUtilities.java:121 | splicing at the hit moves the original text up to the hit and the new string into the processed part |
| FileUtilities.ResultStep | src/TextEditor/FileUtilities.java:120-124 | "processed text + replaced rest of the original = final result" is kept by a replacement |
| FileUtilities.CountStep | src/TextEditor/FileUtilities.java:125 | "count + occurrences left = total occurrences" is kept by a replacement |
| FileUtilities.ReplaceStop | src/TextEditor/FileUtilities.java:118-127 | when the search misses, the buffer is the fully replaced text and the count is the number of occurrences |
| FileUtilities.CountWords | src/TextEditor/FileUtilities.java:42-47 | 1 for the empty text; otherwise the number of words, plus one for a leading empty token when the text starts with a separator and has a word |
| FileUtilities.CountUniqueWords | src/TextEditor/FileUtilities.java:52-61 | the size of the set of lower-cased tokens, between 0 and the word count, and 0 exactly when the word count is |
| WordSplit.NextSeparator | src/TextEditor/FileUtilities.java:44 | the end of a run of word characters: all characters before it are word characters and the one at it is not |
| WordSplit.NextWordChar | src/TextEditor/FileUtilities.java:44 | the end of a separator run: all characters before it are separators and the one at it is a word character |
| WordSplit.Words | src/TextEditor/FileUtilities.java:44 | every word is non-empty and made of word characters only |
| WordSplit.WordsAreRuns | src/TextEditor/FileUtilities.java:44 | every word sits in the text as a maximal run of word characters: preceded by a separator or the start, followed by a separator or the end |
| WordSplit.WordCharsAreInWords | src/TextEditor/FileUtilities.java:44 | every word character of the text lies inside one of the words, so no word is missed |
| WordSplit.PiecesAreWords | src/TextEditor/FileUtilities.java:44 | from a word start, the pieces between separator runs are the words, perhaps followed by one empty piece |
| WordSplit.DropTrailingEmpty | src/TextEditor/FileUtilities.java:44 | removing trailing empty tokens keeps a prefix that ends in a non-empty token, and only empty tokens are removed |
| WordSplit.SplitWithoutSeparator | src/TextEditor/FileUtilities.java:44 | text without a separator is its own only token (the empty text gives one empty token), and its only word when not empty |
| WordSplit.SplitLeadingSeparator | src/TextEditor/FileUtilities.java:44 | text starting with a separator splits into one empty token followed by the words, or into no token when it has no word |
| WordSplit.SplitLeadingWord | src/TextEditor/FileUtilities.java:44 | text starting with a word and holding a separator splits into exactly its words |
| WordSplit.SplitIsWords | src/TextEditor/FileUtilities.java:44-45 | split gives [""] for the empty text, nothing for text without words, and otherwise the words with one leading "" when the text starts with a separator |
| WordSplit.SplitTokensAreWordChars | src/TextEditor/FileUtilities.java:44 | every token consists of ASCII letters, digits and single quotes only |
| WordSplit.LowerChar | src/TextEditor/FileUtilities.java:57 | an upper-case ASCII letter becomes the lower-case letter at the same place in the alphabet, any other character is kept; no upper-case letter remains, and being a word character is preserved |
| WordSplit.ToLower | src/TextEditor/FileUtilities.java:57 | lower-casing keeps the length and lower-cases every character |
| WordSplit.ToLowerIdempotent | src/TextEditor/FileUtilities.java:57 | a lower-cased token has no upper-case letter, and lower-casing it again changes nothing |
| WordSplit.LowerCasedMembers | src/TextEditor/FileUtilities.java:53-58 | a string is in the set exactly when it is the lower-cased form of some token |
| WordSplit.LowerCasedHas | src/TextEditor/FileUtilities.java:56-57 | the lower-cased form of every token is in the set |
| WordSplit.LowerCasedSource | src/TextEditor/FileUtilities.java:56-57 | every element of the set is the lower-cased form of some token |
| WordSplit.LowerCasedSize | src/TextEditor/FileUtilities.java:59 | the set has at most as many elements as there are tokens, and at least one when there is a token |
| Scenarios.WonderIsAtSeven | src/TextEditor/FileUtilities.java:66-67 | "wonder" occurs in "What a wonderful world" only at offset 7 |
| Scenarios.CatOccurrences | src/TextEditor/FileUtilities.java:83-95 | "cat" occurs in "cat hat cat" at offsets 0 and 8 |
| Scenarios.CatHits | src/TextEditor/FileUtilities.java:118-120 | the searches of replace's loop on "cat hat cat" hit at 0, then 8, then miss |
| Scenarios.CatsBecomeDogs | src/TextEditor/FileUtilities.java:118-126 | replacing "cat" by "dog" in "cat hat cat" gives "dog hat dog" |
| Scenarios.LeadingSeparatorCounts | src/TextEditor/FileUtilities.java:42-47 | ", it's" splits into "" and "it's", so its word count is 2 |
| Scenarios.SeparatorsOnlyCountNone | src/TextEditor/FileUtilities.java:42-47 | text made only of separators has word count 0 |

## Left out

- `readFile` (src/TextEditor/FileUtilities.java:23-37) and `writeFile` (src/TextEditor/FileUtilities.java:137-151): file I/O through `Scanner`, `FileWriter` and `BufferedWriter`, with their exceptions.
- The `Word` class is not part of this model. The unique-word set holds the lower-cased strings themselves, so it assumes `Word` equality and hashing are string equality.
- TextSearch.IndexOf: models `indexOf` for a non-empty needle only. An empty needle would be found at the start, but both callers reject it before searching.
- Builder.StringBuilder.Replace: the `StringIndexOutOfBoundsException` for a negative start, a start past the length or a start past the end is a precondition. The callers always pass an in-range match.
- Java's 32-bit `int` overflow and the buffer's capacity are not modelled: offsets, counts and lengths are unbounded integers. No text a JVM can hold reaches the limits on the paths modelled.
- Characters are UTF-16 code units (`char`); surrogate pairs are not treated specially, as in the source.
- WordSplit.ToLower: models `String.toLowerCase` as ASCII lower-casing only. Every token consists of ASCII letters, digits and single quotes (`WordSplit.SplitTokensAreWordChars`), so this matches Java for any default locale except Turkish and Azeri. In those locales `toLowerCase` maps `'I'` to the dotless `'ı'` (U+0131), so for example `countUniqueWords` counts "I i" as 2 where the model gives 1; the model assumes a default locale other than those two.
- `countWords` and `countUniqueWords` take the buffer's text, so the `NullPointerException` a null buffer raises in the source is not modelled.
- The `HashSet` is a mathematical set: its iteration order and hashing are not modelled, since only its size is used.
