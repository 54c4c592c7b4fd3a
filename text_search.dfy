/** Literal, case-sensitive substring search over a character sequence, as
    StringBuilder.indexOf performs it, and the greedy left-to-right scan that
    searchAll and replace in FileUtilities build on top of it. */
module TextSearch {

  /** `t` occurs in `s` starting at offset `k`. */
  predicate MatchAt(s: seq<char>, t: seq<char>, k: int)
    decreases |t|
  {
    0 <= k && k + |t| <= |s| && (t == [] || (s[k] == t[0] && MatchAt(s, t[1..], k + 1)))
  }

  lemma {:induction false} MatchAtSlice(s: seq<char>, t: seq<char>, k: int)
    ensures MatchAt(s, t, k) <==> 0 <= k && k + |t| <= |s| && s[k..k + |t|] == t
    decreases |t|
  {
    if 0 <= k && k + |t| <= |s| && t != [] {
      MatchAtSlice(s, t[1..], k + 1);
      assert s[k..k + |t|] == [s[k]] + s[k + 1..k + 1 + |t[1..]|];
      assert t == [t[0]] + t[1..];
    }
  }

  /** indexOf treats a negative start offset as 0. */
  function Clamp(from: int): nat {
    if from < 0 then 0 else from
  }

  /** StringBuilder.indexOf(t, from) for a non-empty `t`: the least offset at or
      after `from` (clamped to 0) where `t` occurs, or -1 when there is none
      (least-ness is IndexOfFindsFirst). */
  function IndexOf(s: seq<char>, t: seq<char>, from: int): (r: int)
    requires |t| > 0
    ensures r == -1 || (Clamp(from) <= r && MatchAt(s, t, r))
    decreases if from < 0 then |s| + 1 else |s| - from
  {
    if from < 0 then IndexOf(s, t, 0)
    else if from + |t| > |s| then -1
    else if MatchAt(s, t, from) then from
    else IndexOf(s, t, from + 1)
  }

  /** No occurrence is skipped: any occurrence at or after `from` is found, at
      that offset or at an earlier one. */
  lemma {:induction false} IndexOfFindsFirst(s: seq<char>, t: seq<char>, from: int, k: int)
    requires |t| > 0 && Clamp(from) <= k && MatchAt(s, t, k)
    ensures IndexOf(s, t, from) != -1 && IndexOf(s, t, from) <= k
    decreases if from < 0 then |s| + 1 else |s| - from
  {
    if from < 0 {
      IndexOfFindsFirst(s, t, 0, k);
    } else if from < k && !MatchAt(s, t, from) {
      IndexOfFindsFirst(s, t, from + 1, k);
    }
  }

  /** Where the tails `a[i..]` and `b[j..]` agree, `t` occurs at `k` in `a`
      exactly when it occurs at the corresponding offset of `b`. */
  lemma {:induction false} MatchShift(a: seq<char>, i: nat, b: seq<char>, j: nat, t: seq<char>, k: int)
    requires i <= |a| && j <= |b| && a[i..] == b[j..] && i <= k
    ensures MatchAt(a, t, k) <==> MatchAt(b, t, k - i + j)
    decreases |t|
  {
    if t != [] && k < |a| {
      assert a[k] == a[i..][k - i] == b[j..][k - i] == b[k - i + j];
      MatchShift(a, i, b, j, t[1..], k + 1);
    }
  }

  /** Searching two sequences whose tails agree gives the same answer, shifted. */
  lemma IndexOfShift(a: seq<char>, i: nat, b: seq<char>, j: nat, t: seq<char>)
    requires |t| > 0 && i <= |a| && j <= |b| && a[i..] == b[j..]
    ensures IndexOf(a, t, i) == if IndexOf(b, t, j) == -1 then -1 else IndexOf(b, t, j) - j + i
  {
    IndexOfShiftBound(a, i, b, j, t);
    IndexOfShiftBound(b, j, a, i, t);
  }

  /** One half of IndexOfShift: a hit in `a` is matched no later in `b`. */
  lemma IndexOfShiftBound(a: seq<char>, i: nat, b: seq<char>, j: nat, t: seq<char>)
    requires |t| > 0 && i <= |a| && j <= |b| && a[i..] == b[j..]
    ensures IndexOf(a, t, i) != -1 ==> IndexOf(b, t, j) != -1 && IndexOf(b, t, j) - j <= IndexOf(a, t, i) - i
  {
    var ra := IndexOf(a, t, i);
    if ra != -1 {
      MatchShift(a, i, b, j, t, ra);
      IndexOfFindsFirst(b, t, j, ra - i + j);
    }
  }

  /** The offsets a greedy left-to-right scan reports, starting at `from`: after a
      match at `p` the scan resumes at `p + |t|`, so matches never overlap. */
  function Occurrences(s: seq<char>, t: seq<char>, from: nat): (ps: seq<nat>)
    requires |t| > 0
    ensures forall i :: 0 <= i < |ps| ==> from <= ps[i] && ps[i] + |t| <= |s|
    ensures forall i, j :: 0 <= i < j < |ps| ==> ps[i] + |t| <= ps[j]
    decreases |s| - from
  {
    var p := IndexOf(s, t, from);
    if p == -1 then [] else [p] + Occurrences(s, t, p + |t|)
  }

  /** Every reported offset is a true occurrence. */
  lemma {:induction false} OccurrenceIsMatch(s: seq<char>, t: seq<char>, from: nat, i: nat)
    requires |t| > 0 && i < |Occurrences(s, t, from)|
    ensures MatchAt(s, t, Occurrences(s, t, from)[i])
    decreases |s| - from
  {
    var p := IndexOf(s, t, from);
    if i > 0 {
      OccurrenceIsMatch(s, t, p + |t|, i - 1);
    }
  }

  /** No occurrence of `t` in `s` starts at an offset in [lo, hi). */
  ghost predicate NoMatchIn(s: seq<char>, t: seq<char>, lo: int, hi: int) {
    forall k :: lo <= k < hi ==> !MatchAt(s, t, k)
  }

  /** An independent description of greedy non-overlapping matching, read left
      to right: the first offset is an occurrence at or after `from`, nothing
      matches between `from` and it, and the rest is a greedy scan resuming just
      past that occurrence; an empty scan means nothing matches from `from` on. */
  ghost predicate IsGreedyScan(s: seq<char>, t: seq<char>, from: nat, ps: seq<int>)
    decreases |ps|
  {
    if ps == [] then NoMatchIn(s, t, from, |s| + 1)
    else
      from <= ps[0] && MatchAt(s, t, ps[0]) && NoMatchIn(s, t, from, ps[0]) &&
      IsGreedyScan(s, t, ps[0] + |t|, ps[1..])
  }

  /** Nothing matches between the starting offset and the hit IndexOf reports
      (or anywhere from the starting offset on, when it reports none). */
  lemma NoMatchBeforeIndexOf(s: seq<char>, t: seq<char>, from: nat)
    requires |t| > 0
    ensures NoMatchIn(s, t, from, if IndexOf(s, t, from) == -1 then |s| + 1 else IndexOf(s, t, from))
  {
    var p := IndexOf(s, t, from);
    forall k | from <= k < (if p == -1 then |s| + 1 else p) ensures !MatchAt(s, t, k) {
      if MatchAt(s, t, k) {
        IndexOfFindsFirst(s, t, from, k);
      }
    }
  }

  /** The scan misses no match: Occurrences is a greedy scan. */
  lemma {:induction false} OccurrencesIsGreedyScan(s: seq<char>, t: seq<char>, from: nat)
    requires |t| > 0
    ensures IsGreedyScan(s, t, from, Occurrences(s, t, from))
    decreases |s| - from
  {
    var p := IndexOf(s, t, from);
    NoMatchBeforeIndexOf(s, t, from);
    if p != -1 {
      var next := p + |t|;
      OccurrencesHit(s, t, from, p, next);
      OccurrencesIsGreedyScan(s, t, next);
      var ps := Occurrences(s, t, from);
      assert ps[0] == p && ps[1..] == Occurrences(s, t, next);
    }
  }

  /** ... and it is the only greedy scan: Occurrences is determined by IsGreedyScan. */
  lemma {:induction false} GreedyScanIsUnique(s: seq<char>, t: seq<char>, from: nat, ps: seq<int>)
    requires |t| > 0 && IsGreedyScan(s, t, from, ps)
    ensures ps == Occurrences(s, t, from)
    decreases |ps|
  {
    if ps != [] {
      var p, next := ps[0], ps[0] + |t|;
      IndexOfFindsFirst(s, t, from, p);
      assert IndexOf(s, t, from) == p;
      OccurrencesHit(s, t, from, p, next);
      GreedyScanIsUnique(s, t, next, ps[1..]);
      assert ps == [p] + ps[1..];
    }
  }


  /** The text a greedy replace produces from offset `from` of the ORIGINAL `s`:
      each greedy occurrence of `o` becomes `n`, and inserted text is never
      searched again. */
  function ReplaceFrom(s: seq<char>, o: seq<char>, n: seq<char>, from: nat): seq<char>
    requires |o| > 0 && from <= |s|
    decreases |s| - from
  {
    var p := IndexOf(s, o, from);
    if p == -1 then s[from..] else s[from..p] + n + ReplaceFrom(s, o, n, p + |o|)
  }

  /** Around an occurrence at `p`, the text splits into what precedes it, the
      occurrence itself and what follows it. */
  lemma SplitAtMatch(s: seq<char>, o: seq<char>, p: nat, from: nat)
    requires from <= p && MatchAt(s, o, p)
    ensures s[from..] == s[from..p] + o + s[p + |o|..]
  {
    MatchAtSlice(s, o, p);
    assert s[from..] == s[from..p] + s[p..p + |o|] + s[p + |o|..];
  }

  /** Replacing every occurrence of a string by itself leaves the text as it was. */
  lemma {:induction false} ReplaceWithItself(s: seq<char>, o: seq<char>, from: nat)
    requires |o| > 0 && from <= |s|
    ensures ReplaceFrom(s, o, o, from) == s[from..]
    decreases |s| - from
  {
    var p := IndexOf(s, o, from);
    if p != -1 {
      var next := p + |o|;
      ReplaceFromStep(s, o, o, from, p, next);
      ReplaceWithItself(s, o, next);
      SplitAtMatch(s, o, p, from);
    }
  }

  /** The arithmetic of one replacement step in ReplaceLength. */
  lemma LengthStep(total: int, rest: int, len: int, from: int, p: int, lo: int, ln: int, m: int, c: int)
    requires total == (p - from) + ln + rest
    requires rest == len - (p + lo) + m * (ln - lo)
    requires c == m + 1
    ensures total == len - from + c * (ln - lo)
  {
    MulSucc(m, ln - lo);
  }

  /** Each replacement changes the length by |n| - |o|. */
  lemma {:induction false} ReplaceLength(s: seq<char>, o: seq<char>, n: seq<char>, from: nat)
    requires |o| > 0 && from <= |s|
    ensures |ReplaceFrom(s, o, n, from)| == |s| - from + |Occurrences(s, o, from)| * (|n| - |o|)
    decreases |s| - from
  {
    var p := IndexOf(s, o, from);
    if p != -1 {
      var next := p + |o|;
      ReplaceFromStep(s, o, n, from, p, next);
      OccurrencesCountStep(s, o, from, p, next);
      ReplaceLength(s, o, n, next);
      LengthStep(|ReplaceFrom(s, o, n, from)|, |ReplaceFrom(s, o, n, next)|, |s|, from, p, |o|, |n|,
                 |Occurrences(s, o, next)|, |Occurrences(s, o, from)|);
    } else {
      OccurrencesStep(s, o, from);
    }
  }

  lemma MulSucc(m: int, d: int)
    ensures (m + 1) * d == m * d + d
  {
  }

  /** `n` spliced over the `len` characters at offset `q` of `s`. */
  function SpliceAt(s: seq<char>, q: nat, len: nat, n: seq<char>): (r: seq<char>)
    requires q + len <= |s|
    ensures |r| == |s| - len + |n|
  {
    s[..q] + n + s[q + len..]
  }

  /** Offsets `ps` in increasing order whose spans of length `len` are disjoint,
      lie inside `s` and start at or after `from`. */
  ghost predicate DisjointSpans(s: seq<char>, len: nat, ps: seq<nat>, from: nat)
    decreases |ps|
  {
    from <= |s| &&
    (ps == [] || (from <= ps[0] && ps[0] + len <= |s| && DisjointSpans(s, len, ps[1..], ps[0] + len)))
  }

  /** Splicing at an offset beyond all of `ps` keeps their spans in place. */
  lemma {:induction false} SpliceAtKeepsEarlierSpans(s: seq<char>, len: nat, n: seq<char>, ps: seq<nat>, q: nat, from: nat)
    requires DisjointSpans(s, len, ps + [q], from)
    ensures from <= q && q + len <= |s| && DisjointSpans(SpliceAt(s, q, len, n), len, ps, from)
    decreases |ps|
  {
    var qs := ps + [q];
    if ps == [] {
      assert qs[1..] == [];
    } else {
      assert qs[1..] == ps[1..] + [q];
      SpliceAtKeepsEarlierSpans(s, len, n, ps[1..], q, ps[0] + len);
    }
  }

  /** Independent reference for replace: splice `n` over the `len` characters at
      each offset of `ps`, the LAST offset first, so that the offsets still to be
      processed are never shifted by an earlier splice. */
  ghost function SpliceBackwards(s: seq<char>, len: nat, n: seq<char>, ps: seq<nat>): seq<char>
    requires DisjointSpans(s, len, ps, 0)
    decreases |ps|
  {
    if ps == [] then s
    else
      var q, init := ps[|ps| - 1], ps[..|ps| - 1];
      assert ps == init + [q];
      SpliceAtKeepsEarlierSpans(s, len, n, init, q, 0);
      SpliceBackwards(SpliceAt(s, q, len, n), len, n, init)
  }

  /** The same splices read left to right, on the original offsets, from `from`. */
  ghost function SpliceForwards(s: seq<char>, len: nat, n: seq<char>, ps: seq<nat>, from: nat): seq<char>
    requires DisjointSpans(s, len, ps, from)
    decreases |ps|
  {
    if ps == [] then s[from..]
    else s[from..ps[0]] + n + SpliceForwards(s, len, n, ps[1..], ps[0] + len)
  }

  lemma {:induction false} ReplaceFromIsSpliceForwards(s: seq<char>, o: seq<char>, n: seq<char>, from: nat)
    requires |o| > 0 && from <= |s|
    ensures DisjointSpans(s, |o|, Occurrences(s, o, from), from)
    ensures ReplaceFrom(s, o, n, from) == SpliceForwards(s, |o|, n, Occurrences(s, o, from), from)
    decreases |s| - from
  {
    var p := IndexOf(s, o, from);
    if p != -1 {
      ReplaceFromIsSpliceForwards(s, o, n, p + |o|);
      var ps, rest := Occurrences(s, o, from), Occurrences(s, o, p + |o|);
      assert ps[0] == p && ps[1..] == rest;
      assert MatchAt(s, o, p);
      assert DisjointSpans(s, |o|, ps, from);
      calc {
        ReplaceFrom(s, o, n, from);
        s[from..p] + n + ReplaceFrom(s, o, n, p + |o|);
        s[from..p] + n + SpliceForwards(s, |o|, n, rest, p + |o|);
        SpliceForwards(s, |o|, n, ps, from);
      }
    }
  }

  /** A splice leaves everything before it untouched. */
  lemma SpliceAtAgreesBefore(s: seq<char>, q: nat, len: nat, n: seq<char>, lo: nat, hi: nat)
    requires q + len <= |s| && lo <= hi <= q
    ensures SpliceAt(s, q, len, n)[lo..hi] == s[lo..hi]
  {
    var spliced, original := SpliceAt(s, q, len, n)[lo..hi], s[lo..hi];
    forall x | 0 <= x < hi - lo ensures spliced[x] == original[x] {
      assert spliced[x] == (s[..q] + n + s[q + len..])[lo + x];
    }
  }

  /** Seen from an offset before the splice point, a splice is the text up to
      that point, the new text, and what follows the removed span. */
  lemma SpliceAtSuffix(s: seq<char>, q: nat, len: nat, n: seq<char>, from: nat)
    requires from <= q && q + len <= |s|
    ensures SpliceAt(s, q, len, n)[from..] == s[from..q] + n + s[q + len..]
  {
    var r := SpliceAt(s, q, len, n);
    assert r == s[..q] + n + s[q + len..];
    assert r[from..] == s[..q][from..] + n + s[q + len..];
  }

  /** Splicing at a last offset `q` first does not disturb the forward splices before it. */
  lemma {:induction false} SpliceLastFirst(s: seq<char>, len: nat, n: seq<char>, ps: seq<nat>, q: nat, from: nat)
    requires DisjointSpans(s, len, ps + [q], from)
    ensures from <= q && q + len <= |s| && DisjointSpans(SpliceAt(s, q, len, n), len, ps, from)
    ensures SpliceForwards(s, len, n, ps + [q], from) == SpliceForwards(SpliceAt(s, q, len, n), len, n, ps, from)
    decreases |ps|
  {
    SpliceAtKeepsEarlierSpans(s, len, n, ps, q, from);
    var s' := SpliceAt(s, q, len, n);
    var qs := ps + [q];
    if ps == [] {
      assert qs[1..] == [];
      SpliceAtSuffix(s, q, len, n, from);
    } else {
      var p, rest := ps[0], ps[1..];
      var next := p + len;
      assert qs[0] == p && qs[1..] == rest + [q];
      SpliceForwardsFirst(s, len, n, qs, from, p, rest + [q], next);
      SpliceForwardsFirst(s', len, n, ps, from, p, rest, next);
      SpliceLastFirst(s, len, n, rest, q, next);
      SpliceAtAgreesBefore(s, q, len, n, from, p);
    }
  }

  /** The first splice of a non-empty list, with the rest starting past it. */
  lemma SpliceForwardsFirst(s: seq<char>, len: nat, n: seq<char>, ps: seq<nat>, from: nat,
                            first: nat, rest: seq<nat>, next: nat)
    requires DisjointSpans(s, len, ps, from) && ps != []
    requires first == ps[0] && rest == ps[1..] && next == first + len
    ensures from <= first && next <= |s| && DisjointSpans(s, len, rest, next)
    ensures SpliceForwards(s, len, n, ps, from) == s[from..first] + n + SpliceForwards(s, len, n, rest, next)
  {
  }

  lemma {:induction false} SpliceBackwardsIsForwards(s: seq<char>, len: nat, n: seq<char>, ps: seq<nat>)
    requires DisjointSpans(s, len, ps, 0)
    ensures SpliceBackwards(s, len, n, ps) == SpliceForwards(s, len, n, ps, 0)
    decreases |ps|
  {
    if ps != [] {
      var q, init := ps[|ps| - 1], ps[..|ps| - 1];
      assert ps == init + [q];
      SpliceLastFirst(s, len, n, init, q, 0);
      SpliceBackwardsIsForwards(SpliceAt(s, q, len, n), len, n, init);
    }
  }

  /** Replace performs exactly the splices a search reports: the result equals
      splicing `n` at every offset of Occurrences(s, o, 0), last one first. */
  lemma ReplaceIsSpliceAtOccurrences(s: seq<char>, o: seq<char>, n: seq<char>)
    requires |o| > 0
    ensures DisjointSpans(s, |o|, Occurrences(s, o, 0), 0)
    ensures ReplaceFrom(s, o, n, 0) == SpliceBackwards(s, |o|, n, Occurrences(s, o, 0))
  {
    ReplaceFromIsSpliceForwards(s, o, n, 0);
    SpliceBackwardsIsForwards(s, |o|, n, Occurrences(s, o, 0));
  }

  /** One step of the greedy scan: a miss ends it, and a hit at `p` is followed by
      the scan resuming at p + |t|. */
  lemma OccurrencesStep(s: seq<char>, t: seq<char>, from: nat)
    requires |t| > 0
    ensures IndexOf(s, t, from) == -1 ==> Occurrences(s, t, from) == []
    ensures IndexOf(s, t, from) != -1 ==>
      from <= IndexOf(s, t, from) && IndexOf(s, t, from) + |t| <= |s| &&
      Occurrences(s, t, from) == [IndexOf(s, t, from)] + Occurrences(s, t, IndexOf(s, t, from) + |t|)
  {
  }

  /** A hit at `from` makes one greedy occurrence more than there are after it. */
  /** A hit at `p` is the first occurrence, and the scan goes on from `next`,
      just past it. */
  lemma OccurrencesHit(s: seq<char>, t: seq<char>, from: nat, p: int, next: int)
    requires |t| > 0 && p == IndexOf(s, t, from) && p != -1 && next == p + |t|
    ensures from <= p && next <= |s| && Occurrences(s, t, from) == [p] + Occurrences(s, t, next)
  {
  }

  lemma OccurrencesCountStep(s: seq<char>, t: seq<char>, from: nat, p: int, next: int)
    requires |t| > 0 && p == IndexOf(s, t, from) && p != -1 && next == p + |t|
    ensures next <= |s| && |Occurrences(s, t, from)| == 1 + |Occurrences(s, t, next)|
  {
    OccurrencesHit(s, t, from, p, next);
  }

  /** One step of the greedy replacement: at a hit `p`, the text before it, then
      the new string, then the replacement of what follows the occurrence. */
  lemma ReplaceFromStep(s: seq<char>, o: seq<char>, n: seq<char>, from: nat, p: int, next: int)
    requires |o| > 0 && from <= |s| && p == IndexOf(s, o, from) && p != -1 && next == p + |o|
    ensures from <= p && next <= |s| && ReplaceFrom(s, o, n, from) == s[from..p] + n + ReplaceFrom(s, o, n, next)
  {
    assert ReplaceFrom(s, o, n, from) == s[from..p] + n + ReplaceFrom(s, o, n, p + |o|);
  }
}
