/**
 * The gallery's search matcher (src/utils/fuzzy.ts): Levenshtein edit
 * distance computed with a dynamic-programming table, and `fuzzyMatch`, which
 * accepts a candidate when it contains the query or when every query word is
 * within a length-dependent number of edits of some candidate word.
 */
module Fuzzy {
  import opened Wrappers
  import opened JsStrings

  function Min3(x: nat, y: nat, z: nat): (r: nat)
    ensures r <= x && r <= y && r <= z
    ensures r == x || r == y || r == z
  {
    if x <= y && x <= z then x else if y <= z then y else z
  }

  /**
   * The edit distance between `a` and `b`, by the recurrence on prefixes that
   * the table of `Levenshtein` fills in: the last characters are either equal
   * (no cost) or paid for by one substitution, insertion or deletion.
   */
  function EditDistance(a: string, b: string): (d: nat)
    ensures |a| - |b| <= d && |b| - |a| <= d
    ensures d <= if |a| <= |b| then |b| else |a|
    decreases |a| + |b|
  {
    if |a| == 0 then |b|
    else if |b| == 0 then |a|
    else
      var a', b' := a[..|a| - 1], b[..|b| - 1];
      if a[|a| - 1] == b[|b| - 1] then EditDistance(a', b')
      else Min3(EditDistance(a', b') + 1, EditDistance(a, b') + 1, EditDistance(a', b) + 1)
  }

  /**
   * `levenshtein(a, b)`: fills the (|a|+1) x (|b|+1) table row by row, so that
   * `dp[i, j]` holds the distance between the first `i` characters of `a` and
   * the first `j` characters of `b`, and returns the bottom-right cell.
   */
  method Levenshtein(a: string, b: string) returns (d: nat)
    ensures d == EditDistance(a, b)
  {
    var m, n := |a|, |b|;
    var dp := new nat[m + 1, n + 1];
    for i := 0 to m + 1
      invariant forall r :: 0 <= r < i ==> dp[r, 0] == r
    {
      dp[i, 0] := i;
    }
    for j := 0 to n + 1
      invariant forall r :: 0 <= r <= m ==> dp[r, 0] == r
      invariant forall c :: 0 <= c < j ==> dp[0, c] == c
    {
      dp[0, j] := j;
    }
    for i := 1 to m + 1
      invariant forall r, c :: 0 <= r < i && 0 <= c <= n ==> dp[r, c] == EditDistance(a[..r], b[..c])
      invariant forall r :: i <= r <= m ==> dp[r, 0] == r
    {
      FillRow(a, b, dp, i);
    }
    assert a[..m] == a && b[..n] == b;
    d := dp[m, n];
  }

  /** The inner loop of `levenshtein`: fills row `i` from row `i - 1`. */
  method FillRow(a: string, b: string, dp: array2<nat>, i: nat)
    requires dp.Length0 == |a| + 1 && dp.Length1 == |b| + 1 && 1 <= i <= |a|
    requires forall r, c :: 0 <= r < i && 0 <= c <= |b| ==> dp[r, c] == EditDistance(a[..r], b[..c])
    requires dp[i, 0] == i
    modifies dp
    ensures forall r, c :: 0 <= r <= i && 0 <= c <= |b| ==> dp[r, c] == EditDistance(a[..r], b[..c])
    ensures forall r, c :: i < r <= |a| && 0 <= c <= |b| ==> dp[r, c] == old(dp[r, c])
  {
    for j := 1 to |b| + 1
      invariant forall r, c :: 0 <= r <= |a| && r != i && 0 <= c <= |b| ==> dp[r, c] == old(dp[r, c])
      invariant forall c :: 0 <= c < j ==> dp[i, c] == EditDistance(a[..i], b[..c])
    {
      FillCell(a, b, dp, i, j);
    }
  }

  /** One cell of the table: `dp[i, j]` from its upper-left, left and upper neighbours. */
  method FillCell(a: string, b: string, dp: array2<nat>, i: nat, j: nat)
    requires dp.Length0 == |a| + 1 && dp.Length1 == |b| + 1 && 1 <= i <= |a| && 1 <= j <= |b|
    requires dp[i - 1, j - 1] == EditDistance(a[..i - 1], b[..j - 1])
    requires dp[i, j - 1] == EditDistance(a[..i], b[..j - 1])
    requires dp[i - 1, j] == EditDistance(a[..i - 1], b[..j])
    modifies dp
    ensures dp[i, j] == EditDistance(a[..i], b[..j])
    ensures forall r, c :: 0 <= r <= |a| && 0 <= c <= |b| && (r != i || c != j) ==> dp[r, c] == old(dp[r, c])
  {
    PrefixStep(a, b, i, j);
    if a[i - 1] == b[j - 1] {
      dp[i, j] := dp[i - 1, j - 1];
    } else {
      dp[i, j] := Min3(dp[i - 1, j - 1] + 1, dp[i, j - 1] + 1, dp[i - 1, j] + 1);
    }
  }

  /** The recurrence of `EditDistance`, read at the prefixes of lengths `i` and `j`. */
  lemma PrefixStep(a: string, b: string, i: nat, j: nat)
    requires 1 <= i <= |a| && 1 <= j <= |b|
    ensures EditDistance(a[..i], b[..j]) ==
      if a[i - 1] == b[j - 1] then EditDistance(a[..i - 1], b[..j - 1])
      else Min3(EditDistance(a[..i - 1], b[..j - 1]) + 1, EditDistance(a[..i], b[..j - 1]) + 1,
                EditDistance(a[..i - 1], b[..j]) + 1)
  {
    assert a[..i][..i - 1] == a[..i - 1] && b[..j][..j - 1] == b[..j - 1];
  }

  /** `Math.max(1, Math.floor(len / 3))`: the number of edits a query word of length `len` may be off by. */
  function Threshold(len: nat): (t: nat)
    ensures t >= 1
    ensures len < 6 ==> t == 1
    ensures len >= 3 ==> 3 * t <= len < 3 * t + 3
  {
    if len / 3 > 1 then len / 3 else 1
  }

  /** `s.split(/\s+/).filter(Boolean)`: the whitespace-separated words of `s`. */
  function Words(s: string): (ws: seq<string>)
    ensures forall w :: w in ws ==> w != [] && forall c :: c in w ==> !IsSpace(c)
  {
    NonEmpty(SplitOnRuns(s, IsSpace))
  }

  /** The empty string has no words. */
  lemma WordsOfEmpty()
    ensures Words("") == []
  {
    assert SplitOnRuns("", IsSpace) == [[]];
    assert NonEmpty([[]]) == NonEmpty([]);
  }

  /** A string without whitespace is a single word. */
  lemma OneWord(s: string)
    requires s != []
    requires forall c :: c in s ==> !IsSpace(c)
    ensures Words(s) == [s]
  {
    SplitOnRunsNoSeparator(s, IsSpace);
    assert NonEmpty([s]) == [s] + NonEmpty([]);
  }

  /** Words are the maximal runs of non-whitespace: a run of whitespace, however long, ends a word. */
  lemma WordsAtRun(w: string, run: string, t: string)
    requires w != [] && forall c :: c in w ==> !IsSpace(c)
    requires run != [] && forall c :: c in run ==> IsSpace(c)
    requires t == [] || !IsSpace(t[0])
    ensures Words(w + run + t) == [w] + Words(t)
  {
    SplitOnRunsAtRun(w, run, t, IsSpace);
    var rest := SplitOnRuns(t, IsSpace);
    assert ([w] + rest)[1..] == rest;
  }

  /** Leading whitespace produces no word. */
  lemma WordsAfterLeadingRun(run: string, t: string)
    requires forall c :: c in run ==> IsSpace(c)
    requires t == [] || !IsSpace(t[0])
    ensures Words(run + t) == Words(t)
  {
    if run == [] {
      assert run + t == t;
    } else {
      SplitOnRunsAtRun([], run, t, IsSpace);
      assert [] + run + t == run + t;
      var rest := SplitOnRuns(t, IsSpace);
      assert ([[]] + rest)[1..] == rest;
    }
  }

  /**
   * A candidate word is close enough to a query word: every word is close to
   * itself, and a close word is at most the threshold longer or shorter.
   */
  predicate WordClose(cw: string, qw: string): (r: bool)
    ensures cw == qw ==> r
    ensures r ==> |cw| <= |qw| + Threshold(|qw|) && |qw| <= |cw| + Threshold(|qw|)
  {
    EditDistanceToSelf(qw);
    EditDistance(cw, qw) <= Threshold(|qw|)
  }

  /**
   * `queryWords.every(qw => candidateWords.some(cw => ...))`: no query words
   * always pass, query words that are all candidate words pass, and any query
   * word needs some candidate word.
   */
  predicate EveryWordClose(queryWords: seq<string>, candidateWords: seq<string>): (r: bool)
    ensures queryWords == [] ==> r
    ensures (forall qw :: qw in queryWords ==> qw in candidateWords) ==> r
    ensures r && queryWords != [] ==> candidateWords != []
  {
    assert queryWords != [] ==> queryWords[0] in queryWords;
    forall qw :: qw in queryWords ==> exists cw :: cw in candidateWords && WordClose(cw, qw)
  }

  /**
   * `fuzzyMatch(candidate, query)`; an absent argument reads as the empty
   * string.
   */
  function FuzzyMatch(candidate: Option<string>, query: Option<string>): (r: bool)
    ensures Lower(query.GetOr("")) == "" ==> r
    ensures Includes(Lower(candidate.GetOr("")), Lower(query.GetOr(""))) ==> r
    ensures Lower(candidate.GetOr("")) == Lower(query.GetOr("")) ==> r
  {
    var lowerCandidate := Lower(candidate.GetOr(""));
    var lowerQuery := Lower(query.GetOr(""));
    if lowerQuery == "" then true
    else if Includes(lowerCandidate, lowerQuery) then true
    else EveryWordClose(Words(lowerQuery), Words(lowerCandidate))
  }

  // ---------------------------------------------------------------------
  // The edit distance.

  /** Distance to or from the empty string is the other string's length. */
  lemma EditDistanceFromEmpty(s: string)
    ensures EditDistance(s, "") == |s| && EditDistance("", s) == |s|
  {
  }

  /** A string is at distance zero from itself. */
  lemma {:induction false} EditDistanceToSelf(s: string)
    ensures EditDistance(s, s) == 0
  {
    if s != [] {
      EditDistanceToSelf(s[..|s| - 1]);
    }
  }

  /** Distance zero means equal strings, and only then. */
  lemma {:induction false} EditDistanceZeroIff(a: string, b: string)
    ensures EditDistance(a, b) == 0 <==> a == b
    decreases |a| + |b|
  {
    if a == b {
      EditDistanceToSelf(a);
    } else if |a| != 0 && |b| != 0 {
      var a', b' := a[..|a| - 1], b[..|b| - 1];
      if a[|a| - 1] == b[|b| - 1] {
        EditDistanceZeroIff(a', b');
      }
    }
  }

  /** The distance does not depend on the order of its arguments. */
  lemma {:induction false} EditDistanceSymmetric(a: string, b: string)
    ensures EditDistance(a, b) == EditDistance(b, a)
    decreases |a| + |b|
  {
    if |a| != 0 && |b| != 0 {
      var a', b' := a[..|a| - 1], b[..|b| - 1];
      EditDistanceSymmetric(a', b');
      EditDistanceSymmetric(a, b');
      EditDistanceSymmetric(a', b);
    }
  }

  /** Equal-length strings that mismatch in at most one position. */
  predicate AtMostOneMismatch(a: string, b: string)
    requires |a| == |b|
  {
    forall i, j :: 0 <= i < j < |a| ==> a[i] == b[i] || a[j] == b[j]
  }

  /** A single substitution costs at most one edit. */
  lemma {:induction false} SubstitutionCostsOne(a: string, b: string, k: nat)
    requires |a| == |b| && k < |a|
    requires forall i :: 0 <= i < |a| && i != k ==> a[i] == b[i]
    ensures EditDistance(a, b) <= 1
  {
    var a', b' := a[..|a| - 1], b[..|b| - 1];
    if k == |a| - 1 {
      assert a' == b';
      EditDistanceToSelf(a');
    } else {
      SubstitutionCostsOne(a', b', k);
    }
  }

  /** Equal-length strings that agree everywhere but at the end mismatch at most once. */
  lemma MismatchOnlyAtEnd(a: string, b: string)
    requires |a| == |b| > 0 && a[..|a| - 1] == b[..|b| - 1]
    ensures AtMostOneMismatch(a, b)
  {
    forall i | 0 <= i < |a| - 1
      ensures a[i] == b[i]
    {
      assert a[i] == a[..|a| - 1][i];
    }
  }

  /**
   * Between strings of equal length, one edit is enough exactly when they
   * mismatch in at most one position: swapping two adjacent different
   * characters costs two edits.
   */
  lemma {:induction false} WithinOneEditIff(a: string, b: string)
    requires |a| == |b|
    ensures EditDistance(a, b) <= 1 <==> AtMostOneMismatch(a, b)
  {
    if AtMostOneMismatch(a, b) {
      if a == b {
        EditDistanceToSelf(a);
      } else {
        var k :| 0 <= k < |a| && a[k] != b[k];
        SubstitutionCostsOne(a, b, k);
      }
    }
    if EditDistance(a, b) <= 1 && |a| != 0 {
      var n := |a|;
      var a', b' := a[..n - 1], b[..n - 1];
      if a[n - 1] == b[n - 1] {
        WithinOneEditIff(a', b');
        assert AtMostOneMismatch(a', b');
        forall i, j | 0 <= i < j < n
          ensures a[i] == b[i] || a[j] == b[j]
        {
          if j < n - 1 {
            assert a'[i] == b'[i] || a'[j] == b'[j];
          }
        }
      } else if EditDistance(a', b') == 0 {
        EditDistanceZeroIff(a', b');
        MismatchOnlyAtEnd(a, b);
      } else if EditDistance(a, b') == 0 {
        EditDistanceZeroIff(a, b');
      } else {
        EditDistanceZeroIff(a', b);
      }
    }
  }

  /** The number of characters of `b` that occur nowhere in `a`. */
  function Foreign(a: string, b: string): (r: nat)
    ensures r <= |b|
  {
    if b == [] then 0
    else Foreign(a, b[..|b| - 1]) + (if b[|b| - 1] in a then 0 else 1)
  }

  /** Fewer characters are foreign to a string with more characters. */
  lemma {:induction false} ForeignAntitone(a1: string, a2: string, b: string)
    requires forall c :: c in a1 ==> c in a2
    ensures Foreign(a2, b) <= Foreign(a1, b)
  {
    if b != [] {
      ForeignAntitone(a1, a2, b[..|b| - 1]);
    }
  }

  /** Every character of `b` that `a` lacks costs at least one edit. */
  lemma {:induction false} ForeignLowerBound(a: string, b: string)
    ensures Foreign(a, b) <= EditDistance(a, b)
    decreases |a| + |b|
  {
    if |a| != 0 && |b| != 0 {
      var a', b' := a[..|a| - 1], b[..|b| - 1];
      ForeignAntitone(a', a, b');
      ForeignAntitone(a', a, b);
      ForeignLowerBound(a', b');
      ForeignLowerBound(a, b');
      ForeignLowerBound(a', b);
      assert a[|a| - 1] in a;
    }
  }

  // ---------------------------------------------------------------------
  // The matcher.

  /** An empty or absent query matches every candidate. */
  lemma EmptyQueryMatchesAll(candidate: Option<string>)
    ensures FuzzyMatch(candidate, None) && FuzzyMatch(candidate, Some(""))
  {
  }

  /**
   * Matching ignores case: only the lowercased inputs matter. The upper-casing
   * half holds for the ASCII case mapping modelled here.
   */
  lemma CaseInsensitive(candidate: string, query: string)
    ensures FuzzyMatch(Some(Lower(candidate)), Some(Lower(query))) == FuzzyMatch(Some(candidate), Some(query))
    ensures FuzzyMatch(Some(Upper(candidate)), Some(Upper(query))) == FuzzyMatch(Some(candidate), Some(query))
  {
    LowerIdempotent(candidate);
    LowerIdempotent(query);
    LowerOfUpper(candidate);
    LowerOfUpper(query);
  }

  /** A query of whitespace only has no words, so it matches every candidate. */
  lemma WhitespaceQueryMatchesAll(candidate: Option<string>, query: string)
    requires forall c :: c in query ==> IsSpace(c)
    ensures FuzzyMatch(candidate, Some(query))
  {
    var lq := Lower(query);
    assert forall c :: c in lq ==> IsSpace(c) by {
      forall c | c in lq ensures IsSpace(c) {
        var k :| 0 <= k < |lq| && lq[k] == c;
        assert query[k] in query;
      }
    }
    SplitOnRunsAllSeparators(lq, IsSpace);
    NonEmptyOfEmpties(SplitOnRuns(lq, IsSpace));
  }

  /** Query words that all occur among the candidate's words match in any order. */
  lemma SameWordsMatch(candidate: string, query: string)
    requires forall qw :: qw in Words(Lower(query)) ==> qw in Words(Lower(candidate))
    ensures FuzzyMatch(Some(candidate), Some(query))
  {
    forall qw | qw in Words(Lower(query))
      ensures exists cw :: cw in Words(Lower(candidate)) && WordClose(cw, qw)
    {
      EditDistanceToSelf(qw);
      assert WordClose(qw, qw);
    }
  }

  /**
   * A query that is not contained in the candidate fails as soon as one of
   * its words is too far from every candidate word.
   */
  lemma OneFarWordRejects(candidate: string, query: string, qw: string)
    requires !Includes(Lower(candidate), Lower(query))
    requires qw in Words(Lower(query))
    requires forall cw :: cw in Words(Lower(candidate)) ==> Threshold(|qw|) < EditDistance(cw, qw)
    ensures !FuzzyMatch(Some(candidate), Some(query))
  {
  }
}
