/**
 * Worked examples of the search matcher on catalogue names.
 */
module FuzzyExamples {
  import opened Wrappers
  import opened JsStrings
  import opened Fuzzy

  /** Splits a two-word string, the words separated by one run of whitespace, into its two words. */
  lemma TwoWords(s: string, w1: string, w2: string, run: string)
    requires w1 != [] && w2 != []
    requires forall c :: c in w1 ==> !IsSpace(c)
    requires forall c :: c in w2 ==> !IsSpace(c)
    requires run != [] && forall c :: c in run ==> IsSpace(c)
    requires s == w1 + run + w2
    ensures Words(s) == [w1, w2]
  {
    assert w2[0] in w2;
    WordsAtRun(w1, run, w2);
    OneWord(w2);
  }

  lemma SplitTextWords(c: string)
    requires c == "Split Text"
    ensures Lower(c) == "split text" && Words(Lower(c)) == ["split", "text"]
  {
    assert Lower(c) == "split text";
    TwoWords("split text", "split", "text", " ");
  }

  lemma PslitNotIncluded(s: string, t: string)
    requires s == "split text" && t == "pslit"
    ensures !Includes(s, t)
  {
    forall i | 0 <= i <= |s| ensures !OccursAt(s, t, i) {
      assert i + |t| <= |s| ==> s[i..i + |t|][0] == s[i] && s[i..i + |t|][1] == s[i + 1];
    }
  }

  lemma PslitFar(w1: string, w2: string, t: string)
    requires w1 == "split" && w2 == "text" && t == "pslit"
    ensures EditDistance(w1, t) > 1 && EditDistance(w2, t) > 1
  {
    WithinOneEditIff(w1, t);
    assert w1[0] != t[0] && w1[1] != t[1];
    ForeignLowerBound(w2, t);
    ForeignLetters();
  }

  /** How many letters of "pslit" and "rocks" the candidate words lack. */
  lemma ForeignLetters()
    ensures Foreign("text", "pslit") == 4
    ensures Foreign("glass", "rocks") == 4 && Foreign("icons", "rocks") == 2
  {
    assert "pslit"[..4] == "psli" && "psli"[..3] == "psl" && "psl"[..2] == "ps" && "ps"[..1] == "p";
    assert "rocks"[..4] == "rock" && "rock"[..3] == "roc" && "roc"[..2] == "ro" && "ro"[..1] == "r";
  }

  /**
   * Swapping two adjacent letters costs two edits, beyond the threshold of
   * one for a five-letter word: "pslit" does not find "Split Text".
   */
  lemma TranspositionRejected(candidate: string, query: string)
    requires candidate == "Split Text" && query == "pslit"
    ensures !FuzzyMatch(Some(candidate), Some(query))
  {
    SplitTextWords(candidate);
    assert Lower(query) == query;
    OneWord(query);
    PslitNotIncluded(Lower(candidate), query);
    PslitFar("split", "text", query);
    OneFarWordRejects(candidate, query, query);
  }

  lemma GlassIconsWords(c: string)
    requires c == "Glass Icons"
    ensures Lower(c) == "glass icons" && Words(Lower(c)) == ["glass", "icons"]
  {
    GlassIconsLower(c);
    TwoWords("glass icons", "glass", "icons", " ");
  }

  lemma GlassIconsLower(c: string)
    requires c == "Glass Icons"
    ensures Lower(c) == "glass icons"
  {
  }

  lemma GlassRocksWords(q: string)
    requires q == "glass rocks"
    ensures Lower(q) == q && Words(q) == ["glass", "rocks"]
  {
    assert Lower(q) == q;
    TwoWords(q, "glass", "rocks", " ");
  }

  lemma GlassRocksNotIncluded(s: string, t: string)
    requires s == "glass icons" && t == "glass rocks"
    ensures !Includes(s, t)
  {
    assert s[6] != t[6];
    assert !OccursAt(s, t, 0);
  }

  lemma RocksFar(w1: string, w2: string, w: string)
    requires w1 == "glass" && w2 == "icons" && w == "rocks"
    ensures EditDistance(w1, w) > 1 && EditDistance(w2, w) > 1
  {
    ForeignLowerBound(w1, w);
    ForeignLowerBound(w2, w);
    ForeignLetters();
  }

  /**
   * A query word whose letters mostly do not occur in any candidate word is
   * rejected even when the other query word matches exactly.
   */
  lemma UnmatchedWordRejects(candidate: string, query: string)
    requires candidate == "Glass Icons" && query == "glass rocks"
    ensures !FuzzyMatch(Some(candidate), Some(query))
  {
    GlassIconsWords(candidate);
    GlassRocksWords(query);
    GlassRocksNotIncluded(Lower(candidate), query);
    RocksFar("glass", "icons", "rocks");
    OneFarWordRejects(candidate, query, "rocks");
  }

  lemma TextSplitWords(q: string)
    requires q == "Text Split"
    ensures Words(Lower(q)) == ["text", "split"]
  {
    TextSplitLower(q);
    TwoWords("text split", "text", "split", " ");
  }

  lemma TextSplitLower(q: string)
    requires q == "Text Split"
    ensures Lower(q) == "text split"
  {
  }

  /** The words of a name match in any order. */
  lemma ReorderedWordsMatch(candidate: string, query: string)
    requires candidate == "Split Text" && query == "Text Split"
    ensures FuzzyMatch(Some(candidate), Some(query))
  {
    SplitTextWords(candidate);
    TextSplitWords(query);
    SameWordsMatch(candidate, query);
  }

  /** One mistyped letter in a word is tolerated. */
  lemma TypoMatches(candidate: string, query: string)
    requires candidate == "Split Text" && query == "Spkit"
    ensures FuzzyMatch(Some(candidate), Some(query))
  {
    SplitTextWords(candidate);
    SpkitWords(query);
    SubstitutionCostsOne("split", "spkit", 2);
    assert WordClose("split", "spkit");
  }

  lemma SpkitWords(q: string)
    requires q == "Spkit"
    ensures Words(Lower(q)) == ["spkit"]
  {
    SpkitLower(q);
    OneWord("spkit");
  }

  lemma SpkitLower(q: string)
    requires q == "Spkit"
    ensures Lower(q) == "spkit"
  {
  }

  /** A run of several whitespace characters separates words like a single space. */
  lemma WhitespaceRunMatches(candidate: string, query: string)
    requires candidate == "Split Text" && query == "text \t split"
    ensures FuzzyMatch(Some(candidate), Some(query))
  {
    SplitTextWords(candidate);
    TabbedWords(query);
    SameWordsMatch(candidate, query);
  }

  lemma TabbedWords(q: string)
    requires q == "text \t split"
    ensures Words(Lower(q)) == ["text", "split"]
  {
    TabbedLower(q);
    TwoWords(q, "text", "split", " \t ");
  }

  lemma TabbedLower(q: string)
    requires q == "text \t split"
    ensures Lower(q) == q
  {
  }
}
