/**
 * The résumé keyword matcher of the analyzer's upload page: the résumé text
 * is extracted and lower-cased, every vocabulary keyword that occurs in it
 * is collected in vocabulary order, the match percentage is the matched
 * share of the vocabulary, and the keywords that did not occur are offered
 * as suggestions.
 */
module App {
  import opened Text

  /** The fixed vocabulary every résumé is scored against. */
  const JobKeywords: seq<string> := [
    "python", "machine learning", "data analysis", "flask", "api",
    "pandas", "tensorflow", "nlp", "deep learning", "cloud"
  ]

  /** No entry of `s` appears twice. */
  predicate Distinct(s: seq<string>) {
    forall i, j :: 0 <= i < j < |s| ==> s[i] != s[j]
  }

  /** The entries of `s`, forgetting order and repetition (Python's `set(s)`). */
  function Elems(s: seq<string>): set<string> {
    set kw | kw in s
  }

  /**
   * The vocabulary has ten entries, none repeated, none empty, and all
   * already lower-case, so they can be found in lower-cased text.
   */
  lemma JobKeywordsWellFormed()
    ensures |JobKeywords| == 10
    ensures Distinct(JobKeywords)
    ensures forall kw :: kw in JobKeywords ==> kw != "" && IsLowercase(kw)
  {
  }

  /**
   * The keywords of `keywords` that occur in `text`, in the order of
   * `keywords` (the list comprehension `[kw for kw in keywords if kw in text]`).
   * A keyword is kept exactly when it occurs as a substring; there is no
   * word-boundary test.
   */
  function Matched(keywords: seq<string>, text: string): (m: seq<string>)
    ensures |m| <= |keywords|
    ensures forall kw :: kw in m <==> kw in keywords && Contains(text, kw)
  {
    if keywords == [] then
      []
    else
      assert keywords == [keywords[0]] + keywords[1..];
      (if Occurs(text, keywords[0]) then [keywords[0]] else []) + Matched(keywords[1..], text)
  }

  /** `sub` is `s` read at the strictly increasing positions `idx`. */
  ghost predicate Embeds(sub: seq<string>, s: seq<string>, idx: seq<nat>) {
    && |idx| == |sub|
    && (forall j :: 0 <= j < |idx| ==> idx[j] < |s| && sub[j] == s[idx[j]])
    && (forall j, k :: 0 <= j < k < |idx| ==> idx[j] < idx[k])
  }

  /** Every position moved one place to the right. */
  ghost function Shifted(idx: seq<nat>): (r: seq<nat>)
    ensures |r| == |idx|
    ensures 0 !in r
  {
    seq(|idx|, j requires 0 <= j < |idx| => idx[j] + 1)
  }

  /** The positions in `keywords` of the keywords that occur in `text`, in increasing order. */
  ghost function MatchedPositions(keywords: seq<string>, text: string): seq<nat> {
    if keywords == [] then
      []
    else
      (if Occurs(text, keywords[0]) then [0] else []) + Shifted(MatchedPositions(keywords[1..], text))
  }

  /** Shifting positions moves membership by one. */
  lemma ShiftedMembers(idx: seq<nat>, i: int)
    requires i >= 1
    ensures i in Shifted(idx) <==> i - 1 in idx
  {
    var sh := Shifted(idx);
    if i in sh {
      var j :| 0 <= j < |sh| && sh[j] == i;
      assert idx[j] == i - 1;
    }
    if i - 1 in idx {
      var j :| 0 <= j < |idx| && idx[j] == i - 1;
      assert sh[j] == i;
    }
  }

  /** Putting `x` in front of `s` keeps an embedding valid, with `x` read at position 0 or not at all. */
  lemma EmbedsCons(x: string, s: seq<string>, sub: seq<string>, idx: seq<nat>, keep: bool)
    requires Embeds(sub, s, idx)
    ensures Embeds((if keep then [x] else []) + sub, [x] + s,
                   (if keep then [0] else []) + Shifted(idx))
  {
    var sh := Shifted(idx);
    assert forall j :: 0 <= j < |idx| ==> sh[j] == idx[j] + 1;
    if keep {
      var sub', s', idx' := [x] + sub, [x] + s, [0] + sh;
      forall j | 0 <= j < |idx'| ensures idx'[j] < |s'| && sub'[j] == s'[idx'[j]] {
        if j > 0 {
          assert idx'[j] == idx[j - 1] + 1 && sub'[j] == sub[j - 1];
        }
      }
    }
  }

  /**
   * The matched keywords are the vocabulary read at increasing positions:
   * the result keeps the vocabulary's order.
   */
  lemma {:induction false} MatchedInOrder(keywords: seq<string>, text: string)
    ensures Embeds(Matched(keywords, text), keywords, MatchedPositions(keywords, text))
  {
    if keywords != [] {
      var tail := keywords[1..];
      MatchedInOrder(tail, text);
      assert keywords == [keywords[0]] + tail;
      EmbedsCons(keywords[0], tail, Matched(tail, text), MatchedPositions(tail, text),
                 Occurs(text, keywords[0]));
    }
  }

  /** A position of the vocabulary is read exactly when its keyword occurs in the text. */
  lemma {:induction false} MatchedPositionsExact(keywords: seq<string>, text: string)
    ensures forall i :: 0 <= i < |keywords| ==>
              (i in MatchedPositions(keywords, text) <==> Contains(text, keywords[i]))
  {
    if keywords != [] {
      var tail := keywords[1..];
      MatchedPositionsExact(tail, text);
      var rest := MatchedPositions(tail, text);
      forall i | 1 <= i < |keywords|
        ensures i in MatchedPositions(keywords, text) <==> Contains(text, keywords[i])
      {
        ShiftedMembers(rest, i);
        assert keywords[i] == tail[i - 1];
      }
    }
  }

  /** All keywords match exactly when every one of them occurs in the text. */
  lemma {:induction false} MatchedAll(keywords: seq<string>, text: string)
    ensures |Matched(keywords, text)| == |keywords| <==> forall kw :: kw in keywords ==> Contains(text, kw)
  {
    if keywords != [] {
      var tail := keywords[1..];
      MatchedAll(tail, text);
      assert keywords == [keywords[0]] + tail;
    }
  }

  /** No keyword matches exactly when none of them occurs in the text. */
  lemma {:induction false} MatchedNone(keywords: seq<string>, text: string)
    ensures Matched(keywords, text) == [] <==> forall kw :: kw in keywords ==> !Contains(text, kw)
  {
    if keywords != [] {
      var tail := keywords[1..];
      MatchedNone(tail, text);
      assert keywords == [keywords[0]] + tail;
    }
  }

  /** A duplicate-free vocabulary gives a duplicate-free match list. */
  lemma MatchedDistinct(keywords: seq<string>, text: string)
    requires Distinct(keywords)
    ensures Distinct(Matched(keywords, text))
  {
    MatchedInOrder(keywords, text);
    var m := Matched(keywords, text);
    var idx := MatchedPositions(keywords, text);
    forall j, k | 0 <= j < k < |m| ensures m[j] != m[k] {
      assert idx[j] < idx[k];
    }
  }

  /**
   * Matching is monotone in the text: whenever every keyword found in `t` is
   * also found in `u`, at least as many keywords match in `u`.
   */
  lemma {:induction false} MatchedCountMonotone(keywords: seq<string>, t: string, u: string)
    requires forall kw :: kw in keywords && Contains(t, kw) ==> Contains(u, kw)
    ensures |Matched(keywords, t)| <= |Matched(keywords, u)|
  {
    if keywords != [] {
      MatchedCountMonotone(keywords[1..], t, u);
    }
  }

  /**
   * A text that contains `t` (for instance `t` with more characters appended
   * or prepended) keeps every keyword `t` matched, and matches at least as
   * many.
   */
  lemma MatchedGrowsWithText(keywords: seq<string>, t: string, u: string)
    requires Contains(u, t)
    ensures forall kw :: kw in Matched(keywords, t) ==> kw in Matched(keywords, u)
    ensures |Matched(keywords, t)| <= |Matched(keywords, u)|
  {
    forall kw | kw in keywords && Contains(t, kw) ensures Contains(u, kw) {
      ContainsTransitive(u, t, kw);
    }
    MatchedCountMonotone(keywords, t, u);
  }

  /** The empty text matches no non-empty keyword. */
  lemma MatchedEmptyText(keywords: seq<string>)
    requires forall kw :: kw in keywords ==> kw != ""
    ensures Matched(keywords, "") == []
  {
    MatchedNone(keywords, "");
  }

  /**
   * The match percentage `(matched / total) * 100`, as an exact number: the
   * percentage times the total is 100 times the number matched. It is
   * at least 0, at most 100 exactly when no more keywords match than there
   * are, 100 exactly when all match, and 0 exactly when none does. A total
   * of zero is excluded: Python's division would raise.
   */
  function Score(matchedCount: nat, total: nat): (r: real)
    requires total > 0
    ensures r * total as real == 100.0 * matchedCount as real
    ensures 0.0 <= r
    ensures r <= 100.0 <==> matchedCount <= total
    ensures r == 100.0 <==> matchedCount == total
    ensures r == 0.0 <==> matchedCount == 0
  {
    var share := matchedCount as real / total as real;
    var r := share * 100.0;
    assert share * total as real == matchedCount as real;
    assert r * total as real == 100.0 * matchedCount as real;
    assert r <= 100.0 <==> r * total as real <= 100.0 * total as real;
    assert r == 100.0 <==> r * total as real == 100.0 * total as real;
    r
  }

  /**
   * The vocabulary minus the matched keywords (`set(keywords) - set(matched)`):
   * vocabulary keywords only, none of them matched, and together with the
   * matches they cover the vocabulary.
   */
  function Suggestions(keywords: seq<string>, matched: seq<string>): (r: set<string>)
    ensures r <= Elems(keywords)
    ensures r !! Elems(matched)
    ensures Elems(keywords) <= r + Elems(matched)
  {
    Elems(keywords) - Elems(matched)
  }

  /**
   * Suggestions and matches split the vocabulary: they share no keyword,
   * together they are the whole vocabulary, and a keyword is suggested
   * exactly when it does not occur in the text.
   */
  lemma SuggestionsPartition(keywords: seq<string>, text: string)
    ensures Suggestions(keywords, Matched(keywords, text)) !! Elems(Matched(keywords, text))
    ensures Suggestions(keywords, Matched(keywords, text)) + Elems(Matched(keywords, text)) == Elems(keywords)
    ensures forall kw :: kw in Suggestions(keywords, Matched(keywords, text)) <==>
              kw in keywords && !Contains(text, kw)
  {
  }

  /** The page's percentage and suggestions, with the match list they derive from. */
  datatype Analysis = Analysis(percent: real, matched: seq<string>, suggestions: set<string>)

  /**
   * The analysis of an already lower-cased résumé text against the
   * vocabulary. With ten keywords the exact percentage is ten times the
   * number matched, a value that rounding to two decimals leaves alone.
   */
  function Analyze(text: string): (a: Analysis)
    ensures 0.0 <= a.percent <= 100.0
    ensures a.percent == 10.0 * |a.matched| as real
    ensures a.percent == 100.0 <==> forall kw :: kw in JobKeywords ==> Contains(text, kw)
    ensures a.percent == 0.0 <==> forall kw :: kw in JobKeywords ==> !Contains(text, kw)
    ensures forall kw :: kw in a.matched <==> kw in JobKeywords && Contains(text, kw)
    ensures forall kw :: kw in a.suggestions <==> kw in JobKeywords && !Contains(text, kw)
    ensures a.suggestions !! Elems(a.matched) && a.suggestions + Elems(a.matched) == Elems(JobKeywords)
    ensures Distinct(a.matched)
  {
    JobKeywordsWellFormed();
    var matched := Matched(JobKeywords, text);
    MatchedDistinct(JobKeywords, text);
    MatchedAll(JobKeywords, text);
    MatchedNone(JobKeywords, text);
    SuggestionsPartition(JobKeywords, text);
    Analysis(Score(|matched|, |JobKeywords|), matched, Suggestions(JobKeywords, matched))
  }

  /**
   * The text of an uploaded résumé: the text the PDF or DOCX reader returns
   * (`extracted`) lower-cased, or the empty text for any other file name.
   */
  function ExtractText(filename: string, extracted: string): (text: string)
    ensures IsLowercase(text)
    ensures EndsWith(filename, ".pdf") || EndsWith(filename, ".docx") ==> Lower(text) == Lower(extracted)
    ensures !EndsWith(filename, ".pdf") && !EndsWith(filename, ".docx") ==> text == ""
  {
    LowerSpec(extracted);
    if EndsWith(filename, ".pdf") || EndsWith(filename, ".docx") then Lower(extracted) else ""
  }

  /**
   * Extraction followed by analysis, as the upload page runs them: the
   * percentage lies in [0, 100] and a vocabulary keyword is suggested exactly
   * when it is not matched.
   */
  function AnalyzeUpload(filename: string, extracted: string): (a: Analysis)
    ensures 0.0 <= a.percent <= 100.0
    ensures forall kw :: kw in a.suggestions <==> kw in JobKeywords && kw !in a.matched
  {
    Analyze(ExtractText(filename, extracted))
  }

  /**
   * A file that is neither `.pdf` nor `.docx` yields no text, so nothing
   * matches, the percentage is 0, and every keyword is suggested.
   */
  lemma UnsupportedFileScoresZero(filename: string, extracted: string)
    requires !EndsWith(filename, ".pdf") && !EndsWith(filename, ".docx")
    ensures AnalyzeUpload(filename, extracted) == Analysis(0.0, [], Elems(JobKeywords))
  {
    JobKeywordsWellFormed();
    MatchedEmptyText(JobKeywords);
  }

  /**
   * For a supported file, a keyword matches exactly when the résumé spells
   * it in any mix of upper and lower case.
   */
  lemma UploadIgnoresCase(filename: string, extracted: string, kw: string)
    requires EndsWith(filename, ".pdf") || EndsWith(filename, ".docx")
    requires kw in JobKeywords
    ensures kw in AnalyzeUpload(filename, extracted).matched <==> ContainsIgnoringCase(extracted, kw)
  {
    JobKeywordsWellFormed();
    LoweredSearch(extracted, kw);
  }

  /**
   * Appending to a résumé never loses a match and never lowers the
   * percentage.
   */
  lemma AppendingKeepsMatches(text: string, extra: string)
    ensures forall kw :: kw in Analyze(text).matched ==> kw in Analyze(text + extra).matched
    ensures Analyze(text).percent <= Analyze(text + extra).percent
  {
    ContainsParts(text, extra);
    MatchedGrowsWithText(JobKeywords, text, text + extra);
  }
}
