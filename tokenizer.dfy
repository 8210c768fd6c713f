/**
 * The tokenizer of the keyword analyzer: `extract_keywords_from_text`
 * turns a free-text field (a title or a description) into the sequence of
 * keywords it contains, in order and with duplicates kept.
 */
module Tokenizer {
  import opened Wrappers
  import opened Text

  /** The default `min_length` of `extract_keywords_from_text`. */
  const DefaultMinLength: int := 3

  /** The fixed stop-word set `STOP_WORDS` (its source list names "than" twice). */
  const StopWords: set<string> := {
    "the", "a", "an", "and", "or", "but", "in", "on", "at", "to", "for",
    "of", "with", "by", "from", "as", "is", "was", "are", "been", "be",
    "have", "has", "had", "do", "does", "did", "will", "would", "should",
    "could", "may", "might", "must", "can", "this", "that", "these", "those",
    "i", "you", "he", "she", "it", "we", "they", "them", "their", "what",
    "which", "who", "when", "where", "why", "how", "all", "each", "every",
    "both", "few", "more", "most", "other", "some", "such", "no", "not",
    "only", "own", "same", "so", "than", "too", "very", "s", "t", "just",
    "now", "my", "your", "our", "like", "get", "got", "new", "out",
    "up", "down", "over", "after", "before", "into", "through", "during"
  }

  /** The filter of the list comprehension: long enough and not a stop word. */
  predicate IsKeyword(w: string, minLength: int) {
    |w| >= minLength && w !in StopWords
  }

  /** A string the tokenizer can return: a keyword made of lower-case word characters only. */
  predicate IsToken(w: string, minLength: int) {
    && IsKeyword(w, minLength)
    && w != []
    && forall j :: 0 <= j < |w| ==> IsLowerWordChar(w[j])
  }

  /** Lowercase, then turn every character that is neither a word character nor whitespace into a space. */
  function Normalize(text: string): (r: string)
    ensures |r| == |text|
    ensures forall i :: 0 <= i < |r| ==> IsLowerWordChar(r[i]) || IsSpace(r[i])
  {
    var lowered := Lower(text);
    var r := Scrub(lowered);
    assert forall i :: 0 <= i < |r| ==> r[i] == lowered[i] || r[i] == ' ';
    r
  }

  /** Order-preserving selection of the words that pass the keyword filter. */
  function FilterKeywords(words: seq<string>, minLength: int): (ks: seq<string>)
    ensures forall i :: 0 <= i < |ks| ==> IsKeyword(ks[i], minLength)
    ensures forall w :: multiset(ks)[w] == if IsKeyword(w, minLength) then multiset(words)[w] else 0
  {
    if words == [] then []
    else
      assert words == [words[0]] + words[1..];
      (if IsKeyword(words[0], minLength) then [words[0]] else []) + FilterKeywords(words[1..], minLength)
  }

  /** `a` is `b` with some elements deleted (greedy matching decides this). */
  predicate IsSubsequence(a: seq<string>, b: seq<string>)
    decreases |b|
  {
    if a == [] then true
    else if b == [] then false
    else if a[0] == b[0] then IsSubsequence(a[1..], b[1..])
    else IsSubsequence(a, b[1..])
  }

  /** Filtering deletes words and never reorders them. */
  lemma {:induction false} FilterIsSubsequence(words: seq<string>, minLength: int)
    ensures IsSubsequence(FilterKeywords(words, minLength), words)
  {
    if words != [] {
      FilterIsSubsequence(words[1..], minLength);
      var rest := FilterKeywords(words[1..], minLength);
      assert words == [words[0]] + words[1..];
      if IsKeyword(words[0], minLength) {
        assert FilterKeywords(words, minLength) == [words[0]] + rest;
        assert ([words[0]] + rest)[1..] == rest;
      } else {
        assert FilterKeywords(words, minLength) == rest;
        SubsequenceCons(rest, words[0], words[1..]);
      }
    }
  }

  /** Putting one more element in front of `b` keeps `a` a subsequence of it. */
  lemma {:induction false} SubsequenceCons(a: seq<string>, x: string, b: seq<string>)
    requires IsSubsequence(a, b)
    ensures IsSubsequence(a, [x] + b)
    decreases |b|, 1
  {
    assert ([x] + b)[1..] == b;
    if a != [] && a[0] == x {
      SubsequenceDropHead(a, b);
    }
  }

  /** If `a` is a subsequence of `b`, so is `a` without its first element. */
  lemma {:induction false} SubsequenceDropHead(a: seq<string>, b: seq<string>)
    requires a != [] && IsSubsequence(a, b)
    ensures IsSubsequence(a[1..], b)
    decreases |b|, 0
  {
    assert b == [b[0]] + b[1..];
    if a[0] == b[0] {
      SubsequenceCons(a[1..], b[0], b[1..]);
    } else {
      SubsequenceDropHead(a, b[1..]);
      SubsequenceCons(a[1..], b[0], b[1..]);
    }
  }

  /** Every word of a normalized text is made of lower-case word characters. */
  lemma WordsOfNormalizedText(text: string)
    ensures forall i, j :: 0 <= i < |Split(Normalize(text))| && 0 <= j < |Split(Normalize(text))[i]| ==>
      IsLowerWordChar(Split(Normalize(text))[i][j])
  {
    var n := Normalize(text);
    SplitCharsFromInput(n);
    forall i, j | 0 <= i < |Split(n)| && 0 <= j < |Split(n)[i]| ensures IsLowerWordChar(Split(n)[i][j]) {
      var c := Split(n)[i][j];
      assert IsWord(Split(n)[i]);
      assert c in n;
    }
  }

  /**
   * `extract_keywords_from_text(text, min_length)`: an absent or empty text has no
   * keywords; otherwise the text is normalized, split on whitespace and filtered.
   */
  function ExtractKeywords(text: Option<string>, minLength: int): (ks: seq<string>)
    ensures text == None || text == Some([]) ==> ks == []
    ensures forall i :: 0 <= i < |ks| ==> IsToken(ks[i], minLength)
  {
    match text
    case None => []
    case Some(t) =>
      if t == [] then []
      else
        var words := Split(Normalize(t));
        var ks := FilterKeywords(words, minLength);
        WordsOfNormalizedText(t);
        assert forall i :: 0 <= i < |ks| ==> ks[i] in words by {
          forall i | 0 <= i < |ks| ensures ks[i] in words {
            assert multiset(ks)[ks[i]] > 0;
          }
        }
        ks
  }

  /**
   * The keywords of a present text are the whitespace-split words of its
   * normalized form that pass the filter, in their order and with every
   * repetition kept.
   */
  lemma ExtractKeywordsSelects(t: string, minLength: int)
    ensures IsSubsequence(ExtractKeywords(Some(t), minLength), Split(Normalize(t)))
    ensures forall w :: multiset(ExtractKeywords(Some(t), minLength))[w]
                        == if IsKeyword(w, minLength) then multiset(Split(Normalize(t)))[w] else 0
  {
    ExtractKeywordsOfPresentText(t, minLength);
    FilterIsSubsequence(Split(Normalize(t)), minLength);
  }

  lemma TokenIsWord(w: string, minLength: int)
    requires IsToken(w, minLength)
    ensures IsWord(w)
  {
    forall j | 0 <= j < |w| ensures !IsSpace(w[j]) {
      assert IsLowerWordChar(w[j]);
    }
  }

  /** Text made only of lower-case word characters and spaces is already normalized. */
  lemma NormalizeOfNormalText(s: string)
    requires forall i :: 0 <= i < |s| ==> IsLowerWordChar(s[i]) || s[i] == ' '
    ensures Normalize(s) == s
  {
    assert Lower(s) == s;
    assert Scrub(s) == s;
  }

  lemma {:induction false} FilterKeepsKeywords(ws: seq<string>, minLength: int)
    requires forall i :: 0 <= i < |ws| ==> IsKeyword(ws[i], minLength)
    ensures FilterKeywords(ws, minLength) == ws
  {
    if ws != [] {
      FilterKeepsKeywords(ws[1..], minLength);
    }
  }

  /**
   * The tokenizer is the identity on text that is already a single-space-separated
   * sequence of tokens.
   */
  lemma ExtractKeywordsOfJoinedTokens(ks: seq<string>, minLength: int)
    requires forall i :: 0 <= i < |ks| ==> IsToken(ks[i], minLength)
    ensures ExtractKeywords(Some(Join(ks)), minLength) == ks
  {
    PipelineOfJoinedTokens(ks, minLength);
    ExtractKeywordsOfPresentText(Join(ks), minLength);
  }

  /** On present text the empty-text guard changes nothing: empty text has no words either. */
  lemma ExtractKeywordsOfPresentText(t: string, minLength: int)
    ensures ExtractKeywords(Some(t), minLength) == FilterKeywords(Split(Normalize(t)), minLength)
  {
    if t == [] {
      assert Normalize(t) == [];
    }
  }

  lemma PipelineOfJoinedTokens(ks: seq<string>, minLength: int)
    requires forall i :: 0 <= i < |ks| ==> IsToken(ks[i], minLength)
    ensures FilterKeywords(Split(Normalize(Join(ks))), minLength) == ks
  {
    assert forall i, j :: 0 <= i < |ks| && 0 <= j < |ks[i]| ==> IsLowerWordChar(ks[i][j]);
    JoinedWordsAreNormal(ks);
    forall i | 0 <= i < |ks| ensures IsWord(ks[i]) {
      TokenIsWord(ks[i], minLength);
    }
    SplitJoin(ks);
    FilterKeepsKeywords(ks, minLength);
  }

  /** Lower-case words joined by single spaces form text that normalization leaves as it is. */
  lemma JoinedWordsAreNormal(ks: seq<string>)
    requires forall i, j :: 0 <= i < |ks| && 0 <= j < |ks[i]| ==> IsLowerWordChar(ks[i][j])
    ensures Normalize(Join(ks)) == Join(ks)
  {
    JoinOfLowerWords(ks);
    NormalizeOfNormalText(Join(ks));
  }

  /** A single token tokenizes to itself. */
  lemma ExtractKeywordsOfToken(x: string, minLength: int)
    requires IsToken(x, minLength)
    ensures ExtractKeywords(Some(x), minLength) == [x]
  {
    ExtractKeywordsOfJoinedTokens([x], minLength);
  }

  /** Tokenizing any keyword the tokenizer produced gives that keyword back, alone. */
  lemma ExtractKeywordsIdempotent(text: Option<string>, minLength: int, i: nat)
    requires i < |ExtractKeywords(text, minLength)|
    ensures ExtractKeywords(Some(ExtractKeywords(text, minLength)[i]), minLength) == [ExtractKeywords(text, minLength)[i]]
  {
    ExtractKeywordsOfToken(ExtractKeywords(text, minLength)[i], minLength);
  }
}
