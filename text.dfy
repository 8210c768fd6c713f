/**
 * Character classes and the three string transforms the tokenizer applies:
 * lowercasing (`str.lower`), replacing every character that is neither a word
 * character nor whitespace by a space (`re.sub(r'[^\w\s]', ' ', text)`), and
 * splitting on runs of whitespace (`str.split()` with no argument).
 *
 * The classes are those of Python restricted to ASCII: a word character is a
 * letter, a digit or `_`; whitespace is the space and the control codes 9-13
 * and 28-31 (the ASCII characters for which `str.isspace()` holds, which are
 * also the ones `\s` matches). Every other character, including every
 * non-ASCII one, is neither.
 */
module Text {

  predicate IsUpper(c: char) {
    'A' <= c <= 'Z'
  }

  /** A character `\w` matches. */
  predicate IsWordChar(c: char) {
    ('a' <= c <= 'z') || IsUpper(c) || ('0' <= c <= '9') || c == '_'
  }

  /** A character `\s` matches and `str.split()` splits on. */
  predicate IsSpace(c: char) {
    c == ' ' || (9 <= c as int <= 13) || (28 <= c as int <= 31)
  }

  /** The characters a normalized token may contain. */
  predicate IsLowerWordChar(c: char) {
    IsWordChar(c) && !IsUpper(c)
  }

  function ToLower(c: char): (r: char)
    ensures !IsUpper(r)
    ensures IsWordChar(r) == IsWordChar(c) && IsSpace(r) == IsSpace(c)
    ensures !IsUpper(c) ==> r == c
    ensures IsUpper(c) ==> r as int == c as int + 32
  {
    if IsUpper(c) then (c as int + 32) as char else c
  }

  /** `str.lower()`: the same string with every upper-case letter replaced by its lower-case one. */
  function Lower(s: string): (r: string)
    ensures |r| == |s|
    ensures forall i :: 0 <= i < |r| ==> !IsUpper(r[i])
    ensures forall i :: 0 <= i < |r| ==> IsWordChar(r[i]) == IsWordChar(s[i]) && IsSpace(r[i]) == IsSpace(s[i])
    ensures forall i :: 0 <= i < |s| && IsUpper(s[i]) ==> r[i] as int == s[i] as int + 32
    ensures (forall i :: 0 <= i < |s| ==> !IsUpper(s[i])) ==> r == s
  {
    seq(|s|, i requires 0 <= i < |s| => ToLower(s[i]))
  }

  /** Two characters that are equal, or an upper-case letter and its own lower-case letter. */
  predicate SameCharUpToCase(x: char, y: char) {
    || x == y
    || (IsUpper(x) && y as int == x as int + 32)
    || (IsUpper(y) && x as int == y as int + 32)
  }

  /** Two strings that differ at most in the case of their letters. */
  predicate SameUpToCase(a: string, b: string) {
    |a| == |b| && forall i :: 0 <= i < |a| ==> SameCharUpToCase(a[i], b[i])
  }

  /** Lowercasing merges exactly the strings that differ only in the case of their letters. */
  lemma LowerMergesCase(a: string, b: string)
    ensures Lower(a) == Lower(b) <==> SameUpToCase(a, b)
  {
    if Lower(a) == Lower(b) {
      forall i | 0 <= i < |a| ensures SameCharUpToCase(a[i], b[i]) {
        assert Lower(a)[i] == Lower(b)[i];
      }
    }
    if SameUpToCase(a, b) {
      forall i | 0 <= i < |a| ensures Lower(a)[i] == Lower(b)[i] {
        assert SameCharUpToCase(a[i], b[i]);
      }
    }
  }

  /** `re.sub(r'[^\w\s]', ' ', s)`: every character that is neither a word character nor whitespace becomes a space. */
  function Scrub(s: string): (r: string)
    ensures |r| == |s|
    ensures forall i :: 0 <= i < |r| ==> IsWordChar(r[i]) || IsSpace(r[i])
    ensures forall i :: 0 <= i < |r| ==> r[i] == s[i] || (r[i] == ' ' && !IsWordChar(s[i]) && !IsSpace(s[i]))
    ensures (forall i :: 0 <= i < |s| ==> IsWordChar(s[i]) || IsSpace(s[i])) ==> r == s
  {
    seq(|s|, i requires 0 <= i < |s| => if IsWordChar(s[i]) || IsSpace(s[i]) then s[i] else ' ')
  }

  /** A word `str.split()` can produce: non-empty and free of whitespace. */
  predicate IsWord(w: string) {
    w != [] && forall j :: 0 <= j < |w| ==> !IsSpace(w[j])
  }

  /** The length of the run of non-whitespace characters that starts `s`. */
  function LeadingWordLength(s: string): (n: nat)
    requires s != [] && !IsSpace(s[0])
    ensures 1 <= n <= |s|
    ensures forall j :: 0 <= j < n ==> !IsSpace(s[j])
    ensures n == |s| || IsSpace(s[n])
  {
    if |s| == 1 || IsSpace(s[1]) then 1 else 1 + LeadingWordLength(s[1..])
  }

  /** `str.split()`: the maximal runs of non-whitespace characters of `s`, in order. */
  function Split(s: string): (ws: seq<string>)
    ensures forall i :: 0 <= i < |ws| ==> IsWord(ws[i])
    decreases |s|
  {
    if s == [] then []
    else if IsSpace(s[0]) then Split(s[1..])
    else
      var n := LeadingWordLength(s);
      [s[..n]] + Split(s[n..])
  }

  /** `' '.join(ws)`. */
  function Join(ws: seq<string>): string {
    if ws == [] then []
    else if |ws| == 1 then ws[0]
    else ws[0] + [' '] + Join(ws[1..])
  }

  /** All strings of `ws` concatenated with nothing between them. */
  function Concat(ws: seq<string>): string {
    if ws == [] then [] else ws[0] + Concat(ws[1..])
  }

  /** `s` with every whitespace character deleted. */
  function RemoveSpaces(s: string): string {
    if s == [] then []
    else if IsSpace(s[0]) then RemoveSpaces(s[1..])
    else [s[0]] + RemoveSpaces(s[1..])
  }

  /** Splitting loses nothing but whitespace: the words, put back together, are `s` without its whitespace. */
  lemma {:induction false} SplitLosesOnlySpaces(s: string)
    ensures Concat(Split(s)) == RemoveSpaces(s)
    decreases |s|
  {
    if s == [] {
    } else if IsSpace(s[0]) {
      SplitLosesOnlySpaces(s[1..]);
    } else {
      var n := LeadingWordLength(s);
      SplitLosesOnlySpaces(s[n..]);
      RemoveSpacesOfWord(s, n);
      assert Split(s) == [s[..n]] + Split(s[n..]);
    }
  }

  /** Deleting whitespace from `s` keeps its leading run of `n` non-whitespace characters intact. */
  lemma {:induction false} RemoveSpacesOfWord(s: string, n: nat)
    requires n <= |s|
    requires forall j :: 0 <= j < n ==> !IsSpace(s[j])
    ensures RemoveSpaces(s) == s[..n] + RemoveSpaces(s[n..])
  {
    if n > 0 {
      RemoveSpacesOfWord(s[1..], n - 1);
      assert s[1..][n - 1..] == s[n..];
      assert s[..n] == [s[0]] + s[1..][..n - 1];
    }
  }

  /** Every character of every word of `Split(s)` is a non-whitespace character of `s`. */
  lemma {:induction false} SplitCharsFromInput(s: string)
    ensures forall i, j :: 0 <= i < |Split(s)| && 0 <= j < |Split(s)[i]| ==> Split(s)[i][j] in s
    decreases |s|
  {
    if s == [] {
    } else if IsSpace(s[0]) {
      SplitCharsFromInput(s[1..]);
      forall i, j | 0 <= i < |Split(s)| && 0 <= j < |Split(s)[i]| ensures Split(s)[i][j] in s {
        assert Split(s)[i][j] in s[1..];
      }
    } else {
      var n := LeadingWordLength(s);
      SplitCharsFromInput(s[n..]);
      var ws := Split(s);
      assert ws == [s[..n]] + Split(s[n..]);
      forall i, j | 0 <= i < |ws| && 0 <= j < |ws[i]| ensures ws[i][j] in s {
        if i == 0 {
          assert ws[0][j] == s[j];
        } else {
          assert ws[i] == Split(s[n..])[i - 1];
          assert ws[i][j] in s[n..];
        }
      }
    }
  }

  /** Splitting one more leading whitespace character away changes nothing. */
  lemma SplitSkipsLeadingSpace(s: string)
    requires s != [] && IsSpace(s[0])
    ensures Split(s) == Split(s[1..])
  {
  }

  /** The whitespace split undoes a single-space join of well-formed words. */
  lemma {:induction false} SplitJoin(ws: seq<string>)
    requires forall i :: 0 <= i < |ws| ==> IsWord(ws[i])
    ensures Split(Join(ws)) == ws
  {
    if ws == [] {
    } else if |ws| == 1 {
      var w := ws[0];
      var n := LeadingWordLength(w);
      assert n == |w| by {
        assert forall j :: 0 <= j < |w| ==> !IsSpace(w[j]);
      }
      assert w[n..] == [];
      assert w[..n] == w;
    } else {
      var w := ws[0];
      var rest := Join(ws[1..]);
      var s := w + [' '] + rest;
      assert Join(ws) == s;
      var n := LeadingWordLength(s);
      assert n == |w| by {
        assert forall j :: 0 <= j < |w| ==> s[j] == w[j] && !IsSpace(s[j]);
        assert IsSpace(s[|w|]);
      }
      assert s[..n] == w;
      assert s[n..] == [' '] + rest;
      SplitSkipsLeadingSpace(s[n..]);
      assert s[n..][1..] == rest;
      SplitJoin(ws[1..]);
      assert Split(s) == [w] + ws[1..];
    }
  }

  /** The leading run ends at the first whitespace character, or at the end. */
  lemma LeadingWordLengthIs(s: string, n: nat)
    requires s != [] && !IsSpace(s[0])
    requires 1 <= n <= |s|
    requires forall j :: 0 <= j < n ==> !IsSpace(s[j])
    requires n == |s| || IsSpace(s[n])
    ensures LeadingWordLength(s) == n
  {
  }

  /** A single word splits into itself. */
  lemma SplitOfWord(w: string)
    requires IsWord(w)
    ensures Split(w) == [w]
  {
    LeadingWordLengthIs(w, |w|);
    assert w[..|w|] == w;
    assert w[|w|..] == [];
  }

  /**
   * A whitespace character separates: the words of `a`, a whitespace
   * character and `b` are the words of `a` followed by those of `b`. With
   * `SplitOfWord` this fixes `Split` on every string, as the maximal runs of
   * non-whitespace characters.
   */
  lemma {:induction false} SplitAtSpace(a: string, c: char, b: string)
    requires IsSpace(c)
    ensures Split(a + [c] + b) == Split(a) + Split(b)
    decreases |a|
  {
    var s := a + [c] + b;
    if a == [] {
      assert s == [c] + b;
      assert s[1..] == b;
    } else if IsSpace(a[0]) {
      assert s[1..] == a[1..] + [c] + b;
      SplitAtSpace(a[1..], c, b);
    } else {
      var m := LeadingWordLength(a);
      forall j | 0 <= j < m ensures !IsSpace(s[j]) {
        assert s[j] == a[j];
      }
      assert IsSpace(s[m]) by {
        if m < |a| {
          assert s[m] == a[m];
        } else {
          assert s[m] == c;
        }
      }
      LeadingWordLengthIs(s, m);
      assert s[..m] == a[..m];
      assert s[m..] == a[m..] + [c] + b;
      SplitAtSpace(a[m..], c, b);
      assert Split(s) == [a[..m]] + Split(a[m..] + [c] + b);
      assert Split(a) == [a[..m]] + Split(a[m..]);
    }
  }

  /** Words made of lower-case word characters, joined by spaces, give text made of those and spaces only. */
  lemma {:induction false} JoinOfLowerWords(ws: seq<string>)
    requires forall i, j :: 0 <= i < |ws| && 0 <= j < |ws[i]| ==> IsLowerWordChar(ws[i][j])
    ensures forall k :: 0 <= k < |Join(ws)| ==> IsLowerWordChar(Join(ws)[k]) || Join(ws)[k] == ' '
  {
    if |ws| == 1 {
      assert forall j :: 0 <= j < |ws[0]| ==> IsLowerWordChar(ws[0][j]);
    } else if |ws| > 1 {
      var w, rest := ws[0], Join(ws[1..]);
      JoinOfLowerWords(ws[1..]);
      assert Join(ws) == w + [' '] + rest;
      forall k | 0 <= k < |Join(ws)| ensures IsLowerWordChar(Join(ws)[k]) || Join(ws)[k] == ' ' {
        if k < |w| {
          assert Join(ws)[k] == w[k];
        } else if k > |w| {
          assert Join(ws)[k] == rest[k - |w| - 1];
        }
      }
    }
  }
}
