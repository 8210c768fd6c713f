# YouTube trending-keywords analyzer: the aggregation core in Dafny

The analyzer fetches recent popular videos, counts which words, tags and
categories occur most, and prints and saves the top entries. This project
models the part of `analyze_keywords.py` that does the counting. That part
is deterministic and in memory:

- **the tokenizer** `extract_keywords_from_text` (module `Tokenizer`, with
  the string transforms it relies on in module `Text`). It lowercases a
  title or description, turns every character that is neither a word
  character nor whitespace into a space, and splits on whitespace. It keeps
  the words of at least `min_length` (default 3) characters that are not in
  the fixed `STOP_WORDS` set.
- **the aggregator** `analyze_videos` (module `Aggregator`). One loop over
  the video records pools the title and description keywords and the
  lowercased tags, and counts one category per video, under `'Unknown'`
  when the record has none. It returns three frequency tables.
- **the frequency table** `collections.Counter` (module `Counters`). A map
  from key to count that remembers the order in which keys were first
  inserted. Building one from a list is a fold of `c[k] += 1`.
- **the ranking** `Counter.most_common(n)` (module `Ranking`). The entries
  are sorted by descending count with a stable sort, so equal counts keep
  insertion order, and the first `n` are kept.
- **a two-record example** (module `Scenario`): two records whose tags
  differ only in case, both in category "10".

`AnalyzeVideos` is a method with the source's loop. Its `ensures` tie the
three tables to specification functions of the video list: `Pool`,
`AllKeywords`, `AllTags` and `CategoryKeys`. What the source promises about
those tables is proved as lemmas: counts equal occurrences, totals, key
shapes, additivity over batches, and tie order in the ranking. The method
also states these properties directly in its `ensures`.

Character classes are Python's restricted to ASCII:

- a word character (`\w`) is a letter, a digit or `_`;
- whitespace (`\s`, and what `str.split()` splits on) is the space and the
  codes 9-13 and 28-31;
- `str.lower()` maps `A`-`Z` to `a`-`z`;
- every non-ASCII character is neither a word character nor whitespace.

The "remove special characters" step (analyze_keywords.py:122-124) is
`re.sub(r'[^\w\s]', ' ', text)`: each character that is neither a word
character nor whitespace becomes a space, and whitespace is kept as it is
(a tab stays a tab). The split that follows treats every whitespace
character alike.

## Model

| member | source | states |
|---|---|---|
| Text.Lower | analyze_keywords.py:123 | `text.lower()` keeps the length and turns each upper-case letter into its own lower-case letter (code + 32). It leaves no upper-case letter, keeps each character's word/whitespace class, and is the identity on text without upper-case letters |
| Text.LowerMergesCase | analyze_keywords.py:160 | two strings have the same lower-case form exactly when they differ only in the case of their letters: both directions of the merge `tag.lower()` performs |
| Text.Scrub | analyze_keywords.py:124 | after `re.sub(r'[^\w\s]', ' ', text)` every character is a word character or whitespace; each character is either unchanged or a space that replaced a character that was neither; text with nothing to replace is unchanged |
| Text.Split | analyze_keywords.py:127 | every word `text.split()` returns is non-empty and free of whitespace |
| Text.SplitLosesOnlySpaces | analyze_keywords.py:127 | the words of `text.split()`, concatenated, are the text with its whitespace deleted: splitting loses nothing else and keeps the order |
| Text.SplitCharsFromInput | analyze_keywords.py:127 | every character of every word comes from the split text |
| Text.SplitOfWord | analyze_keywords.py:127 | a non-empty string without whitespace splits into itself alone |
| Text.SplitAtSpace | analyze_keywords.py:127 | a whitespace character separates: splitting `a`, one whitespace character and `b` gives the words of `a` followed by those of `b`. With `SplitOfWord` this fixes the words as the maximal runs of non-whitespace characters, however many whitespace characters lie between them |
| Text.SplitJoin | analyze_keywords.py:127 | splitting a single-space join of whitespace-free words gives those words back |
| Tokenizer.Normalize | analyze_keywords.py:123-124 | lowercasing and then scrubbing keeps the length and leaves only lower-case word characters and whitespace |
| Tokenizer.WordsOfNormalizedText | analyze_keywords.py:123-127 | every word of the split normalized text is made of lower-case word characters only |
| Tokenizer.FilterKeywords | analyze_keywords.py:130-133 | every kept word has length at least `min_length` and is not a stop word; each word that passes the filter is kept exactly as often as it occurs, and every other word never |
| Tokenizer.FilterIsSubsequence | analyze_keywords.py:130-133 | the kept words are an order-preserving subsequence of the split words |
| Tokenizer.ExtractKeywords | analyze_keywords.py:117-135 | absent or empty text yields `[]`; every returned keyword is long enough, not a stop word, non-empty, and made of lower-case word characters |
| Tokenizer.ExtractKeywordsSelects | analyze_keywords.py:127-135 | for present text the keywords are an order-preserving subsequence of the split normalized words, with every repetition of a passing word kept |
| Tokenizer.ExtractKeywordsOfPresentText | analyze_keywords.py:119-120 | the `if not text` guard changes nothing on present text: empty text has no words either |
| Tokenizer.NormalizeOfNormalText | analyze_keywords.py:123-124 | text of lower-case word characters and spaces is left unchanged by normalization |
| Tokenizer.FilterKeepsKeywords | analyze_keywords.py:130-133 | a list of words that all pass the filter is returned unchanged |
| Tokenizer.ExtractKeywordsOfJoinedTokens | analyze_keywords.py:117-135 | tokenizing tokens joined by single spaces gives exactly those tokens back |
| Tokenizer.ExtractKeywordsOfToken | analyze_keywords.py:117-135 | a single token tokenizes to itself alone |
| Tokenizer.ExtractKeywordsIdempotent | analyze_keywords.py:117-135 | any keyword the tokenizer returned tokenizes to itself alone |
| Counters.Add | analyze_keywords.py:165 | `c[k] += 1` raises the count of `k` by one, changes no other count, and appends `k` to the insertion order exactly when it was new |
| Counters.AddValid | analyze_keywords.py:165 | `c[k] += 1` keeps a table well formed: every key listed once in insertion order, with a positive count |
| Counters.FromSeq | analyze_keywords.py:168 | `Counter(xs)` counts every key exactly as often as it occurs in `xs` |
| Counters.FromSeqValid | analyze_keywords.py:168 | `Counter(xs)` is well formed |
| Counters.TotalAdd | analyze_keywords.py:165 | each `c[k] += 1` adds one to the sum of the counts |
| Counters.TotalFromSeq | analyze_keywords.py:168-169 | the counts of `Counter(xs)` add up to the length of `xs` |
| Counters.FromSeqOrder | analyze_keywords.py:168-169 | the insertion order of `Counter(xs)` lists each distinct element of `xs` once, ordered by first occurrence in `xs` |
| Ranking.SortByCountSorted | analyze_keywords.py:255 | the sort orders entries by descending count and is a permutation of them |
| Ranking.SortByCountStable | analyze_keywords.py:255 | the sort is stable: the entries of any one count keep their relative order |
| Ranking.MostCommon | analyze_keywords.py:255 | `most_common(n)` returns no entries for `n <= 0` and otherwise `min(n, len(c))` of them. They are in descending count order, each is a `(key, count)` pair of the table, and keys are distinct. No key left out has a larger count than a returned one. Among equal counts the result is a prefix of the table's entries in insertion order |
| Ranking.MostCommonTiesInInsertionOrder | analyze_keywords.py:275 | two returned keys with equal counts come in the order in which they were first inserted in the table |
| Ranking.WithCountKeepsOrder | analyze_keywords.py:255 | selecting the entries of one count keeps their relative order |
| Aggregator.AnalyzeVideos | analyze_keywords.py:138-171 | the loop returns `Counter(all_keywords)`, `Counter(all_tags)` and the category table built by one increment per video. Each keyword's count is its number of occurrences in the tokenized titles and descriptions, and each keyword is a token. Each tag key counts the tags whose lower-case form it is, and the tag counts add up to the number of tags. Each category's count is the number of videos filed under it, and the category counts add up to the number of videos |
| Aggregator.AnalyzeCounts | analyze_keywords.py:144-169 | the count, key and total facts about the three tables, for any list of videos |
| Aggregator.PoolAppend | analyze_keywords.py:144-161 | the pooled lists of `a + b` are those of `a` followed by those of `b` |
| Aggregator.KeywordCounts | analyze_keywords.py:148-168 | each keyword's count equals its number of occurrences in the title and description keywords of all videos |
| Aggregator.KeywordKeysAreTokens | analyze_keywords.py:148-168 | every key of the keyword table is a token: at least 3 characters, not a stop word, lower-case word characters |
| Aggregator.TagCounts | analyze_keywords.py:157-169 | each tag key counts the tags, over all videos, whose lower-case form it is, and none is filtered out; with `Text.LowerMergesCase`, tags differing only in case are counted under one key and no others are |
| Aggregator.TagTotalCounts | analyze_keywords.py:157-169 | the tag counts add up to the total number of tags over all videos |
| Aggregator.TagKeysAreLower | analyze_keywords.py:157-169 | every key of the tag table is in lower case |
| Aggregator.CategoryCounts | analyze_keywords.py:164-165 | a category's count is the number of videos with that id, plus, for "Unknown", the videos without an id |
| Aggregator.CategoryTotal | analyze_keywords.py:164-165 | every video adds exactly one to the category table: the counts add up to the number of videos |
| Aggregator.CategoryStep | analyze_keywords.py:165 | one more video adds one to its own category and changes no other |
| Aggregator.AnalyzeAppend | analyze_keywords.py:138-171 | analysing `a + b` counts, key by key, the sum of what analysing `a` and `b` separately counts, in all three tables |
| Aggregator.AnalyzeCommutes | analyze_keywords.py:138-171 | the per-key counts of all three tables do not depend on the order of two batches |
| Aggregator.MostCommonTiesInFirstOccurrenceOrder | analyze_keywords.py:275 | in `Counter(xs).most_common(n)` keys with equal counts come in the order of their first occurrence in `xs` |
| Scenario.ExampleTags | analyze_keywords.py:157-169 | tags "funny", "funny" on one video and "Funny" on another give the key "funny" a count of 3 |
| Scenario.ExampleStopWordTag | analyze_keywords.py:157-169 | a tag "The" is counted under "the"; stop words are not filtered from tags |
| Scenario.ExampleCategories | analyze_keywords.py:164-165 | two videos of category "10" give "10" a count of 2 and a category total of 2 |

## Left out

- Fetching videos (`fetch_trending_videos`, `search_recent_videos`, analyze_keywords.py:46-114) is network I/O; the model takes the fetched list as its input.
- The page loop in `main` (analyze_keywords.py:222-231) is also left out. It resets `page_token` to `None` on every turn, so it always asks for the first page.
- `get_category_name` (analyze_keywords.py:174-192) is a network lookup with a fallback label.
- `get_api_key` (analyze_keywords.py:37-43) reads the environment and standard input.
- Printing, the JSON report, timestamps and the `if not all_videos` exit in `main` (analyze_keywords.py:195-313) are output plumbing around the tables. The ranking rule they apply, `most_common(n)` for n = 30, 50 and 10, is modelled by `Ranking.MostCommon` for every `n`.
- Percentages (analyze_keywords.py:277, 302) are floating-point division.
- Python's full Unicode semantics of `\w`, `\s` and `str.lower()` are not modelled: character classes and lowercasing are ASCII-only, and every non-ASCII character becomes a separator.
- The video record keeps only the `snippet` fields the loop reads. `statistics` (analyze_keywords.py:146) is read and never used.
- A field that is present but null, or holds a non-string, is not modelled. A null title or description behaves like an absent one in the source, but a null `categoryId` would be counted under the key `None` rather than "Unknown".
- `STOP_WORDS` lists "than" twice (analyze_keywords.py:31-32); as a set it holds each word once, and so does `Tokenizer.StopWords`.
- `Counter.most_common` uses `heapq.nlargest` when `n` is given. Its result is the same as the stable descending sort cut to `n`, which is what `Ranking.MostCommon` computes.
- Scenario: the example records carry no title or description, so no keyword count is worked through. Working one through would need membership of concrete strings in the 94-word stop-word set, which the solver does not decide cheaply. The general lemmas about `ExtractKeywords` and `KeywordCounts` cover the keyword table.
