/**
 * The aggregation pass of the keyword analyzer, `analyze_videos`: one walk
 * over the fetched video records that pools title and description keywords,
 * lower-cases tags and counts videos per category, and then turns the pooled
 * lists into frequency tables.
 */
module Aggregator {
  import opened Wrappers
  import opened Sequences
  import opened Text
  import opened Tokenizer
  import opened Counters
  import opened Ranking

  /**
   * The fields of a video's `snippet` that the analysis reads. A field the
   * record lacks is `None`; a record without a snippet has every field `None`.
   */
  datatype Video = Video(
    title: Option<string>,
    description: Option<string>,
    tags: Option<seq<string>>,
    categoryId: Option<string>)

  /** The category recorded for a video that has no `categoryId`. */
  const UnknownCategory: string := "Unknown"

  /** The key `categories[...] += 1` increments for one video. */
  function CategoryKey(v: Video): string {
    v.categoryId.GetOr(UnknownCategory)
  }

  /** Title keywords followed by description keywords, as `all_keywords.extend` adds them. */
  function VideoKeywords(v: Video): seq<string> {
    ExtractKeywords(v.title, DefaultMinLength) + ExtractKeywords(v.description, DefaultMinLength)
  }

  /** `[tag.lower() for tag in tags]`. */
  function LowerTags(ts: seq<string>): seq<string> {
    if ts == [] then [] else [Lower(ts[0])] + LowerTags(ts[1..])
  }

  /** What one video adds to `all_tags`: nothing unless it has a non-empty tag list. */
  function VideoTags(v: Video): seq<string> {
    match v.tags
    case Some(ts) => if ts != [] then LowerTags(ts) else []
    case None => []
  }

  /** The category key of a video, as a one-element list. */
  function VideoCategory(v: Video): seq<string> {
    [CategoryKey(v)]
  }

  /** What the loop has collected after visiting `vs`: the contributions of the videos of `vs`, in order. */
  function Pool(vs: seq<Video>, part: Video -> seq<string>): seq<string> {
    if vs == [] then [] else Pool(vs[..|vs| - 1], part) + part(vs[|vs| - 1])
  }

  /** `all_keywords` after the loop has visited `vs`. */
  function AllKeywords(vs: seq<Video>): seq<string> {
    Pool(vs, VideoKeywords)
  }

  /** `all_tags` after the loop has visited `vs`. */
  function AllTags(vs: seq<Video>): seq<string> {
    Pool(vs, VideoTags)
  }

  /** The category keys of `vs`, one per video, in the order the loop increments them. */
  function CategoryKeys(vs: seq<Video>): seq<string> {
    Pool(vs, VideoCategory)
  }

  /**
   * `analyze_videos(videos)`: returns `(keyword_counts, tag_counts, categories)`.
   * The category table is built one increment per video; the other two are
   * built from the pooled lists at the end.
   */
  method AnalyzeVideos(videos: seq<Video>) returns (keywordCounts: Counter, tagCounts: Counter, categories: Counter)
    ensures keywordCounts == FromSeq(AllKeywords(videos))
    ensures tagCounts == FromSeq(AllTags(videos))
    ensures categories == FromSeq(CategoryKeys(videos))
    ensures forall k :: Count(keywordCounts, k) == KeywordOccurrences(videos, k)
    ensures forall k :: k in keywordCounts.counts ==> IsToken(k, DefaultMinLength)
    ensures forall k :: Count(tagCounts, k) == TagOccurrences(videos, k)
    ensures Total(tagCounts) == TagTotal(videos)
    ensures forall k :: Count(categories, k) == CategoryOccurrences(videos, k)
    ensures Total(categories) == |videos|
  {
    var allKeywords: seq<string> := [];
    var allTags: seq<string> := [];
    categories := Empty;
    for i := 0 to |videos|
      invariant allKeywords == AllKeywords(videos[..i])
      invariant allTags == AllTags(videos[..i])
      invariant categories == FromSeq(CategoryKeys(videos[..i]))
    {
      var video := videos[i];
      PoolStep(videos, i, VideoKeywords);
      PoolStep(videos, i, VideoTags);
      PoolStep(videos, i, VideoCategory);
      var titleKeywords := ExtractKeywords(video.title, DefaultMinLength);
      allKeywords := allKeywords + titleKeywords;
      var descriptionKeywords := ExtractKeywords(video.description, DefaultMinLength);
      allKeywords := allKeywords + descriptionKeywords;
      AppendAssociates(AllKeywords(videos[..i]), titleKeywords, descriptionKeywords);
      match video.tags {
        case Some(tags) =>
          if tags != [] {
            allTags := allTags + LowerTags(tags);
          }
        case None =>
      }
      var key := CategoryKey(video);
      categories := Add(categories, key);
      FromSeqSnoc(CategoryKeys(videos[..i]), key);
    }
    assert videos[..|videos|] == videos;
    keywordCounts := FromSeq(allKeywords);
    tagCounts := FromSeq(allTags);
    AnalyzeCounts(videos);
  }

  /** What the tables built from `vs` count, gathered for `AnalyzeVideos`. */
  lemma AnalyzeCounts(vs: seq<Video>)
    ensures forall k :: Count(FromSeq(AllKeywords(vs)), k) == KeywordOccurrences(vs, k)
    ensures forall k :: k in FromSeq(AllKeywords(vs)).counts ==> IsToken(k, DefaultMinLength)
    ensures forall k :: Count(FromSeq(AllTags(vs)), k) == TagOccurrences(vs, k)
    ensures Total(FromSeq(AllTags(vs))) == TagTotal(vs)
    ensures forall k :: Count(FromSeq(CategoryKeys(vs)), k) == CategoryOccurrences(vs, k)
    ensures Total(FromSeq(CategoryKeys(vs))) == |vs|
  {
    forall k ensures Count(FromSeq(AllKeywords(vs)), k) == KeywordOccurrences(vs, k) {
      KeywordCounts(vs, k);
    }
    KeywordKeysAreTokens(vs);
    forall k ensures Count(FromSeq(AllTags(vs)), k) == TagOccurrences(vs, k) {
      TagCounts(vs, k);
    }
    TagTotalCounts(vs);
    forall k ensures Count(FromSeq(CategoryKeys(vs)), k) == CategoryOccurrences(vs, k) {
      CategoryCounts(vs, k);
    }
    CategoryTotal(vs);
  }

  // Reference counts, stated video by video from the first video on.

  /** How often `k` occurs in the title and description keywords of the videos of `vs`. */
  function KeywordOccurrences(vs: seq<Video>, k: string): nat {
    if vs == [] then 0
    else
      multiset(ExtractKeywords(vs[0].title, DefaultMinLength))[k]
      + multiset(ExtractKeywords(vs[0].description, DefaultMinLength))[k]
      + KeywordOccurrences(vs[1..], k)
  }

  /** The number of tags in `ts` whose lower-case form is `k`. */
  function TagMatches(ts: seq<string>, k: string): nat {
    if ts == [] then 0 else (if Lower(ts[0]) == k then 1 else 0) + TagMatches(ts[1..], k)
  }

  /** The number of tags, over all videos of `vs`, whose lower-case form is `k`. */
  function TagOccurrences(vs: seq<Video>, k: string): nat {
    if vs == [] then 0 else TagMatches(vs[0].tags.GetOr([]), k) + TagOccurrences(vs[1..], k)
  }

  /** The number of tags over all videos of `vs`. */
  function TagTotal(vs: seq<Video>): nat {
    if vs == [] then 0 else |vs[0].tags.GetOr([])| + TagTotal(vs[1..])
  }

  /** The number of videos of `vs` filed under `k`: those with category id `k`, plus those without one when `k` is "Unknown". */
  function CategoryOccurrences(vs: seq<Video>, k: string): nat {
    if vs == [] then 0
    else
      (if vs[0].categoryId == Some(k) || (vs[0].categoryId == None && k == UnknownCategory) then 1 else 0)
      + CategoryOccurrences(vs[1..], k)
  }

  // The pooled lists split along any split of the videos.

  lemma {:induction false} PoolAppend(a: seq<Video>, b: seq<Video>, part: Video -> seq<string>)
    ensures Pool(a + b, part) == Pool(a, part) + Pool(b, part)
  {
    if b == [] {
      assert a + b == a;
    } else {
      var init := b[..|b| - 1];
      assert (a + b)[..|a + b| - 1] == a + init;
      PoolAppend(a, init, part);
    }
  }

  /** One more turn of the loop appends the contribution of the next video. */
  lemma PoolStep(vs: seq<Video>, i: nat, part: Video -> seq<string>)
    requires i < |vs|
    ensures Pool(vs[..i + 1], part) == Pool(vs[..i], part) + part(vs[i])
  {
    assert vs[..i + 1][..i] == vs[..i];
  }

  /** Splitting `vs` after its first video. */
  lemma PoolFirst(vs: seq<Video>, part: Video -> seq<string>)
    requires vs != []
    ensures Pool(vs, part) == part(vs[0]) + Pool(vs[1..], part)
  {
    assert vs == [vs[0]] + vs[1..];
    PoolAppend([vs[0]], vs[1..], part);
    assert [vs[0]][..0] == [];
  }

  /** A property every contribution has holds of everything pooled. */
  lemma {:induction false} PoolAll(vs: seq<Video>, part: Video -> seq<string>, p: string -> bool)
    requires forall j, m :: 0 <= j < |vs| && 0 <= m < |part(vs[j])| ==> p(part(vs[j])[m])
    ensures forall i :: 0 <= i < |Pool(vs, part)| ==> p(Pool(vs, part)[i])
  {
    if vs != [] {
      var init, last := vs[..|vs| - 1], part(vs[|vs| - 1]);
      PoolAll(init, part, p);
      var a := Pool(init, part);
      forall i | 0 <= i < |Pool(vs, part)| ensures p(Pool(vs, part)[i]) {
        if i < |a| {
          assert Pool(vs, part)[i] == a[i];
        } else {
          assert Pool(vs, part)[i] == last[i - |a|];
        }
      }
    }
  }

  // Keywords.

  lemma {:induction false} KeywordMultiplicity(vs: seq<Video>, k: string)
    ensures multiset(AllKeywords(vs))[k] == KeywordOccurrences(vs, k)
  {
    if vs != [] {
      PoolFirst(vs, VideoKeywords);
      KeywordMultiplicity(vs[1..], k);
    }
  }

  /** Each keyword's count is the number of times it occurs in the tokenized titles and descriptions. */
  lemma KeywordCounts(vs: seq<Video>, k: string)
    ensures Count(FromSeq(AllKeywords(vs)), k) == KeywordOccurrences(vs, k)
  {
    KeywordMultiplicity(vs, k);
  }

  lemma AllKeywordsAreTokens(vs: seq<Video>)
    ensures forall i :: 0 <= i < |AllKeywords(vs)| ==> IsToken(AllKeywords(vs)[i], DefaultMinLength)
  {
    var p := (w: string) => IsToken(w, DefaultMinLength);
    forall j, m | 0 <= j < |vs| && 0 <= m < |VideoKeywords(vs[j])| ensures p(VideoKeywords(vs[j])[m]) {
      var t := ExtractKeywords(vs[j].title, DefaultMinLength);
      if m >= |t| {
        assert VideoKeywords(vs[j])[m] == ExtractKeywords(vs[j].description, DefaultMinLength)[m - |t|];
      }
    }
    PoolAll(vs, VideoKeywords, p);
  }

  /** Every key of the keyword table is a token: long enough, not a stop word, lower-case word characters. */
  lemma KeywordKeysAreTokens(vs: seq<Video>)
    ensures forall k :: k in FromSeq(AllKeywords(vs)).counts ==> IsToken(k, DefaultMinLength)
  {
    var all := AllKeywords(vs);
    AllKeywordsAreTokens(vs);
    FromSeqValid(all);
    forall k | k in FromSeq(all).counts ensures IsToken(k, DefaultMinLength) {
      assert Count(FromSeq(all), k) == multiset(all)[k];
      var i :| 0 <= i < |all| && all[i] == k;
    }
  }

  // Tags.

  lemma {:induction false} TagMatchesOfLowerTags(ts: seq<string>, k: string)
    ensures multiset(LowerTags(ts))[k] == TagMatches(ts, k)
    ensures |LowerTags(ts)| == |ts|
  {
    if ts != [] {
      TagMatchesOfLowerTags(ts[1..], k);
    }
  }

  lemma VideoTagsCount(v: Video, k: string)
    ensures multiset(VideoTags(v))[k] == TagMatches(v.tags.GetOr([]), k)
    ensures |VideoTags(v)| == |v.tags.GetOr([])|
  {
    if v.tags.Some? {
      TagMatchesOfLowerTags(v.tags.value, k);
    }
  }

  lemma {:induction false} TagMultiplicity(vs: seq<Video>, k: string)
    ensures multiset(AllTags(vs))[k] == TagOccurrences(vs, k)
  {
    if vs != [] {
      PoolFirst(vs, VideoTags);
      VideoTagsCount(vs[0], k);
      TagMultiplicity(vs[1..], k);
    }
  }

  /**
   * Each tag key counts the tags, over all videos, whose lower-case form it is:
   * tags that differ only in case share one key, and no tag is dropped.
   */
  lemma TagCounts(vs: seq<Video>, k: string)
    ensures Count(FromSeq(AllTags(vs)), k) == TagOccurrences(vs, k)
  {
    TagMultiplicity(vs, k);
  }

  lemma {:induction false} AllTagsLength(vs: seq<Video>)
    ensures |AllTags(vs)| == TagTotal(vs)
  {
    if vs != [] {
      PoolFirst(vs, VideoTags);
      VideoTagsCount(vs[0], []);
      AllTagsLength(vs[1..]);
    }
  }

  /** The tag counts add up to the number of tags over all videos. */
  lemma TagTotalCounts(vs: seq<Video>)
    ensures Total(FromSeq(AllTags(vs))) == TagTotal(vs)
  {
    TotalFromSeq(AllTags(vs));
    AllTagsLength(vs);
  }

  lemma {:induction false} LowerTagsAreLower(ts: seq<string>)
    ensures forall i, j :: 0 <= i < |LowerTags(ts)| && 0 <= j < |LowerTags(ts)[i]| ==> !IsUpper(LowerTags(ts)[i][j])
  {
    if ts != [] {
      LowerTagsAreLower(ts[1..]);
      assert forall i :: 0 < i < |LowerTags(ts)| ==> LowerTags(ts)[i] == LowerTags(ts[1..])[i - 1];
    }
  }

  lemma AllTagsAreLower(vs: seq<Video>)
    ensures forall i, j :: 0 <= i < |AllTags(vs)| && 0 <= j < |AllTags(vs)[i]| ==> !IsUpper(AllTags(vs)[i][j])
  {
    var p := (w: string) => forall j :: 0 <= j < |w| ==> !IsUpper(w[j]);
    forall j | 0 <= j < |vs| && vs[j].tags.Some? {
      LowerTagsAreLower(vs[j].tags.value);
    }
    PoolAll(vs, VideoTags, p);
  }

  /** Every key of the tag table is in lower case. */
  lemma TagKeysAreLower(vs: seq<Video>)
    ensures forall k :: k in FromSeq(AllTags(vs)).counts ==> forall j :: 0 <= j < |k| ==> !IsUpper(k[j])
  {
    var all := AllTags(vs);
    AllTagsAreLower(vs);
    FromSeqValid(all);
    forall k | k in FromSeq(all).counts ensures forall j :: 0 <= j < |k| ==> !IsUpper(k[j]) {
      assert Count(FromSeq(all), k) == multiset(all)[k];
      var i :| 0 <= i < |all| && all[i] == k;
    }
  }

  // Categories.

  /** A video is filed under its category id, or under "Unknown" when it has none. */
  lemma CategoryKeyIs(v: Video, k: string)
    ensures CategoryKey(v) == k <==> v.categoryId == Some(k) || (v.categoryId == None && k == UnknownCategory)
  {
  }

  lemma {:induction false} CategoryMultiplicity(vs: seq<Video>, k: string)
    ensures multiset(CategoryKeys(vs))[k] == CategoryOccurrences(vs, k)
  {
    if vs != [] {
      PoolFirst(vs, VideoCategory);
      CategoryKeyIs(vs[0], k);
      assert multiset(VideoCategory(vs[0]))[k] == if CategoryKey(vs[0]) == k then 1 else 0;
      CategoryMultiplicity(vs[1..], k);
    }
  }

  /** A category's count is the number of videos filed under it, with "Unknown" standing for a missing id. */
  lemma CategoryCounts(vs: seq<Video>, k: string)
    ensures Count(FromSeq(CategoryKeys(vs)), k) == CategoryOccurrences(vs, k)
  {
    CategoryMultiplicity(vs, k);
  }

  lemma {:induction false} CategoryKeysLength(vs: seq<Video>)
    ensures |CategoryKeys(vs)| == |vs|
  {
    if vs != [] {
      CategoryKeysLength(vs[..|vs| - 1]);
    }
  }

  /** Every video is counted in exactly one category: the counts add up to the number of videos. */
  lemma CategoryTotal(vs: seq<Video>)
    ensures Total(FromSeq(CategoryKeys(vs))) == |vs|
  {
    TotalFromSeq(CategoryKeys(vs));
    CategoryKeysLength(vs);
  }

  // Additivity: analysing two batches one after the other adds their tables.

  lemma PoolCountsAppend(a: seq<Video>, b: seq<Video>, part: Video -> seq<string>, k: string)
    ensures Count(FromSeq(Pool(a + b, part)), k) == Count(FromSeq(Pool(a, part)), k) + Count(FromSeq(Pool(b, part)), k)
  {
    PoolAppend(a, b, part);
  }

  /** The tables of `a + b` count, key by key, what the tables of `a` and of `b` count together. */
  lemma AnalyzeAppend(a: seq<Video>, b: seq<Video>, k: string)
    ensures Count(FromSeq(AllKeywords(a + b)), k) == Count(FromSeq(AllKeywords(a)), k) + Count(FromSeq(AllKeywords(b)), k)
    ensures Count(FromSeq(AllTags(a + b)), k) == Count(FromSeq(AllTags(a)), k) + Count(FromSeq(AllTags(b)), k)
    ensures Count(FromSeq(CategoryKeys(a + b)), k) == Count(FromSeq(CategoryKeys(a)), k) + Count(FromSeq(CategoryKeys(b)), k)
  {
    PoolCountsAppend(a, b, VideoKeywords, k);
    PoolCountsAppend(a, b, VideoTags, k);
    PoolCountsAppend(a, b, VideoCategory, k);
  }

  lemma PoolCountsCommute(a: seq<Video>, b: seq<Video>, part: Video -> seq<string>, k: string)
    ensures Count(FromSeq(Pool(a + b, part)), k) == Count(FromSeq(Pool(b + a, part)), k)
  {
    PoolCountsAppend(a, b, part, k);
    PoolCountsAppend(b, a, part, k);
  }

  /** The counts do not depend on the order in which two batches are analysed. */
  lemma AnalyzeCommutes(a: seq<Video>, b: seq<Video>, k: string)
    ensures Count(FromSeq(AllKeywords(a + b)), k) == Count(FromSeq(AllKeywords(b + a)), k)
    ensures Count(FromSeq(AllTags(a + b)), k) == Count(FromSeq(AllTags(b + a)), k)
    ensures Count(FromSeq(CategoryKeys(a + b)), k) == Count(FromSeq(CategoryKeys(b + a)), k)
  {
    PoolCountsCommute(a, b, VideoKeywords, k);
    PoolCountsCommute(a, b, VideoTags, k);
    PoolCountsCommute(a, b, VideoCategory, k);
  }

  /** Analysing one more video adds one to its category and leaves every other category as it was. */
  lemma CategoryStep(vs: seq<Video>, v: Video, k: string)
    ensures Count(FromSeq(CategoryKeys(vs + [v])), k) == Count(FromSeq(CategoryKeys(vs)), k) + (if k == CategoryKey(v) then 1 else 0)
  {
    assert (vs + [v])[..|vs|] == vs;
  }

  // Ranking of a table built from a list.

  /**
   * In `Counter(s).most_common(n)`, keys with equal counts come in the order of
   * their first occurrence in `s`.
   */
  lemma MostCommonTiesInFirstOccurrenceOrder(s: seq<string>, n: int)
    ensures Valid(FromSeq(s))
    ensures var r := MostCommon(FromSeq(s), n);
      forall i :: 0 <= i < |r| ==> r[i].0 in s
    ensures var r := MostCommon(FromSeq(s), n);
      forall i, j :: 0 <= i < j < |r| && r[i].1 == r[j].1 ==> FirstIndex(s, r[i].0) < FirstIndex(s, r[j].0)
  {
    var c := FromSeq(s);
    FromSeqValid(s);
    FromSeqOrder(s);
    var r := MostCommon(c, n);
    forall i | 0 <= i < |r| ensures r[i].0 in s {
      assert r[i].0 in c.counts;
    }
    forall i, j | 0 <= i < j < |r| && r[i].1 == r[j].1 ensures FirstIndex(s, r[i].0) < FirstIndex(s, r[j].0) {
      MostCommonTiesInInsertionOrder(c, n, i, j);
      var p, q := FirstIndex(c.order, r[i].0), FirstIndex(c.order, r[j].0);
      assert c.order[p] == r[i].0 && c.order[q] == r[j].0;
    }
  }
}
