/**
 * A two-record example worked through the model: tags that differ only in
 * case pool under one key, and two videos of category "10" count 2 there.
 */
module Scenario {
  import opened Wrappers
  import opened Text
  import opened Counters
  import opened Aggregator

  /** The example's first record; only its tags and category are given. */
  const First: Video := Video(None, None, Some(["funny", "funny"]), Some("10"))
  /** The example's second record, likewise. */
  const Second: Video := Video(None, None, Some(["Funny"]), Some("10"))

  /** "funny", "funny" and "Funny" pool under the one key "funny". */
  lemma ExampleTags()
    ensures Count(FromSeq(AllTags([First, Second])), "funny") == 3
  {
    var vs := [First, Second];
    TagCounts(vs, "funny");
    assert vs[1..] == [Second] && [Second][1..] == [];
    LowerOfTag();
    assert TagMatches(["funny", "funny"], "funny") == 2;
    assert TagMatches(["Funny"], "funny") == 1;
    assert TagOccurrences([Second], "funny") == 1 + TagOccurrences([], "funny");
    assert TagOccurrences(vs, "funny") == 2 + TagOccurrences([Second], "funny");
  }

  /** Lower-casing the two spellings of the example's tag. */
  lemma LowerOfTag()
    ensures Lower("funny") == "funny" && Lower("Funny") == "funny"
  {
    var s, r := "Funny", "funny";
    assert forall i :: 0 <= i < |r| ==> !IsUpper(r[i]);
    forall i | 0 <= i < |r| ensures Lower(s)[i] == r[i] {
      if i == 0 {
        assert ToLower('F') == 'f';
      }
    }
  }

  /** Both videos are filed under "10"; nothing else is counted. */
  lemma ExampleCategories()
    ensures Count(FromSeq(CategoryKeys([First, Second])), "10") == 2
    ensures Total(FromSeq(CategoryKeys([First, Second]))) == 2
  {
    var vs := [First, Second];
    CategoryCounts(vs, "10");
    assert vs[1..] == [Second] && [Second][1..] == [];
    assert CategoryOccurrences([Second], "10") == 1 + CategoryOccurrences([], "10");
    assert CategoryOccurrences(vs, "10") == 1 + CategoryOccurrences([Second], "10");
    CategoryTotal(vs);
  }

  /** A tag that is a stop word is counted all the same, under its lower-case form. */
  lemma ExampleStopWordTag()
    ensures Count(FromSeq(AllTags([Video(None, None, Some(["The"]), None)])), "the") == 1
  {
    var v := Video(None, None, Some(["The"]), None);
    TagCounts([v], "the");
    assert [v][1..] == [];
    LowerOfThe();
    assert TagMatches(["The"], "the") == 1;
  }

  lemma LowerOfThe()
    ensures Lower("The") == "the"
  {
    var s, r := "The", "the";
    forall i | 0 <= i < |r| ensures Lower(s)[i] == r[i] {
      if i == 0 {
        assert ToLower('T') == 't';
      }
    }
  }
}
