/**
 * `should_exclude_row` and `should_include_row`: case-insensitive keyword
 * tests against a row's product name.
 */
module RowFilter {
  import opened Wrappers
  import opened Text
  import opened OrderTable

  /** Some keyword, lowercased, occurs in `text` (already lowercased). */
  ghost predicate SomeKeywordIn(keywords: seq<string>, text: string) {
    exists k :: k in keywords && IsSubstring(Lower(k), text)
  }

  /** The keyword loop of both filters: returns at the first keyword found. */
  function AnyKeywordIn(keywords: seq<string>, text: string): (found: bool)
    ensures found <==> SomeKeywordIn(keywords, text)
  {
    if keywords == [] then false
    else if Contains(text, Lower(keywords[0])) then true
    else
      assert forall k :: k in keywords ==> k == keywords[0] || k in keywords[1..];
      AnyKeywordIn(keywords[1..], text)
  }

  /**
   * `should_exclude_row`: a None or empty list never excludes; otherwise the
   * row is excluded iff some keyword occurs in the product name, ignoring case.
   */
  function ShouldExcludeRow(r: Row, keywords: Option<seq<string>>): (exclude: bool)
    ensures exclude <==> keywords.Some? && SomeKeywordIn(keywords.value, Lower(r.productName))
  {
    if keywords.None? || keywords.value == [] then false
    else AnyKeywordIn(keywords.value, Lower(r.productName))
  }

  /**
   * `should_include_row`: a None or empty list includes every row; otherwise
   * the row is included iff some keyword occurs in the product name, ignoring case.
   */
  function ShouldIncludeRow(r: Row, keywords: Option<seq<string>>): (keep: bool)
    ensures keep <==> keywords.None? || keywords.value == []
                         || SomeKeywordIn(keywords.value, Lower(r.productName))
  {
    if keywords.None? || keywords.value == [] then true
    else AnyKeywordIn(keywords.value, Lower(r.productName))
  }

  lemma {:induction false} LowerIdempotent(s: string)
    ensures Lower(Lower(s)) == Lower(s)
  {
    assert forall i :: 0 <= i < |s| ==> LowerChar(LowerChar(s[i])) == LowerChar(s[i]);
  }

  /**
   * Case does not matter on either side: lowercasing the product name or the
   * keywords beforehand changes neither filter.
   */
  lemma FiltersIgnoreCase(r: Row, keywords: seq<string>)
    ensures var lowered := Row(Lower(r.productName), r.sku, r.placedAt);
            && ShouldExcludeRow(lowered, Some(keywords)) == ShouldExcludeRow(r, Some(keywords))
            && ShouldIncludeRow(lowered, Some(keywords)) == ShouldIncludeRow(r, Some(keywords))
    ensures var loweredKeywords := seq(|keywords|, i requires 0 <= i < |keywords| => Lower(keywords[i]));
            && ShouldExcludeRow(r, Some(loweredKeywords)) == ShouldExcludeRow(r, Some(keywords))
            && ShouldIncludeRow(r, Some(loweredKeywords)) == ShouldIncludeRow(r, Some(keywords))
  {
    LowerIdempotent(r.productName);
    var loweredKeywords := seq(|keywords|, i requires 0 <= i < |keywords| => Lower(keywords[i]));
    var text := Lower(r.productName);
    forall i | 0 <= i < |keywords| ensures Lower(loweredKeywords[i]) == Lower(keywords[i]) {
      LowerIdempotent(keywords[i]);
    }
    if SomeKeywordIn(keywords, text) {
      var k :| k in keywords && IsSubstring(Lower(k), text);
      var i :| 0 <= i < |keywords| && keywords[i] == k;
      assert loweredKeywords[i] in loweredKeywords;
    }
    if SomeKeywordIn(loweredKeywords, text) {
      var k :| k in loweredKeywords && IsSubstring(Lower(k), text);
      var i :| 0 <= i < |loweredKeywords| && loweredKeywords[i] == k;
      assert keywords[i] in keywords;
    }
  }
}
