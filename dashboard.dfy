/**
  The client-side view of an analysis result (src/components/Dashboard.tsx):
  which bookmarks the page lists for a title/URL filter and a selected
  category, and the per-category count shown in the sidebar. The React state
  behind the inputs is left out; its current values are parameters here.

  `toLowerCase` is a parameter `lower`; `includes` is `Builtins.Includes`.
*/
module Dashboard {
  import opened Wrappers
  import opened Builtins
  import opened AiService

  /** The lowercased title or URL contains the lowercased query. */
  predicate MatchesSearch(b: CategorizedBookmark, query: string, lower: string -> string): (r: bool)
    ensures r <==>
      || (exists i :: OccursAt(lower(b.bookmark.title), lower(query), i))
      || (exists i :: OccursAt(lower(b.bookmark.url), lower(query), i))
  {
    IncludesIff(lower(b.bookmark.title), lower(query));
    IncludesIff(lower(b.bookmark.url), lower(query));
    Includes(lower(b.bookmark.title), lower(query)) || Includes(lower(b.bookmark.url), lower(query))
  }

  /**
    No category is selected, or the bookmark is in the selected one. The empty
    string is falsy in JavaScript, so selecting "" filters nothing.
  */
  predicate MatchesCategory(b: CategorizedBookmark, selected: Option<string>): (r: bool)
    ensures selected.None? || selected == Some("") ==> r
    ensures selected.Some? && selected.value != "" ==> (r <==> b.category == selected.value)
  {
    selected.None? || selected.value == "" || b.category == selected.value
  }

  /** The test the list filter applies to each bookmark. */
  function ShownTest(query: string, selected: Option<string>, lower: string -> string): CategorizedBookmark -> bool {
    (b: CategorizedBookmark) => MatchesSearch(b, query, lower) && MatchesCategory(b, selected)
  }

  /**
    The bookmarks the page lists: the search results when there are any (an
    empty result list counts, since an array is truthy), and otherwise the
    result's bookmarks that match both the text filter and the selected
    category, in their order.
  */
  function DisplayedBookmarks(
    data: AnalysisResult, query: string, selected: Option<string>,
    aiResults: Option<seq<CategorizedBookmark>>, lower: string -> string)
    : (r: seq<CategorizedBookmark>)
    ensures aiResults.Some? ==> r == aiResults.value
    ensures aiResults.None? ==> forall b :: b in r <==>
      b in data.bookmarks && MatchesSearch(b, query, lower) && MatchesCategory(b, selected)
  {
    if aiResults.Some? then aiResults.value
    else Filter(data.bookmarks, ShownTest(query, selected, lower))
  }

  /**
    A category named "" is counted as empty in the sidebar, yet selecting it
    filters nothing, since "" is falsy: with every bookmark in a non-empty
    category, the count is 0 and every bookmark is listed.
  */
  lemma EmptyCategoryShowsAll(data: AnalysisResult, lower: string -> string)
    requires lower("") == ""
    requires forall b :: b in data.bookmarks ==> b.category != ""
    ensures CategoryCount(data.bookmarks, "") == 0
    ensures DisplayedBookmarks(data, "", Some(""), None, lower) == data.bookmarks
  {
    forall b | b in data.bookmarks ensures ShownTest("", Some(""), lower)(b) {
      IncludesEmpty(lower(b.bookmark.title));
    }
    FilterKeepsAll(data.bookmarks, ShownTest("", Some(""), lower));
  }

  /** Without search results, the list is an order-preserving sublist of the bookmarks, each kept as often as it occurs there or not at all. */
  lemma DisplayedIsSublist(
    data: AnalysisResult, query: string, selected: Option<string>, lower: string -> string)
    ensures var r := DisplayedBookmarks(data, query, selected, None, lower);
      && SubsequenceOf(r, data.bookmarks)
      && forall b :: multiset(r)[b] ==
           if MatchesSearch(b, query, lower) && MatchesCategory(b, selected) then multiset(data.bookmarks)[b] else 0
  {
    FilterIsSubsequence(data.bookmarks, ShownTest(query, selected, lower));
    FilterCounts(data.bookmarks, ShownTest(query, selected, lower));
  }

  /** An empty query with no category selected lists every bookmark, in order (lowercasing maps "" to ""). */
  lemma UnfilteredShowsAll(data: AnalysisResult, lower: string -> string)
    requires lower("") == ""
    ensures DisplayedBookmarks(data, "", None, None, lower) == data.bookmarks
  {
    forall b | b in data.bookmarks ensures ShownTest("", None, lower)(b) {
      IncludesEmpty(lower(b.bookmark.title));
    }
    FilterKeepsAll(data.bookmarks, ShownTest("", None, lower));
  }

  /** The test the sidebar count applies: `b.category === cat`. */
  function InCategory(cat: string): CategorizedBookmark -> bool {
    (b: CategorizedBookmark) => b.category == cat
  }

  /** The sidebar count for `cat`: the number of bookmarks filed under it. */
  function CategoryCount(bookmarks: seq<CategorizedBookmark>, cat: string): (n: nat)
    ensures n <= |bookmarks|
    ensures n == 0 <==> forall b :: b in bookmarks ==> b.category != cat
  {
    var r := Filter(bookmarks, InCategory(cat));
    assert r != [] ==> r[0] in r;
    |r|
  }

  /** Counting goes bookmark by bookmark: none for no bookmarks, and one more for each bookmark in the category. */
  lemma CategoryCountStep(bookmarks: seq<CategorizedBookmark>, b: CategorizedBookmark, cat: string)
    ensures CategoryCount([], cat) == 0
    ensures CategoryCount(bookmarks + [b], cat) == CategoryCount(bookmarks, cat) + if b.category == cat then 1 else 0
  {
    FilterAppend(bookmarks, [b], InCategory(cat));
    assert [b][1..] == [];
    assert Filter([b], InCategory(cat)) == (if b.category == cat then [b] else []) + Filter([], InCategory(cat));
  }

  /**
    The sidebar count of a non-empty category is the length of the list shown
    when that category is selected with an empty query.
  */
  lemma CountMatchesCategoryView(data: AnalysisResult, cat: string, lower: string -> string)
    requires lower("") == "" && cat != ""
    ensures CategoryCount(data.bookmarks, cat) == |DisplayedBookmarks(data, "", Some(cat), None, lower)|
  {
    forall b | b in data.bookmarks ensures InCategory(cat)(b) == ShownTest("", Some(cat), lower)(b) {
      IncludesEmpty(lower(b.bookmark.title));
    }
    FilterAgrees(data.bookmarks, InCategory(cat), ShownTest("", Some(cat), lower));
  }
}
