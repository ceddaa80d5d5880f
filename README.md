# bookmark-ai core, modelled in Dafny

The application uploads a user's bookmarks and asks a hosted language model to
sort them into categories, and later to pick the bookmarks relevant to a
free-text question. The model's reply is untrusted text. It may be cut off
part-way, leave bookmarks out, or name ids that do not exist. This project
models the deterministic code that turns that reply into a result the page can
rely on, and proves what that code guarantees.

- `wrappers.dfy` (`Wrappers`): `Option` and `Result`.
- `builtins.dfy` (`Builtins`): the JavaScript built-ins the core calls.
  These are `trim`, `endsWith`, `lastIndexOf`, `includes`, `Array.prototype.filter`
  and the insertion-ordered `Set`. Each is defined once and pinned down by its
  contract and lemmas.
- `ai_service.dfy` (`AiService`), modelling `src/lib/aiService.ts`:
  - the working set (the first 100 or 200 bookmarks, each tagged with its position);
  - the three-stage repair of a truncated categorisation reply. This is an
    imperative method, proved equal to a declarative function `Recovered`;
  - reconciliation of the decoded document with the working set;
  - the strict-parse-only relevance filter used by search.
- `dashboard.dfy` (`Dashboard`), modelling `src/components/Dashboard.tsx`:
  the list the page shows for a text filter and a selected category, and the
  sidebar's per-category count.

`JSON.parse` is a parameter `parse: string -> Option<Document>`. `None` means it
throws, and `Document.Null` is the JSON value `null`, whose field accesses
throw. `toLowerCase` is a parameter `lower: string -> string`.

What the proofs show about the code:

- The stage-2 text always ends in `}`. So stage 3's "prefix through the last
  `}`" is the whole stage-2 text. Stage 3 only appends `]}`, and it runs
  unless the trimmed reply is exactly `}`. A truncated reply is never cut back
  to its last complete entry (`RepairOnlyAppends`).
- A reply whose trimmed text ends in none of `}`, `]` or `"` is retried with
  exactly two texts: the trimmed text plus `"]}`, then plus `"]}]}`
  (`OpenTailRetries`). For a reply cut inside a string of a `bookmarks` entry,
  e.g. one ending in `{"id":0,"category":"Do`, neither text closes that entry's
  object, so under standard JSON (RFC 8259) the request ends in the format
  error. A reply cut inside a `categories` string, such as `{"categories":["Do`,
  is recovered: `{"categories":["Do"]}` parses, and every working-set bookmark
  is filed under "Other" (`CategoriesCutRecovered`).
- Every working-set URL occurs in the categorisation result.
- Bookmarks are not always listed exactly once:
  - an id the model repeats lists its bookmark twice (`RepeatedIdListedTwice`);
  - a bookmark whose URL is shared with an accepted one is not re-added
    (`SharedUrlNotReAdded`).
- An entry with an empty declared category becomes "Uncategorized", not
  "Other". An item under "Other" was either declared "Other" by the model or
  re-added (`ReconcileItemsValid`).
- The model may declare a category named `""`. Its sidebar count is 0, yet
  selecting it applies no category filter, because `""` is falsy in the
  category test: with an empty text filter it lists every bookmark
  (`EmptyCategoryShowsAll`).

## Model

| member | source | states |
|---|---|---|
| `AiService.WorkingSet` | src/lib/aiService.ts:20-25 | the categorisation working set has min(limit, number of bookmarks) entries; entry i has id i and bookmark i's title and url |
| `AiService.SearchWorkingSet` | src/lib/aiService.ts:137-143 | the search working set has min(limit, number of bookmarks) entries; entry i has id i and bookmark i's title, url and category |
| `AiService.AnalysisSize` | src/lib/aiService.ts:20-21 | exactly min(100, number of bookmarks) bookmarks are sent for categorisation |
| `AiService.SearchSize` | src/lib/aiService.ts:137-138 | exactly min(200, number of bookmarks) bookmarks are sent for search |
| `AiService.Patch` | src/lib/aiService.ts:76-84 | the stage-2 text always ends in `}`; it extends the trimmed text by at most three characters; it is unchanged exactly when the text already ends in `}`; it is longer than one character unless the text is `}` |
| `AiService.LastBraceEndsPatch` | src/lib/aiService.ts:88-91 | the last `}` of the stage-2 text is its final character, and it sits at an index above 0 exactly when the trimmed text is not `}` |
| `AiService.CloseBrackets` | src/lib/aiService.ts:76-84 | the in-place bracket closing on the trimmed reply yields exactly the stage-2 text `Patch` |
| `AiService.Recovered` | src/lib/aiService.ts:70-96 | the reply is rejected exactly when the strict parse, the parse of the stage-2 text and (unless the trimmed reply is `}`) the parse of the stage-2 text plus `]}` all fail; what it recovers is stated by `StrictParseIsFinal`, `RepairOnlyAppends` and `OpenTailRetries` |
| `AiService.ParseWithRepair` | src/lib/aiService.ts:70-96 | the imperative repair chain (strict parse, bracket closing via `CloseBrackets`, prefix through the last `}` plus `]}`) returns exactly the declarative `Recovered` result: stage 3 parses the stage-2 text plus `]}` |
| `AiService.StrictParseIsFinal` | src/lib/aiService.ts:72-74 | when the raw reply parses strictly, that parse is the result and no repair runs, even when the value is `null` |
| `AiService.RepairOnlyAppends` | src/lib/aiService.ts:76-95 | whatever a repair stage recovers is the parse of the trimmed reply plus at most five appended characters; no generator text is cut away |
| `AiService.OpenTailRetries` | src/lib/aiService.ts:76-91 | a reply whose trimmed text ends in none of `}`, `]` or `"` is retried only as that text plus `"]}` and then plus `"]}]}` |
| `AiService.CategoriesCutRecovered` | src/lib/aiService.ts:70-124 | a reply cut inside a `categories` string, `{"categories":["Do`, is recovered by stage 2 as `{"categories":["Do"]}`: categorisation succeeds with categories ['Do', 'Other'] and every working-set bookmark re-added under 'Other' |
| `AiService.CategoryOrDefault` | src/lib/aiService.ts:104 | the category is never empty: a declared non-empty category is kept, a missing or empty one becomes 'Uncategorized' |
| `AiService.Accept` | src/lib/aiService.ts:101-105 | an accepted entry gives the original bookmark at its id, unchanged, with a non-empty category |
| `AiService.AcceptedItems` | src/lib/aiService.ts:98-107 | the model's entries yield at most one item each, each with a non-empty category; the exact items are stated by `AcceptedItemsIff`, `AcceptedItemsAppend` and `AcceptedItemsSingle` |
| `AiService.AcceptedItemsIff` | src/lib/aiService.ts:98-107 | an item is accepted iff it is the bookmark at the position named by some entry whose id is a number indexing the working set, with its category or 'Uncategorized' when that is missing or empty |
| `AiService.AcceptedItemsAppend` | src/lib/aiService.ts:98-107 | entries are handled independently and in the model's order: the items of a concatenation are the concatenation of the items |
| `AiService.AcceptedItemsSingle` | src/lib/aiService.ts:100-105 | one entry yields its item exactly when its id indexes the working set, and nothing otherwise |
| `AiService.UnreturnedPositions` | src/lib/aiService.ts:110-112 | the re-added positions all lie in the working set, and there are at most as many as working-set bookmarks |
| `AiService.UnreturnedPositionsIff` | src/lib/aiService.ts:110-119 | a position is re-added iff it is in the working set and its URL is not among the accepted items' URLs |
| `AiService.UnreturnedPositionsIncrease` | src/lib/aiService.ts:111-119 | the re-added bookmarks come in working-set order |
| `AiService.Unreturned` | src/lib/aiService.ts:111-119 | the re-added bookmarks are at most the working set's size, all under 'Other'; which ones is stated by `UnreturnedPositionsIff` and `ReconcileLayout` |
| `AiService.Reconcile` | src/lib/aiService.ts:98-124 | the result's category list has no duplicates and contains 'Other'; it has at most one item per entry plus one per working-set bookmark, each with a non-empty category; its items are fully stated by `ReconcileItemsIff`, `ReconcileLayout`, `ReconcileCoversWorkingSet` and `ReconcileItemsValid` |
| `AiService.ReconcileItemsIff` | src/lib/aiService.ts:98-123 | the result items are exactly the accepted items and, under 'Other', the working-set bookmarks whose URL no accepted item has |
| `AiService.ReconcileCoversWorkingSet` | src/lib/aiService.ts:109-123 | totality: every working-set bookmark's URL occurs in the result |
| `AiService.ReconcileItemsValid` | src/lib/aiService.ts:98-123 | every result item is an unchanged working-set bookmark with a non-empty category; an 'Other' item was declared 'Other' or has a URL no accepted item has |
| `AiService.ReconcileLayout` | src/lib/aiService.ts:121-124 | the accepted items come first; every later item is under 'Other' with a URL no accepted item has |
| `AiService.OutOfRangeIdsIgnored` | src/lib/aiService.ts:100 | deleting the entries whose id does not index the working set does not change the result |
| `AiService.CategoryList` | src/lib/aiService.ts:122 | the category list has no duplicates, contains 'Other', and holds exactly the model's categories and 'Other' |
| `AiService.CategoryListOrder` | src/lib/aiService.ts:122 | categories appear in first-occurrence order; 'Other' is appended last unless the model already listed it |
| `AiService.NoEntriesReAddsAll` | src/lib/aiService.ts:98-124 | a document with categories but no `bookmarks` yields the model's category list and every working-set bookmark under 'Other' |
| `AiService.CategoryListSingle` | src/lib/aiService.ts:122 | a single declared category other than 'Other' is listed as [category, 'Other'] |
| `AiService.PartialReplyExample` | src/lib/aiService.ts:98-124 | for bookmarks A, B and a reply categorising only A as 'Docs', the result is categories ['Docs', 'Other'] and items [A/Docs, B/Other] |
| `AiService.RepeatedIdListedTwice` | src/lib/aiService.ts:98-123 | an id the model repeats makes its bookmark appear twice in the result |
| `AiService.SharedUrlNotReAdded` | src/lib/aiService.ts:110-119 | a bookmark sharing its URL with an accepted one is not re-added and so is absent from the result |
| `AiService.SelectRelevant` | src/lib/aiService.ts:189-191 | the search result has at most one bookmark per returned id, each from the search working set; its exact contents are stated by `SelectRelevantAppend` and `SelectRelevantSingle` |
| `AiService.SelectRelevantAppend` | src/lib/aiService.ts:189-191 | the search result keeps the model's ranking: ids are mapped one by one, in order, duplicates kept |
| `AiService.SelectRelevantSingle` | src/lib/aiService.ts:189-191 | one id yields bookmarks[id] when it is a number in [0, working-set size), and nothing otherwise |
| `AiService.AskAI` | src/lib/aiService.ts:185-195 | search succeeds iff the reply parses strictly to a non-null value; every failure is the 'invalid response format' error |
| `AiService.NoRelevantIdsIsEmptyResult` | src/lib/aiService.ts:187 | a missing or empty relevantIds gives an empty result, not an error |
| `AiService.SearchDoesNotRepair` | src/lib/aiService.ts:185-186 | a truncated reply that the categorisation repair recovers is an error for search |
| `AiService.Analysis` | src/lib/aiService.ts:98-129 | a parsed reply is usable iff it is a non-null value; otherwise the result is the 'invalid or incomplete response format' error |
| `AiService.AnalyzeBookmarks` | src/lib/aiService.ts:67-129 | categorisation reconciles the recovered document, or fails with the 'invalid or incomplete response format' error (missing reply, no stage parses, or `null`); on success the working set is covered and 'Other' is in the duplicate-free category list |
| `Builtins.Trim` | src/lib/aiService.ts:76 | the trimmed text is one slice of the reply with only whitespace around it, and it starts and ends with non-whitespace |
| `Builtins.EndsWith` | src/lib/aiService.ts:77-79 | `endsWith(c)` holds iff the text is non-empty and its last occurrence of `c` is at its final position |
| `Builtins.LastIndexOf` | src/lib/aiService.ts:89 | the result is -1 or a position holding the character, with no occurrence after it |
| `Builtins.Includes` | src/components/Dashboard.tsx:60-61 | a query longer than the text is never included, and one at the very start of the text always is; the full meaning is `IncludesIff` |
| `Builtins.IncludesIff` | src/components/Dashboard.tsx:60-61 | `includes` holds iff the query occurs at some position of the text |
| `Builtins.IncludesEmpty` | src/components/Dashboard.tsx:60-61 | every text includes the empty query |
| `Builtins.Filter` | src/components/Dashboard.tsx:59-64 | `filter` keeps exactly the elements that pass the test, and no more elements than the input has |
| `Builtins.FilterIsSubsequence` | src/components/Dashboard.tsx:59-64 | `filter` keeps the input's order |
| `Builtins.FilterCounts` | src/components/Dashboard.tsx:59-64 | `filter` keeps each passing element as often as it occurs, and drops every failing one |
| `Builtins.FilterAppend` | src/lib/aiService.ts:189-191 | filtering distributes over concatenation |
| `Builtins.FilterIdempotent` | src/lib/aiService.ts:98-107 | filtering twice by the same test is filtering once |
| `Builtins.FilterKeepsAll` | src/components/Dashboard.tsx:59-64 | a test every element passes keeps the whole list |
| `Builtins.FilterAgrees` | src/components/Dashboard.tsx:97 | two tests that agree on every element keep the same elements |
| `Builtins.Dedup` | src/lib/aiService.ts:122 | `Array.from(new Set(s))` has no duplicates and has exactly the elements of s |
| `Builtins.DedupFirstOccurrenceOrder` | src/lib/aiService.ts:122 | the set lists its elements in order of first occurrence |
| `Dashboard.MatchesSearch` | src/components/Dashboard.tsx:60-61 | the text filter matches iff the lowercased query occurs somewhere in the lowercased title or in the lowercased url |
| `Dashboard.MatchesCategory` | src/components/Dashboard.tsx:62 | no selection or the falsy selection "" matches every bookmark; any other selection matches exactly the bookmarks in that category |
| `Dashboard.DisplayedBookmarks` | src/components/Dashboard.tsx:56-65 | with search results present, they are the list; otherwise a bookmark is listed iff its lowercased title or url includes the lowercased query and no category is selected or its category is the selected one |
| `Dashboard.DisplayedIsSublist` | src/components/Dashboard.tsx:59-64 | without search results the list is an order-preserving sublist of the bookmarks, each kept as often as it occurs or not at all |
| `Dashboard.UnfilteredShowsAll` | src/components/Dashboard.tsx:59-64 | an empty query with no selected category lists every bookmark, in order |
| `Dashboard.CategoryCount` | src/components/Dashboard.tsx:97 | the sidebar count is at most the number of bookmarks, and is 0 exactly when no bookmark has that category |
| `Dashboard.CategoryCountStep` | src/components/Dashboard.tsx:97 | the count is 0 for no bookmarks and grows by one for each bookmark in the category |
| `Dashboard.EmptyCategoryShowsAll` | src/components/Dashboard.tsx:59-97 | when every bookmark has a non-empty category, the category "" counts 0 in the sidebar, yet selecting it applies no category filter: with an empty text filter it lists every bookmark |
| `Dashboard.CountMatchesCategoryView` | src/components/Dashboard.tsx:97 | the count for a non-empty category equals the length of the list shown when that category is selected with an empty query |

## Left out

- The `fetch` calls to the completion endpoint are left out: headers,
  prompts, model settings and the `response.ok` checks. They are network I/O.
  The reply's `content` string is an input, `None` when absent.
- `JSON.parse` is left out. It is a foreign call, modelled as the parameter
  `parse`. The JSON grammar itself is not modelled.
- `console.error` logging and `async`/`await` are left out. They are side
  effects and suspension only.
- `src/lib/bookmarkParser.ts` is not part of this model. It uses `DOMParser`,
  `link.href` normalisation and `Date.now()`.
- The UI plumbing is not part of this model: `FileUpload.tsx`, `page.tsx` and
  the two API routes. It only handles files and HTTP.
- Dashboard's React state hooks, JSX and the `handleAiSearch` network call are
  left out. The state values are parameters.
- `toLowerCase` is the parameter `lower`. Unicode case mapping is not modelled.
- Ids are modelled as integers. In JavaScript a fractional id such as 1.5
  passes the range test of search and maps to `undefined`. Categorisation
  rejects such an id, as the model does for every non-integer.
- JavaScript dynamic-typing cases are left out:
  - a truthy non-string `category`;
  - a truthy non-array `bookmarks` or `categories`, which throws or is spread
    into characters;
  - a `null` entry in `bookmarks`, which throws.

  The document is a typed datatype with optional fields.
- Strings are sequences of Unicode scalar values, not UTF-16 code units.
  Positions differ only for characters outside the Basic Multilingual Plane.
  The `}` searched for is not such a character.
- `Dashboard.CategoryCount`'s contract only bounds the count and says when it
  is zero. The exact count is stated by `Dashboard.CategoryCountStep`.
