/**
  The categorisation and search core of the bookmark organiser
  (src/lib/aiService.ts). A language model is asked to categorise, or to pick
  relevant bookmarks from, a bounded "working set" of the user's bookmarks. Its
  reply is untrusted text: this module models how that text is parsed (with a
  three-stage repair for truncated replies) and how the decoded document is
  reconciled with the working set into a result the rest of the app relies on.

  `JSON.parse` is an oracle passed in as `parse`; the network exchange is left
  out, and the reply's `content` string is an input.
*/
module AiService {
  import opened Wrappers
  import opened Builtins

  // ---------------------------------------------------------------------------
  // Data model
  // ---------------------------------------------------------------------------

  /** A bookmark as the upload step hands it over. */
  datatype Bookmark = Bookmark(title: string, url: string, addDate: int)

  /** A bookmark extended with a category: the original's fields, unchanged, plus `category`. */
  datatype CategorizedBookmark = CategorizedBookmark(bookmark: Bookmark, category: string)

  /** What categorisation returns to the page. */
  datatype AnalysisResult = AnalysisResult(categories: seq<string>, bookmarks: seq<CategorizedBookmark>)

  /** One element of the working set sent to the model; `category` is sent only when searching. */
  datatype IndexedBookmark = IndexedBookmark(id: nat, title: string, url: string, category: Option<string>)

  /**
    One element of the model's "bookmarks" array. `id` is None when the JSON
    value there is not a number; `category` is None when it is absent or null.
  */
  datatype Entry = Entry(id: Option<int>, category: Option<string>)

  /**
    The value `JSON.parse` produces from the model's reply. `Null` is the JSON
    literal null, on which every field access throws. Any other value reads as
    a `Document` whose fields are None where the property is missing (or, for
    `relevantIds`, is not an array); a number, string or array at the top level
    is a `Document` with no fields.
  */
  datatype Document =
    | Null
    | Document(categories: Option<seq<string>>, bookmarks: Option<seq<Entry>>, relevantIds: Option<seq<Option<int>>>)

  /** `JSON.parse`: a document, or None where it throws. */
  type Parser = string -> Option<Document>

  const AnalyzeLimit: nat := 100
  const SearchLimit: nat := 200
  const FallbackCategory := "Other"
  const DefaultCategory := "Uncategorized"
  const AnalyzeFormatError := "AI returned an invalid or incomplete response format."
  const SearchFormatError := "AI returned an invalid response format."

  function Min(a: nat, b: nat): nat {
    if a <= b then a else b
  }

  // ---------------------------------------------------------------------------
  // Working set: the first `limit` bookmarks, each tagged with its position
  // ---------------------------------------------------------------------------

  /** The working set for categorisation: `bookmarks.slice(0, limit)` with `id` set to the position. */
  function WorkingSet(bookmarks: seq<Bookmark>, limit: nat): (ws: seq<IndexedBookmark>)
    ensures |ws| == Min(limit, |bookmarks|)
    ensures forall i :: 0 <= i < |ws| ==> ws[i] == IndexedBookmark(i, bookmarks[i].title, bookmarks[i].url, None)
  {
    var kept := bookmarks[..Min(limit, |bookmarks|)];
    seq(|kept|, i requires 0 <= i < |kept| => IndexedBookmark(i, kept[i].title, kept[i].url, None))
  }

  /** The working set for search: as for categorisation, and each entry also carries its category. */
  function SearchWorkingSet(bookmarks: seq<CategorizedBookmark>, limit: nat): (ws: seq<IndexedBookmark>)
    ensures |ws| == Min(limit, |bookmarks|)
    ensures forall i :: 0 <= i < |ws| ==>
      ws[i] == IndexedBookmark(i, bookmarks[i].bookmark.title, bookmarks[i].bookmark.url, Some(bookmarks[i].category))
  {
    var kept := bookmarks[..Min(limit, |bookmarks|)];
    seq(|kept|, i requires 0 <= i < |kept| =>
      IndexedBookmark(i, kept[i].bookmark.title, kept[i].bookmark.url, Some(kept[i].category)))
  }

  /** The number of bookmarks sent for categorisation. */
  function AnalysisSize(bookmarks: seq<Bookmark>): (n: nat)
    ensures n == Min(AnalyzeLimit, |bookmarks|)
    ensures n <= |bookmarks| && n <= AnalyzeLimit
  {
    |WorkingSet(bookmarks, AnalyzeLimit)|
  }

  /** The number of bookmarks sent for search. */
  function SearchSize(bookmarks: seq<CategorizedBookmark>): (n: nat)
    ensures n == Min(SearchLimit, |bookmarks|)
    ensures n <= |bookmarks| && n <= SearchLimit
  {
    |SearchWorkingSet(bookmarks, SearchLimit)|
  }

  // ---------------------------------------------------------------------------
  // Tolerant parsing of the categorisation reply
  // ---------------------------------------------------------------------------

  /**
    The second repair stage on the trimmed reply: a text already ending in `}`
    is kept; one ending in `]` or `"` gets `}`; anything else gets `"]}`.
    The result always ends in `}` and only ever extends the text.
  */
  function Patch(t: string): (p: string)
    ensures EndsWith(p, '}')
    ensures |t| <= |p| <= |t| + 3 && p[..|t|] == t
    ensures p == t <==> EndsWith(t, '}')
    ensures |p| > 1 <==> t != "}"
  {
    if EndsWith(t, '}') then t
    else if EndsWith(t, ']') then t + "}"
    else if EndsWith(t, '"') then t + "}"
    else t + "\"]}"
  }

  /**
    The document the three stages recover from `raw`, stated without string
    searching: the strict parse when it succeeds; else the parse of the patched
    trimmed text; else, unless the trimmed text is exactly `}`, the parse of the
    patched text followed by `]}`. The text before the closing `]}` of stage 3
    is the whole of stage 2's text: nothing the model emitted is cut away.
  */
  function Recovered(raw: string, parse: Parser): (r: Option<Document>)
    ensures r.None? <==>
      && parse(raw).None?
      && parse(Patch(Trim(raw))).None?
      && (Trim(raw) == "}" || parse(Patch(Trim(raw)) + "]}").None?)
  {
    if parse(raw).Some? then parse(raw)
    else
      var patched := Patch(Trim(raw));
      if parse(patched).Some? then parse(patched)
      else if Trim(raw) != "}" then parse(patched + "]}")
      else None
  }

  /** The stage-2 text's last `}` is its final character, and it is at a positive index unless the trimmed text is `}`. */
  lemma LastBraceEndsPatch(t: string)
    ensures LastIndexOf(Patch(t), '}') == |Patch(t)| - 1
    ensures LastIndexOf(Patch(t), '}') > 0 <==> t != "}"
  {
  }

  /**
    The second stage as the source runs it: the trimmed reply, held in a
    variable, is extended in place by the bracket-closing rules.
  */
  method CloseBrackets(t: string) returns (fixedContent: string)
    ensures fixedContent == Patch(t)
  {
    fixedContent := t;
    if !EndsWith(fixedContent, '}') {
      if !EndsWith(fixedContent, ']') {
        if EndsWith(fixedContent, '"') {
          fixedContent := fixedContent + "}";
        } else {
          fixedContent := fixedContent + "\"]}";
        }
      } else {
        fixedContent := fixedContent + "}";
      }
    }
  }

  /**
    The repair chain as the source runs it: a strict parse; then the trimmed
    reply with its brackets closed, parsed again; then the prefix through the
    last `}`, followed by `]}`, parsed once more when that `}` is at an index
    above 0. None stands for the exception that ends the request.
  */
  method ParseWithRepair(raw: string, parse: Parser) returns (parsed: Option<Document>)
    ensures parsed == Recovered(raw, parse)
  {
    parsed := parse(raw);
    if parsed.None? {
      var fixedContent := CloseBrackets(Trim(raw));
      parsed := parse(fixedContent);
      if parsed.None? {
        var lastValidObj := LastIndexOf(fixedContent, '}');
        LastBraceEndsPatch(Trim(raw));
        if lastValidObj > 0 {
          assert fixedContent[..lastValidObj + 1] == fixedContent;
          parsed := parse(fixedContent[..lastValidObj + 1] + "]}");
        }
      }
    }
  }

  /** A strict parse that succeeds is final: no repair runs, even when its value is `null`. */
  lemma StrictParseIsFinal(raw: string, parse: Parser)
    requires parse(raw).Some?
    ensures Recovered(raw, parse) == parse(raw)
  {
  }

  /** `c` is the trimmed reply `t` with at most five characters appended. */
  ghost predicate ExtendsBy(t: string, c: string) {
    |t| <= |c| <= |t| + 5 && c[..|t|] == t
  }

  /**
    Repair only appends: whatever a repair stage recovers is the parse of the
    trimmed reply followed by at most five closing characters, so a truncated
    reply is never shortened to its last complete entry.
  */
  lemma RepairOnlyAppends(raw: string, parse: Parser)
    requires parse(raw).None? && Recovered(raw, parse).Some?
    ensures exists c :: ExtendsBy(Trim(raw), c) && Recovered(raw, parse) == parse(c)
  {
    var t := Trim(raw);
    var patched := Patch(t);
    if parse(patched).Some? {
      assert ExtendsBy(t, patched);
    } else {
      assert (patched + "]}")[..|t|] == patched[..|t|];
      assert ExtendsBy(t, patched + "]}");
    }
  }

  /**
    A reply whose trimmed text ends in none of `}`, `]` or `"` (cut inside a
    string, or after a number, comma, colon or `[`) is retried with exactly two
    texts: the trimmed text followed by `"]}`, then by `"]}]}`.
  */
  lemma OpenTailRetries(raw: string, parse: Parser)
    requires parse(raw).None?
    requires !EndsWith(Trim(raw), '}') && !EndsWith(Trim(raw), ']') && !EndsWith(Trim(raw), '"')
    ensures var t := Trim(raw);
      Recovered(raw, parse) ==
        if parse(t + "\"]}").Some? then parse(t + "\"]}") else parse(t + "\"]}]}")
  {
    var t := Trim(raw);
    assert Patch(t) == t + "\"]}";
    assert t + "\"]}" + "]}" == t + "\"]}]}";
  }

  /**
    A reply cut inside a `categories` string is recovered by the second stage:
    `"]}` closes the string, the array and the document, so categorisation
    succeeds and files every working-set bookmark under "Other".
  */
  lemma CategoriesCutRecovered(bookmarks: seq<Bookmark>)
    ensures var raw := "{\"categories\":[\"Do";
      var parse: Parser := s => if s == raw + "\"]}" then Some(Document(Some(["Do"]), None, None)) else None;
      Analysis(bookmarks, Recovered(raw, parse)) ==
        Success(AnalysisResult(["Do", "Other"], Unreturned(bookmarks, {})))
  {
    var raw := "{\"categories\":[\"Do";
    var doc := Document(Some(["Do"]), None, None);
    var parse: Parser := s => if s == raw + "\"]}" then Some(doc) else None;
    assert |raw + "\"]}"| != |raw|;
    assert Trim(raw) == raw by {
      assert ContentStart(raw, 0) == 0;
      assert ContentEnd(raw, 0, |raw|) == |raw|;
    }
    assert Patch(raw) == raw + "\"]}" by {
      assert raw[|raw| - 1] == 'o';
    }
    assert Recovered(raw, parse) == Some(doc);
    NoEntriesReAddsAll(bookmarks, ["Do"]);
    CategoryListSingle("Do");
  }

  /** One declared category other than "Other" is listed first, followed by "Other". */
  lemma CategoryListSingle(c: string)
    requires c != FallbackCategory
    ensures CategoryList([c]) == [c, FallbackCategory]
  {
    assert Dedup([c]) == [c];
    assert [c] + [FallbackCategory] == [c, FallbackCategory];
  }

  /** A document that lists categories but no entries files every working-set bookmark under "Other". */
  lemma NoEntriesReAddsAll(bookmarks: seq<Bookmark>, categories: seq<string>)
    ensures Reconcile(bookmarks, Document(Some(categories), None, None)) ==
      AnalysisResult(CategoryList(categories), Unreturned(bookmarks, {}))
  {
    assert DocumentItems(bookmarks, Document(Some(categories), None, None)) == [];
    assert ReturnedUrls([]) == {};
  }

  // ---------------------------------------------------------------------------
  // Reconciliation of the categorisation document with the working set
  // ---------------------------------------------------------------------------

  /** The model's `id` is a number that indexes a working set of size `n`. */
  predicate IndexesWorkingSet(id: Option<int>, n: nat) {
    id.Some? && 0 <= id.value < n
  }

  /** The test `typeof b.id === 'number' && processedBookmarks[b.id]` on the model's entries. */
  function EntryTest(n: nat): Entry -> bool {
    (e: Entry) => IndexesWorkingSet(e.id, n)
  }

  /** `b.category || 'Uncategorized'`: a missing or empty category falls back to the default. */
  function CategoryOrDefault(category: Option<string>): (c: string)
    ensures c != ""
    ensures category.Some? && category.value != "" ==> c == category.value
    ensures category.None? || category.value == "" ==> c == DefaultCategory
  {
    if category.Some? && category.value != "" then category.value else DefaultCategory
  }

  /** The result item for an accepted entry: the original bookmark at that position with the declared category. */
  function Accept(bookmarks: seq<Bookmark>, e: Entry): (x: CategorizedBookmark)
    requires IndexesWorkingSet(e.id, |bookmarks|)
    ensures x.bookmark == bookmarks[e.id.value] && x.category != ""
  {
    CategorizedBookmark(bookmarks[e.id.value], CategoryOrDefault(e.category))
  }

  /** The items built from the model's entries, in the model's order, entries with unusable ids dropped. */
  function AcceptedItems(bookmarks: seq<Bookmark>, entries: seq<Entry>): (r: seq<CategorizedBookmark>)
    ensures |r| <= |entries|
    ensures forall k :: 0 <= k < |r| ==> r[k].category != ""
  {
    var n := AnalysisSize(bookmarks);
    var kept := Filter(entries, EntryTest(n));
    seq(|kept|, k requires 0 <= k < |kept| => assert kept[k] in kept; Accept(bookmarks, kept[k]))
  }

  /** The test `!returnedUrls.has(b.url)` on the working set. */
  function UnreturnedTest(returned: set<string>): IndexedBookmark -> bool {
    (w: IndexedBookmark) => w.url !in returned
  }

  /** The positions of the working-set bookmarks whose URL is not among `returned`, in working-set order. */
  function UnreturnedPositions(bookmarks: seq<Bookmark>, returned: set<string>): (pos: seq<nat>)
    ensures |pos| <= AnalysisSize(bookmarks)
    ensures forall i :: i in pos ==> i < AnalysisSize(bookmarks)
  {
    var ws := WorkingSet(bookmarks, AnalyzeLimit);
    var kept := Filter(ws, UnreturnedTest(returned));
    assert forall w :: w in ws ==> w.id < |ws|;
    seq(|kept|, k requires 0 <= k < |kept| => assert kept[k] in kept; kept[k].id)
  }

  /** The working-set bookmarks the model did not return, re-added under the fallback category. */
  function Unreturned(bookmarks: seq<Bookmark>, returned: set<string>): (r: seq<CategorizedBookmark>)
    ensures |r| <= AnalysisSize(bookmarks)
    ensures forall k :: 0 <= k < |r| ==> r[k].category == FallbackCategory
  {
    var pos := UnreturnedPositions(bookmarks, returned);
    seq(|pos|, k requires 0 <= k < |pos| => assert pos[k] in pos; CategorizedBookmark(bookmarks[pos[k]], FallbackCategory))
  }

  /** `Array.from(new Set([...categories, 'Other']))`: no duplicates, and exactly the model's categories and "Other". */
  function CategoryList(categories: seq<string>): (r: seq<string>)
    ensures NoDuplicates(r)
    ensures FallbackCategory in r
    ensures forall c :: c in r <==> c in categories || c == FallbackCategory
  {
    Dedup(categories + [FallbackCategory])
  }

  /** The accepted items of a document: its entries with usable ids turned into result items. */
  function DocumentItems(bookmarks: seq<Bookmark>, doc: Document): seq<CategorizedBookmark>
    requires doc.Document?
  {
    AcceptedItems(bookmarks, doc.bookmarks.GetOr([]))
  }

  /** The URLs the accepted items cover. */
  function ReturnedUrls(items: seq<CategorizedBookmark>): set<string> {
    set x | x in items :: x.bookmark.url
  }

  /**
    Turns a decoded document into the analysis result: the accepted items,
    then every working-set bookmark whose URL they do not cover, under
    "Other"; the category list is the model's, de-duplicated, plus "Other".
  */
  function Reconcile(bookmarks: seq<Bookmark>, doc: Document): (r: AnalysisResult)
    requires doc.Document?
    ensures FallbackCategory in r.categories && NoDuplicates(r.categories)
    ensures |r.bookmarks| <= |doc.bookmarks.GetOr([])| + AnalysisSize(bookmarks)
    ensures forall k :: 0 <= k < |r.bookmarks| ==> r.bookmarks[k].category != ""
  {
    var accepted := DocumentItems(bookmarks, doc);
    AnalysisResult(
      CategoryList(doc.categories.GetOr([])),
      accepted + Unreturned(bookmarks, ReturnedUrls(accepted)))
  }

  /** Every working-set bookmark's URL occurs in `items`. */
  ghost predicate CoversWorkingSet(bookmarks: seq<Bookmark>, items: seq<CategorizedBookmark>) {
    forall i :: 0 <= i < AnalysisSize(bookmarks) ==> exists x :: x in items && x.bookmark.url == bookmarks[i].url
  }

  /** An item accepted from the model is exactly the result item of one of its entries with a usable id. */
  lemma AcceptedItemsIff(bookmarks: seq<Bookmark>, entries: seq<Entry>, x: CategorizedBookmark)
    ensures x in AcceptedItems(bookmarks, entries) <==>
      exists e :: e in entries && IndexesWorkingSet(e.id, AnalysisSize(bookmarks)) && x == Accept(bookmarks, e)
  {
    var n := AnalysisSize(bookmarks);
    var kept := Filter(entries, EntryTest(n));
    var r := AcceptedItems(bookmarks, entries);
    if x in r {
      var k :| 0 <= k < |r| && r[k] == x;
      assert kept[k] in kept;
    }
    if e :| e in entries && IndexesWorkingSet(e.id, n) && x == Accept(bookmarks, e) {
      assert EntryTest(n)(e);
      var k :| 0 <= k < |kept| && kept[k] == e;
      assert r[k] == x;
    }
  }

  /** Entries are handled one at a time and in the model's order: the items of a concatenation are the concatenation of the items. */
  lemma AcceptedItemsAppend(bookmarks: seq<Bookmark>, a: seq<Entry>, b: seq<Entry>)
    ensures AcceptedItems(bookmarks, a + b) == AcceptedItems(bookmarks, a) + AcceptedItems(bookmarks, b)
  {
    FilterAppend(a, b, EntryTest(AnalysisSize(bookmarks)));
  }

  /** A single entry yields one item when its id indexes the working set, and none otherwise. */
  lemma AcceptedItemsSingle(bookmarks: seq<Bookmark>, e: Entry)
    ensures AcceptedItems(bookmarks, [e]) ==
      if IndexesWorkingSet(e.id, AnalysisSize(bookmarks)) then [Accept(bookmarks, e)] else []
  {
    var p := EntryTest(AnalysisSize(bookmarks));
    assert [e][1..] == [];
    assert Filter([e], p) == (if p(e) then [e] else []) + Filter([], p);
  }

  /** A position is re-added exactly when it is in the working set and its URL was not returned. */
  lemma UnreturnedPositionsIff(bookmarks: seq<Bookmark>, returned: set<string>, i: nat)
    ensures i in UnreturnedPositions(bookmarks, returned) <==>
      i < AnalysisSize(bookmarks) && bookmarks[i].url !in returned
  {
    var ws := WorkingSet(bookmarks, AnalyzeLimit);
    var kept := Filter(ws, UnreturnedTest(returned));
    var pos := UnreturnedPositions(bookmarks, returned);
    if i in pos {
      var k :| 0 <= k < |pos| && pos[k] == i;
      assert kept[k] in kept;
      var j :| 0 <= j < |ws| && ws[j] == kept[k];
    }
    if i < AnalysisSize(bookmarks) && bookmarks[i].url !in returned {
      assert UnreturnedTest(returned)(ws[i]);
      assert ws[i] in kept;
      var k :| 0 <= k < |kept| && kept[k] == ws[i];
      assert pos[k] == i;
    }
  }

  /** The re-added positions are listed in working-set order. */
  lemma UnreturnedPositionsIncrease(bookmarks: seq<Bookmark>, returned: set<string>)
    ensures forall a, b :: 0 <= a < b < |UnreturnedPositions(bookmarks, returned)| ==>
      UnreturnedPositions(bookmarks, returned)[a] < UnreturnedPositions(bookmarks, returned)[b]
  {
    var ws := WorkingSet(bookmarks, AnalyzeLimit);
    var kept := Filter(ws, UnreturnedTest(returned));
    var key := (w: IndexedBookmark) => w.id as int;
    FilterIsSubsequence(ws, UnreturnedTest(returned));
    SubsequenceKeepsOrder(kept, ws, key);
  }

  /**
    The items of a reconciled result are exactly: the accepted items, and, under
    "Other", each working-set bookmark whose URL no accepted item has.
  */
  lemma ReconcileItemsIff(bookmarks: seq<Bookmark>, doc: Document, x: CategorizedBookmark)
    requires doc.Document?
    ensures var accepted := DocumentItems(bookmarks, doc);
      x in Reconcile(bookmarks, doc).bookmarks <==>
        || x in accepted
        || exists i :: 0 <= i < AnalysisSize(bookmarks) && bookmarks[i].url !in ReturnedUrls(accepted)
             && x == CategorizedBookmark(bookmarks[i], FallbackCategory)
  {
    var accepted := DocumentItems(bookmarks, doc);
    var returned := ReturnedUrls(accepted);
    var pos := UnreturnedPositions(bookmarks, returned);
    var repaired := Unreturned(bookmarks, returned);
    assert Reconcile(bookmarks, doc).bookmarks == accepted + repaired;
    if x in repaired {
      var k :| 0 <= k < |repaired| && repaired[k] == x;
      UnreturnedPositionsIff(bookmarks, returned, pos[k]);
    }
    if i :| (0 <= i < AnalysisSize(bookmarks) && bookmarks[i].url !in returned
            && x == CategorizedBookmark(bookmarks[i], FallbackCategory)) {
      UnreturnedPositionsIff(bookmarks, returned, i);
      var k :| 0 <= k < |pos| && pos[k] == i;
      assert repaired[k] == x;
    }
  }

  /**
    Totality: every working-set bookmark's URL occurs in the result, either on
    an accepted item or on the bookmark itself re-added under "Other".
  */
  lemma ReconcileCoversWorkingSet(bookmarks: seq<Bookmark>, doc: Document)
    requires doc.Document?
    ensures CoversWorkingSet(bookmarks, Reconcile(bookmarks, doc).bookmarks)
  {
    var accepted := DocumentItems(bookmarks, doc);
    var returned := ReturnedUrls(accepted);
    var r := Reconcile(bookmarks, doc).bookmarks;
    forall i | 0 <= i < AnalysisSize(bookmarks)
      ensures exists x :: x in r && x.bookmark.url == bookmarks[i].url
    {
      if bookmarks[i].url in returned {
        var x :| x in accepted && x.bookmark.url == bookmarks[i].url;
        assert x in r;
      } else {
        ReconcileItemsIff(bookmarks, doc, CategorizedBookmark(bookmarks[i], FallbackCategory));
      }
    }
  }

  /**
    Every result item is a working-set bookmark, unchanged, with a non-empty
    category; an item filed under "Other" either was declared "Other" by the
    model or is a re-added bookmark whose URL no accepted item has.
  */
  lemma ReconcileItemsValid(bookmarks: seq<Bookmark>, doc: Document, x: CategorizedBookmark)
    requires doc.Document? && x in Reconcile(bookmarks, doc).bookmarks
    ensures x.category != ""
    ensures exists i :: 0 <= i < AnalysisSize(bookmarks) && x.bookmark == bookmarks[i]
    ensures x.category == FallbackCategory ==>
      || (exists e :: e in doc.bookmarks.GetOr([]) && IndexesWorkingSet(e.id, AnalysisSize(bookmarks))
            && e.category == Some(FallbackCategory) && x == Accept(bookmarks, e))
      || x.bookmark.url !in ReturnedUrls(DocumentItems(bookmarks, doc))
  {
    var accepted := DocumentItems(bookmarks, doc);
    ReconcileItemsIff(bookmarks, doc, x);
    if x in accepted {
      AcceptedItemsIff(bookmarks, doc.bookmarks.GetOr([]), x);
      var e :| e in doc.bookmarks.GetOr([]) && IndexesWorkingSet(e.id, AnalysisSize(bookmarks)) && x == Accept(bookmarks, e);
      assert x.bookmark == bookmarks[e.id.value];
    }
  }

  /** The accepted items come first, in the model's order; every later item is a re-added bookmark under "Other" whose URL no accepted item has. */
  lemma ReconcileLayout(bookmarks: seq<Bookmark>, doc: Document)
    requires doc.Document?
    ensures var accepted := DocumentItems(bookmarks, doc);
      var r := Reconcile(bookmarks, doc).bookmarks;
      && |accepted| <= |r| && r[..|accepted|] == accepted
      && forall k :: |accepted| <= k < |r| ==>
           r[k].category == FallbackCategory && r[k].bookmark.url !in ReturnedUrls(accepted)
  {
    var accepted := DocumentItems(bookmarks, doc);
    var returned := ReturnedUrls(accepted);
    var pos := UnreturnedPositions(bookmarks, returned);
    var r := Reconcile(bookmarks, doc).bookmarks;
    forall k | |accepted| <= k < |r|
      ensures r[k].category == FallbackCategory && r[k].bookmark.url !in returned
    {
      UnreturnedPositionsIff(bookmarks, returned, pos[k - |accepted|]);
    }
  }

  /** Bounds safety: entries whose id does not index the working set can be deleted from the document without changing the result. */
  lemma OutOfRangeIdsIgnored(bookmarks: seq<Bookmark>, doc: Document)
    requires doc.Document?
    ensures var entries := doc.bookmarks.GetOr([]);
      Reconcile(bookmarks, doc) ==
      Reconcile(bookmarks, doc.(bookmarks := Some(Filter(entries, EntryTest(AnalysisSize(bookmarks))))))
  {
    FilterIdempotent(doc.bookmarks.GetOr([]), EntryTest(AnalysisSize(bookmarks)));
  }

  /** The categories appear in the order the model first named them, "Other" last unless the model named it. */
  lemma CategoryListOrder(categories: seq<string>)
    ensures var all := categories + [FallbackCategory];
      forall i, j :: 0 <= i < j < |CategoryList(categories)| ==>
        FirstIndex(all, CategoryList(categories)[i]) < FirstIndex(all, CategoryList(categories)[j])
    ensures FallbackCategory !in categories ==> CategoryList(categories) == Dedup(categories) + [FallbackCategory]
    ensures FallbackCategory in categories ==> CategoryList(categories) == Dedup(categories)
  {
    var all := categories + [FallbackCategory];
    DedupFirstOccurrenceOrder(all);
    assert all[..|all| - 1] == categories;
  }

  /** The working set [A, B] with a reply that categorises only A: B is re-added under "Other". */
  lemma PartialReplyExample()
    ensures var a, b := Bookmark("A", "http://a", 0), Bookmark("B", "http://b", 0);
      var doc := Document(Some(["Docs"]), Some([Entry(Some(0), Some("Docs"))]), None);
      Reconcile([a, b], doc) ==
        AnalysisResult(["Docs", "Other"], [CategorizedBookmark(a, "Docs"), CategorizedBookmark(b, "Other")])
  {
    var a, b := Bookmark("A", "http://a", 0), Bookmark("B", "http://b", 0);
    var bookmarks := [a, b];
    var e := Entry(Some(0), Some("Docs"));
    AcceptedItemsSingle(bookmarks, e);
    var doc := Document(Some(["Docs"]), Some([e]), None);
    var accepted := [CategorizedBookmark(a, "Docs")];
    assert DocumentItems(bookmarks, doc) == accepted;
    assert ReturnedUrls(accepted) == {"http://a"};
    var ws := WorkingSet(bookmarks, AnalyzeLimit);
    assert ws == [IndexedBookmark(0, "A", "http://a", None), IndexedBookmark(1, "B", "http://b", None)];
    var test := UnreturnedTest({"http://a"});
    assert Filter(ws, test) == Filter(ws[1..], test);
    assert Filter(ws[1..], test) == [ws[1]] + Filter(ws[1..][1..], test);
    assert UnreturnedPositions(bookmarks, {"http://a"}) == [1];
    assert Unreturned(bookmarks, {"http://a"}) == [CategorizedBookmark(b, "Other")];
    assert Dedup(["Docs"]) == ["Docs"];
    assert ["Docs"] + [FallbackCategory] == ["Docs", "Other"];
    assert CategoryList(["Docs"]) == ["Docs", "Other"];
  }

  /** The result need not list a bookmark only once: an id the model repeats yields the bookmark twice. */
  lemma RepeatedIdListedTwice()
    ensures var a := Bookmark("A", "http://a", 0);
      var e := Entry(Some(0), Some("Docs"));
      Reconcile([a], Document(None, Some([e, e]), None)).bookmarks ==
        [CategorizedBookmark(a, "Docs"), CategorizedBookmark(a, "Docs")]
  {
    var a := Bookmark("A", "http://a", 0);
    var e := Entry(Some(0), Some("Docs"));
    var x := CategorizedBookmark(a, "Docs");
    AcceptedItemsSingle([a], e);
    AcceptedItemsAppend([a], [e], [e]);
    assert [e] + [e] == [e, e];
    var accepted := DocumentItems([a], Document(None, Some([e, e]), None));
    assert accepted == [x, x];
    assert ReturnedUrls(accepted) == {"http://a"};
    var ws := WorkingSet([a], AnalyzeLimit);
    assert ws == [IndexedBookmark(0, "A", "http://a", None)];
    assert Filter(ws, UnreturnedTest({"http://a"})) == Filter(ws[1..], UnreturnedTest({"http://a"}));
    assert Unreturned([a], {"http://a"}) == [];
  }

  /** Coverage is by URL: a bookmark sharing its URL with an accepted one is not re-added, so it is absent from the result. */
  lemma SharedUrlNotReAdded()
    ensures var a, b := Bookmark("A", "http://same", 0), Bookmark("B", "http://same", 1);
      var e := Entry(Some(0), Some("Docs"));
      Reconcile([a, b], Document(None, Some([e]), None)).bookmarks == [CategorizedBookmark(a, "Docs")]
  {
    var a, b := Bookmark("A", "http://same", 0), Bookmark("B", "http://same", 1);
    var e := Entry(Some(0), Some("Docs"));
    AcceptedItemsSingle([a, b], e);
    assert ReturnedUrls([CategorizedBookmark(a, "Docs")]) == {"http://same"};
    var ws := WorkingSet([a, b], AnalyzeLimit);
    var test := UnreturnedTest({"http://same"});
    assert ws == [IndexedBookmark(0, "A", "http://same", None), IndexedBookmark(1, "B", "http://same", None)];
    assert Filter(ws, test) == Filter(ws[1..], test);
    assert Filter(ws[1..], test) == Filter(ws[1..][1..], test);
  }

  // ---------------------------------------------------------------------------
  // Relevance filter for search
  // ---------------------------------------------------------------------------

  /** The test `typeof id === 'number' && id >= 0 && id < processedBookmarks.length`. */
  function IdTest(n: nat): Option<int> -> bool {
    (id: Option<int>) => IndexesWorkingSet(id, n)
  }

  /** The bookmarks the model ranked relevant: each usable id mapped back to its bookmark, in the model's order. */
  function SelectRelevant(bookmarks: seq<CategorizedBookmark>, ids: seq<Option<int>>): (r: seq<CategorizedBookmark>)
    ensures |r| <= |ids|
    ensures forall k :: 0 <= k < |r| ==> r[k] in bookmarks[..SearchSize(bookmarks)]
  {
    var n := SearchSize(bookmarks);
    var kept := Filter(ids, IdTest(n));
    var r := seq(|kept|, k requires 0 <= k < |kept| => assert kept[k] in kept; bookmarks[kept[k].value]);
    assert forall k :: 0 <= k < |kept| ==> kept[k] in kept && IdTest(n)(kept[k]);
    assert forall k :: 0 <= k < |r| ==> r[k] == bookmarks[..n][kept[k].value];
    r
  }

  /** The ranking is kept: the result for a concatenation of ids is the concatenation of the results. */
  lemma SelectRelevantAppend(bookmarks: seq<CategorizedBookmark>, a: seq<Option<int>>, b: seq<Option<int>>)
    ensures SelectRelevant(bookmarks, a + b) == SelectRelevant(bookmarks, a) + SelectRelevant(bookmarks, b)
  {
    FilterAppend(a, b, IdTest(SearchSize(bookmarks)));
  }

  /** One id yields its bookmark when it indexes the search working set, and nothing otherwise. */
  lemma SelectRelevantSingle(bookmarks: seq<CategorizedBookmark>, id: Option<int>)
    ensures SelectRelevant(bookmarks, [id]) ==
      if IndexesWorkingSet(id, SearchSize(bookmarks)) then [bookmarks[id.value]] else []
  {
    var p := IdTest(SearchSize(bookmarks));
    assert [id][1..] == [];
    assert Filter([id], p) == (if p(id) then [id] else []) + Filter([], p);
  }

  /**
    `askAI` after the network exchange: a strict parse only, with no repair;
    a reply that does not parse, or parses to `null`, is an error; a missing or
    non-array `relevantIds` selects nothing.
  */
  function AskAI(bookmarks: seq<CategorizedBookmark>, content: Option<string>, parse: Parser)
    : (r: Result<seq<CategorizedBookmark>, string>)
    ensures r.Success? <==> content.Some? && parse(content.value).Some? && parse(content.value).value.Document?
    ensures r.Failure? ==> r.error == SearchFormatError
  {
    if content.None? then Failure(SearchFormatError)
    else
      match parse(content.value)
      case Some(Document(_, _, ids)) => Success(SelectRelevant(bookmarks, ids.GetOr([])))
      case _ => Failure(SearchFormatError)
  }

  /** An empty or missing `relevantIds` gives an empty result, which is not an error. */
  lemma NoRelevantIdsIsEmptyResult(bookmarks: seq<CategorizedBookmark>, content: string, parse: Parser)
    requires parse(content).Some? && parse(content).value.Document?
    requires parse(content).value.relevantIds.GetOr([]) == []
    ensures AskAI(bookmarks, Some(content), parse) == Success([])
  {
    assert |SelectRelevant(bookmarks, [])| == 0;
  }

  /** Search never repairs: a truncated reply that categorisation recovers is an error for search. */
  lemma SearchDoesNotRepair(bookmarks: seq<CategorizedBookmark>)
    ensures var raw := "{\"relevantIds\":[0]";
      var parse: Parser := s => if s == raw + "}" then Some(Document(None, None, Some([Some(0)]))) else None;
      && Recovered(raw, parse).Some?
      && AskAI(bookmarks, Some(raw), parse) == Failure(SearchFormatError)
  {
    var raw := "{\"relevantIds\":[0]";
    var parse: Parser := s => if s == raw + "}" then Some(Document(None, None, Some([Some(0)]))) else None;
    assert |raw + "}"| != |raw|;
    assert Trim(raw) == raw by {
      assert ContentStart(raw, 0) == 0;
      assert ContentEnd(raw, 0, |raw|) == |raw|;
    }
    assert Patch(raw) == raw + "}" by {
      assert raw[|raw| - 1] == ']';
    }
    assert Recovered(raw, parse) == parse(raw + "}");
  }

  // ---------------------------------------------------------------------------
  // Categorisation end to end
  // ---------------------------------------------------------------------------

  /** The outcome once the reply is parsed: a usable document is reconciled; no document, or `null`, is the format error. */
  function Analysis(bookmarks: seq<Bookmark>, parsed: Option<Document>): (r: Result<AnalysisResult, string>)
    ensures r.Success? <==> parsed.Some? && parsed.value.Document?
    ensures r.Failure? ==> r.error == AnalyzeFormatError
  {
    match parsed
    case Some(Document(_, _, _)) => Success(Reconcile(bookmarks, parsed.value))
    case _ => Failure(AnalyzeFormatError)
  }

  /**
    `analyzeBookmarks` after the network exchange. A missing reply text makes
    the repair itself throw and so ends in the format error too. On success the
    result covers the working set and its category list contains "Other"
    exactly once.
  */
  method AnalyzeBookmarks(bookmarks: seq<Bookmark>, content: Option<string>, parse: Parser)
    returns (r: Result<AnalysisResult, string>)
    ensures content.None? ==> r == Failure(AnalyzeFormatError)
    ensures content.Some? ==> r == Analysis(bookmarks, Recovered(content.value, parse))
    ensures r.Failure? ==> r.error == AnalyzeFormatError
    ensures r.Success? ==> CoversWorkingSet(bookmarks, r.value.bookmarks)
    ensures r.Success? ==> FallbackCategory in r.value.categories && NoDuplicates(r.value.categories)
  {
    if content.None? {
      return Failure(AnalyzeFormatError);
    }
    var parsed := ParseWithRepair(content.value, parse);
    match parsed {
      case Some(Document(categories, _, _)) =>
        ReconcileCoversWorkingSet(bookmarks, parsed.value);
        r := Success(Reconcile(bookmarks, parsed.value));
      case _ =>
        r := Failure(AnalyzeFormatError);
    }
  }
}
