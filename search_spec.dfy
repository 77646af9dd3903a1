/** `search`: one result per visible record whose content holds the query,
    in the dictionary's iteration order, each with a highlighted snippet
    around its first hit and the list of all its hits. */
module SearchSpec {
  import opened Outcomes
  import opened Records
  import opened Store
  import opened HitScan
  import opened Snippets
  import opened Highlighting

  /** One entry of the list `search` returns. The record's `source` is not
      part of it. */
  datatype SearchResult = SearchResult(
    docId: string,
    title: string,
    thumbnailUrl: string,
    pageOrSlide: string,
    snippet: string,
    hitPositions: seq<Span>)

  /** What `search` makes of one record: nothing for a deleted or excluded
      record or one without a hit, otherwise the record's result. */
  function Candidate(r: DocumentRecord, query: string, window: nat): Option<SearchResult>
  {
    if r.isDeleted || r.isExcluded then None
    else
      var hits := Hits(r.content, query);
      if hits == [] then None
      else
        var snippet := BuildSnippet(r.content, hits[0].start, hits[0].end, window);
        Some(SearchResult(r.docId, r.title, r.thumbnailUrl, r.pageOrSlide, Highlight(snippet, query), hits))
  }

  /** The results for the records filed under `keys`, in the order of `keys`. */
  function SearchOver(docs: Docs, keys: seq<string>, query: string, window: nat): seq<SearchResult>
    requires forall id :: id in keys ==> id in docs
  {
    if keys == [] then []
    else
      var rest := SearchOver(docs, keys[..|keys| - 1], query, window);
      match Candidate(docs[keys[|keys| - 1]], query, window)
      case None => rest
      case Some(res) => rest + [res]
  }

  /** The list `search(query)` returns. */
  function SearchResults(docs: Docs, order: seq<string>, query: string, window: nat): seq<SearchResult>
    requires forall id :: id in order ==> id in docs
  {
    if query == [] then [] else SearchOver(docs, order, query, window)
  }

  /** Every key names a record filed under that id. */
  ghost predicate Keyed(docs: Docs, keys: seq<string>)
  {
    forall id :: id in keys ==> id in docs && docs[id].docId == id
  }

  /** One step of the walk: the last key adds its record's result, if any,
      behind the results of the keys before it. */
  lemma SearchOverStep(docs: Docs, keys: seq<string>, query: string, window: nat)
    requires forall id :: id in keys ==> id in docs
    requires keys != []
    ensures var rest := SearchOver(docs, keys[..|keys| - 1], query, window);
      var results := SearchOver(docs, keys, query, window);
      var c := Candidate(docs[keys[|keys| - 1]], query, window);
      && |rest| <= |results| <= |rest| + 1
      && results[..|rest|] == rest
      && (c.None? ==> results == rest)
      && (c.Some? ==> results == rest + [c.value])
  {
  }

  /** A record gives a result exactly when it is neither deleted nor
      excluded and the query occurs in its content; the result carries the
      record's id, title, thumbnail and page, all the hits, and the
      highlighted excerpt around the first hit. */
  lemma CandidateFacts(r: DocumentRecord, query: string, window: nat)
    ensures Candidate(r, query, window).Some? <==> Visible(r) && Hits(r.content, query) != []
    ensures Candidate(r, query, window).Some? ==>
      var res := Candidate(r, query, window).value;
      var hits := Hits(r.content, query);
      && res.docId == r.docId && res.title == r.title
      && res.thumbnailUrl == r.thumbnailUrl && res.pageOrSlide == r.pageOrSlide
      && res.hitPositions == hits
      && hits[0].start <= hits[0].end <= |r.content|
      && res.snippet == Highlight(BuildSnippet(r.content, hits[0].start, hits[0].end, window), query)
  {
  }

  /** Every result comes from a key, and is the result of the record filed
      under its id. */
  lemma {:induction false} SearchOverSound(docs: Docs, keys: seq<string>, query: string, window: nat)
    requires Keyed(docs, keys)
    ensures var results := SearchOver(docs, keys, query, window);
      forall i :: 0 <= i < |results| ==>
        results[i].docId in keys && Candidate(docs[results[i].docId], query, window) == Some(results[i])
    decreases |keys|
  {
    if keys != [] {
      var init := keys[..|keys| - 1];
      assert Keyed(docs, init) by {
        forall id | id in init ensures id in keys {
          var a :| 0 <= a < |init| && init[a] == id;
          assert keys[a] == id;
        }
      }
      SearchOverSound(docs, init, query, window);
      SearchOverStep(docs, keys, query, window);
      var k := keys[|keys| - 1];
      CandidateFacts(docs[k], query, window);
      var rest := SearchOver(docs, init, query, window);
      var results := SearchOver(docs, keys, query, window);
      forall i | 0 <= i < |results|
        ensures results[i].docId in keys && Candidate(docs[results[i].docId], query, window) == Some(results[i])
      {
        if i < |rest| {
          assert results[i] == rest[i];
          var a :| 0 <= a < |init| && init[a] == rest[i].docId;
          assert keys[a] == init[a];
        } else {
          assert results[i].docId == k;
        }
      }
    }
  }

  /** Every key whose record gives a result has its result in the list. */
  lemma {:induction false} SearchOverComplete(docs: Docs, keys: seq<string>, query: string, window: nat, id: string)
    requires forall k :: k in keys ==> k in docs
    requires id in keys && Candidate(docs[id], query, window).Some?
    ensures var results := SearchOver(docs, keys, query, window);
      exists i :: 0 <= i < |results| && results[i] == Candidate(docs[id], query, window).value
    decreases |keys|
  {
    var init := keys[..|keys| - 1];
    var results := SearchOver(docs, keys, query, window);
    var rest := SearchOver(docs, init, query, window);
    SearchOverStep(docs, keys, query, window);
    if keys[|keys| - 1] == id {
      assert results[|results| - 1] == Candidate(docs[id], query, window).value;
    } else {
      InFront(keys, id);
      assert forall k :: k in init ==> k in keys;
      SearchOverComplete(docs, init, query, window, id);
      var i :| 0 <= i < |rest| && rest[i] == Candidate(docs[id], query, window).value;
      assert results[i] == rest[i];
    }
  }

  /** Each result of a search is the result of the record filed under its
      id. */
  lemma SearchSound(docs: Docs, order: seq<string>, query: string, window: nat)
    requires StoreInvariant(docs, order)
    ensures var results := SearchResults(docs, order, query, window);
      forall i :: 0 <= i < |results| ==>
        results[i].docId in docs && Candidate(docs[results[i].docId], query, window) == Some(results[i])
  {
    if query != [] {
      assert Keyed(docs, order);
      SearchOverSound(docs, order, query, window);
      var results := SearchOver(docs, order, query, window);
      assert SearchResults(docs, order, query, window) == results;
      forall i | 0 <= i < |results|
        ensures results[i].docId in docs && Candidate(docs[results[i].docId], query, window) == Some(results[i])
      {
        assert SearchOver(docs, order, query, window)[i].docId in order;
        assert results[i].docId in order;
      }
    }
  }

  /** A search finds the document `id` exactly when the query is not empty,
      the document is stored, neither deleted nor excluded, and the query
      occurs in its content. */
  lemma SearchFindsId(docs: Docs, order: seq<string>, query: string, window: nat, id: string)
    requires StoreInvariant(docs, order)
    ensures var results := SearchResults(docs, order, query, window);
      (exists i :: 0 <= i < |results| && results[i].docId == id) <==>
        query != [] && id in docs && Visible(docs[id]) && Hits(docs[id].content, query) != []
  {
    var results := SearchResults(docs, order, query, window);
    SearchSound(docs, order, query, window);
    if i :| 0 <= i < |results| && results[i].docId == id {
      CandidateFacts(docs[id], query, window);
    }
    if query != [] && id in docs && Visible(docs[id]) && Hits(docs[id].content, query) != [] {
      CandidateFacts(docs[id], query, window);
      SearchOverComplete(docs, order, query, window, id);
    }
  }

  /** A search finds a document exactly when the query is not empty, the
      document is stored, neither deleted nor excluded, and the query occurs
      in its content; each result is that document's result. */
  lemma SearchFinds(docs: Docs, order: seq<string>, query: string, window: nat)
    requires StoreInvariant(docs, order)
    ensures var results := SearchResults(docs, order, query, window);
      && (forall id :: (exists i :: 0 <= i < |results| && results[i].docId == id) <==>
            query != [] && id in docs && Visible(docs[id]) && Hits(docs[id].content, query) != [])
      && (forall i :: 0 <= i < |results| ==>
            results[i].docId in docs && Candidate(docs[results[i].docId], query, window) == Some(results[i]))
  {
    SearchSound(docs, order, query, window);
    forall id
      ensures var results := SearchResults(docs, order, query, window);
        (exists i :: 0 <= i < |results| && results[i].docId == id) <==>
          query != [] && id in docs && Visible(docs[id]) && Hits(docs[id].content, query) != []
    {
      SearchFindsId(docs, order, query, window, id);
    }
  }

  /** Results come in the order of `keys`: for any two results, the key of
      the earlier one stands before the key of the later one. */
  ghost predicate InKeyOrder(results: seq<SearchResult>, keys: seq<string>)
  {
    forall i, j :: 0 <= i < j < |results| ==> Before(keys, results[i].docId, results[j].docId)
  }

  /** Order among results survives adding a key at the end. */
  lemma InKeyOrderExtend(results: seq<SearchResult>, keys: seq<string>, k: string)
    requires InKeyOrder(results, keys)
    ensures InKeyOrder(results, keys + [k])
  {
    forall i, j | 0 <= i < j < |results|
      ensures Before(keys + [k], results[i].docId, results[j].docId)
    {
      BeforeExtend(keys, k, results[i].docId, results[j].docId);
    }
  }

  /** A result for the new last key comes after every earlier result. */
  lemma InKeyOrderAppend(results: seq<SearchResult>, keys: seq<string>, res: SearchResult)
    requires InKeyOrder(results, keys)
    requires forall i :: 0 <= i < |results| ==> results[i].docId in keys
    ensures InKeyOrder(results + [res], keys + [res.docId])
  {
    var keys' := keys + [res.docId];
    var results' := results + [res];
    InKeyOrderExtend(results, keys, res.docId);
    forall i, j | 0 <= i < j < |results'|
      ensures Before(keys', results'[i].docId, results'[j].docId)
    {
      assert results'[i] == results[i];
      if j == |results| {
        assert results[i].docId in keys;
        var a :| 0 <= a < |keys| && keys[a] == results[i].docId;
        assert keys'[a] == results'[i].docId && keys'[|keys|] == results'[j].docId;
      } else {
        assert results'[j] == results[j];
      }
    }
  }

  /** `search` walks the dictionary in its iteration order. */
  lemma {:induction false} SearchOverInKeyOrder(docs: Docs, keys: seq<string>, query: string, window: nat)
    requires Keyed(docs, keys)
    ensures InKeyOrder(SearchOver(docs, keys, query, window), keys)
    decreases |keys|
  {
    if keys != [] {
      var last := |keys| - 1;
      var init := keys[..last];
      assert keys == init + [keys[last]];
      assert Keyed(docs, init) by {
        forall id | id in init ensures id in keys {
          var a :| 0 <= a < |init| && init[a] == id;
          assert keys[a] == id;
        }
      }
      SearchOverInKeyOrder(docs, init, query, window);
      SearchOverSound(docs, init, query, window);
      SearchOverStep(docs, keys, query, window);
      var rest := SearchOver(docs, init, query, window);
      var c := Candidate(docs[keys[last]], query, window);
      if c.Some? {
        CandidateFacts(docs[keys[last]], query, window);
        InKeyOrderAppend(rest, init, c.value);
      } else {
        InKeyOrderExtend(rest, init, keys[last]);
      }
    }
  }

  /** The results of a search follow the store's iteration order, so no
      document appears twice. */
  lemma SearchInStoreOrder(docs: Docs, order: seq<string>, query: string, window: nat)
    requires StoreInvariant(docs, order)
    ensures InKeyOrder(SearchResults(docs, order, query, window), order)
    ensures var results := SearchResults(docs, order, query, window);
      forall i, j :: 0 <= i < j < |results| ==> results[i].docId != results[j].docId
  {
    if query != [] {
      assert Keyed(docs, order);
      SearchOverInKeyOrder(docs, order, query, window);
      var results := SearchResults(docs, order, query, window);
      forall i, j | 0 <= i < j < |results|
        ensures results[i].docId != results[j].docId
      {
        assert Before(order, results[i].docId, results[j].docId);
      }
    }
  }

  /** `results` without the entries for `docId`. */
  function WithoutId(results: seq<SearchResult>, docId: string): seq<SearchResult>
  {
    if results == [] then []
    else
      var rest := WithoutId(results[..|results| - 1], docId);
      if results[|results| - 1].docId == docId then rest else rest + [results[|results| - 1]]
  }

  /** Changing one record to one that gives no result drops that record's
      entry from the results and leaves every other entry as it was. */
  lemma {:induction false} SearchOverWithout(docs: Docs, docs': Docs, keys: seq<string>, query: string,
                                             window: nat, docId: string)
    requires Keyed(docs, keys) && docs'.Keys == docs.Keys
    requires forall id :: id in docs && id != docId ==> docs'[id] == docs[id]
    requires docId in docs ==> Candidate(docs'[docId], query, window).None?
    ensures SearchOver(docs', keys, query, window) == WithoutId(SearchOver(docs, keys, query, window), docId)
    decreases |keys|
  {
    if keys != [] {
      var init := keys[..|keys| - 1];
      var k := keys[|keys| - 1];
      assert Keyed(docs, init) by {
        forall id | id in init ensures id in keys {
          var a :| 0 <= a < |init| && init[a] == id;
          assert keys[a] == id;
        }
      }
      SearchOverWithout(docs, docs', init, query, window, docId);
      var rest := SearchOver(docs, init, query, window);
      CandidateFacts(docs[k], query, window);
      var results := SearchOver(docs, keys, query, window);
      if Candidate(docs[k], query, window).Some? {
        assert results[..|results| - 1] == rest;
      }
    }
  }

  /** An admin exclude hides the document from every search and changes no
      other document's result. */
  lemma ExcludeHidesFromSearch(docs: Docs, order: seq<string>, docId: string, actor: string,
                               now: Timestamp, query: string, window: nat)
    requires StoreInvariant(docs, order)
    ensures var docs' := ExcludeStep(docs, docId, actor, true, now).1;
      StoreInvariant(docs', order) &&
      SearchResults(docs', order, query, window) == WithoutId(SearchResults(docs, order, query, window), docId)
  {
    if docId in docs {
      AdminExcludeChangesOnlyExclusion(docs, order, docId, actor, now);
    }
    var docs' := ExcludeStep(docs, docId, actor, true, now).1;
    if query != [] {
      SearchOverWithout(docs, docs', order, query, window, docId);
    }
  }

  /** `WithoutId` removes every entry for the id and keeps the rest. */
  lemma {:induction false} WithoutIdDrops(results: seq<SearchResult>, docId: string)
    ensures forall i :: 0 <= i < |WithoutId(results, docId)| ==> WithoutId(results, docId)[i].docId != docId
    ensures forall r :: r in WithoutId(results, docId) <==> r in results && r.docId != docId
    decreases |results|
  {
    if results != [] {
      WithoutIdDrops(results[..|results| - 1], docId);
      SplitLast(results);
    }
  }

  /** Including a document excluded a moment before gives every search the
      results it had before, when the document was absent or not excluded
      then. */
  lemma IncludeRestoresSearch(docs: Docs, order: seq<string>, docId: string, actor: string,
                              now: Timestamp, query: string, window: nat)
    requires StoreInvariant(docs, order) && (docId !in docs || !docs[docId].isExcluded)
    ensures var docs' := IncludeStep(ExcludeStep(docs, docId, actor, true, now).1, docId, true).1;
      SearchResults(docs', order, query, window) == SearchResults(docs, order, query, window)
  {
    IncludeAfterExclude(docs, order, docId, actor, now);
  }

  /** Re-adding an excluded document with new content keeps it out of
      every search. */
  lemma UpsertKeepsExcludedHidden(docs: Docs, order: seq<string>, docId: string, title: string, content: string,
                                  thumbnailUrl: string, source: string, pageOrSlide: string, isDeleted: bool,
                                  query: string, window: nat)
    requires StoreInvariant(docs, order) && docId in docs && docs[docId].isExcluded
    ensures var docs' := UpsertDocs(docs, docId, title, content, thumbnailUrl, source, pageOrSlide, isDeleted);
      var order' := UpsertOrder(docs, order, docId);
      StoreInvariant(docs', order') &&
      forall r :: r in SearchResults(docs', order', query, window) ==> r.docId != docId
  {
    UpsertEffect(docs, order, docId, title, content, thumbnailUrl, source, pageOrSlide, isDeleted);
    var docs' := UpsertDocs(docs, docId, title, content, thumbnailUrl, source, pageOrSlide, isDeleted);
    var order' := UpsertOrder(docs, order, docId);
    SearchFinds(docs', order', query, window);
  }

  /** A text whose first match of the query is at `p` has its first hit
      there. */
  lemma FirstHitAt(text: string, query: string, p: nat)
    requires query != [] && MatchesAt(text, query, p)
    requires forall p': nat :: p' < p ==> !MatchesAt(text, query, p')
    ensures Hits(text, query) != [] && Hits(text, query)[0] == Span(p, p + |query|)
  {
    NoHitsIffNoMatch(text, query);
    FirstHitIsLeftmost(text, query);
    HitSpans(text, query);
  }

  /** A query that does not start with `.` does not match where the text
      has a `.`. */
  lemma NoMatchAtDot(text: string, query: string, p: nat)
    requires query != [] && query[0] != '.' && p < |text| && text[p] == '.'
    ensures !MatchesAt(text, query, p)
  {
    if p + |query| <= |text| {
      var w := text[p..p + |query|];
      assert w[0] == '.';
      assert FoldAll(w)[0] == '.';
      assert FoldAll(query)[0] == Fold(query[0]) != '.';
    }
  }

  /** Where `text` copies `content` from `at` on, a match of `text` lying
      inside the copy is a match of `content`. */
  lemma MatchInCopy(content: string, text: string, query: string, at: nat, from: nat, len: nat, p: nat)
    requires at + len <= |text| && from + len <= |content|
    requires text[at..at + len] == content[from..from + len]
    requires at <= p && p + |query| <= at + len
    ensures MatchesAt(text, query, p) ==> MatchesAt(content, query, from + (p - at))
  {
    var q := from + (p - at);
    forall j | p <= j < p + |query|
      ensures text[j] == content[j - p + q]
    {
      assert text[j] == text[at..at + len][j - at];
      assert content[j - p + q] == content[from..from + len][j - at];
    }
    assert text[p..p + |query|] == content[q..q + |query|];
  }

  /** A text that copies the content around its first match, behind a run
      of `.` that the query cannot start a match in, has its first match at
      the copied place. */
  lemma FirstHitOfCopy(content: string, text: string, query: string, pre: nat, left: nat, start: nat, at: nat)
    requires query != [] && MatchesAt(content, query, start)
    requires forall p: nat :: p < start ==> !MatchesAt(content, query, p)
    requires left <= start && pre + (start + |query| - left) <= |text|
    requires text[pre..pre + (start + |query| - left)] == content[left..start + |query|]
    requires forall p :: 0 <= p < pre ==> text[p] == '.'
    requires pre > 0 ==> query[0] != '.'
    requires at == pre + (start - left)
    ensures Hits(text, query) != [] && Hits(text, query)[0] == Span(at, at + |query|)
  {
    var len := start + |query| - left;
    MatchInCopy(content, text, query, pre, left, len, at);
    assert text[at..at + |query|] == content[start..start + |query|] by {
      assert text[at..at + |query|] == text[pre..pre + len][start - left..];
      assert content[start..start + |query|] == content[left..start + |query|][start - left..];
    }
    forall p: nat | p < at
      ensures !MatchesAt(text, query, p)
    {
      if p < pre {
        NoMatchAtDot(text, query, p);
      } else {
        MatchInCopy(content, text, query, pre, left, len, p);
      }
    }
    FirstHitAt(text, query, at);
  }

  /** The first hit of the snippet is the document's first hit, shifted by
      the leading marker and the context cut away before it, provided the
      excerpt is not cut before the hit or the query does not start with
      the marker's character `.`. */
  lemma SnippetFirstHit(content: string, query: string, window: nat)
    requires query != [] && Hits(content, query) != []
    requires Hits(content, query)[0].start > window ==> query[0] != '.'
    ensures var h := Hits(content, query)[0];
      h.start <= h.end <= |content| &&
      var snippet := BuildSnippet(content, h.start, h.end, window);
      var at := if h.start > window then |Ellipsis| + window else h.start;
      at + |query| <= |snippet| && snippet[at..at + |query|] == content[h.start..h.end] &&
      Hits(snippet, query) != [] && Hits(snippet, query)[0] == Span(at, at + |query|)
  {
    HitSpans(content, query);
    FirstHitIsLeftmost(content, query);
    var h := Hits(content, query)[0];
    assert h.start < h.end <= |content| && h.end == h.start + |query|;
    SnippetContainsHit(content, h.start, h.end, window);
    LeftmostInSnippet(content, query, h.start, window);
  }

  /** The leftmost match of the content, copied into its snippet, is the
      snippet's leftmost match, unless the query can start on the leading
      marker. */
  lemma LeftmostInSnippet(content: string, query: string, start: nat, window: nat)
    requires query != [] && MatchesAt(content, query, start)
    requires forall p: nat :: p < start ==> !MatchesAt(content, query, p)
    requires start > window ==> query[0] != '.'
    ensures var snippet := BuildSnippet(content, start, start + |query|, window);
      var at := if start > window then |Ellipsis| + window else start;
      Hits(snippet, query) != [] && Hits(snippet, query)[0] == Span(at, at + |query|)
  {
    var end := start + |query|;
    var snippet := BuildSnippet(content, start, end, window);
    SnippetLeadingMarker(content, start, end, window);
    if start > window {
      forall p | 0 <= p < |Ellipsis| ensures snippet[p] == '.' {
        assert snippet[p] == snippet[..|Ellipsis|][p];
      }
      FirstHitOfCopy(content, snippet, query, |Ellipsis|, start - window, start, |Ellipsis| + window);
    } else {
      assert snippet[0..end] == snippet[..end];
      assert content[0..end] == content[..end];
      FirstHitOfCopy(content, snippet, query, 0, 0, start, start);
    }
  }

  /** The highlighted snippet brackets the document's first hit, with the
      hit's text between the brackets as it stands in the content, under the
      condition of `SnippetFirstHit`. */
  lemma SnippetHighlightsFirstHit(content: string, query: string, window: nat)
    requires query != [] && Hits(content, query) != []
    requires Hits(content, query)[0].start > window ==> query[0] != '.'
    ensures var h := Hits(content, query)[0];
      h.start <= h.end <= |content| &&
      var snippet := BuildSnippet(content, h.start, h.end, window);
      var at := if h.start > window then |Ellipsis| + window else h.start;
      at + |query| <= |snippet| &&
      MarkedAt(snippet, Highlight(snippet, query), Span(at, at + |query|), at) &&
      snippet[at..at + |query|] == content[h.start..h.end]
  {
    SnippetFirstHit(content, query, window);
    var h := Hits(content, query)[0];
    var snippet := BuildSnippet(content, h.start, h.end, window);
    HighlightMarksHits(snippet, query);
    assert 0 < |Hits(snippet, query)|;
  }
}
