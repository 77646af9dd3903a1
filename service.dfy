/** `InMemorySearchService`: the document dictionary, the exclusion
    workflow and the search, as a class whose methods update the dictionary
    in place. */
module Service {
  import opened Outcomes
  import opened Records
  import opened Store
  import opened HitScan
  import opened Snippets
  import opened Highlighting
  import opened ExcludedListing
  import opened SearchSpec

  /** The context kept on each side of a snippet's hit unless told otherwise. */
  const DefaultSnippetWindow: nat := 40

  class InMemorySearchService {
    /** `_docs`, keyed by document id. */
    var docs: Docs
    /** The keys of `_docs` in insertion order, the order the dictionary is
        walked in. */
    var order: seq<string>
    /** `_snippet_window`. */
    const snippetWindow: nat

    ghost predicate Valid()
      reads this
    {
      StoreInvariant(docs, order)
    }

    constructor(snippetWindow: nat := DefaultSnippetWindow)
      ensures Valid()
      ensures docs == map[] && order == [] && this.snippetWindow == snippetWindow
    {
      docs := map[];
      order := [];
      this.snippetWindow := snippetWindow;
    }

    /** `add_or_update_document`: stores the record under `docId`, keeping
        the exclusion state of the record it replaces. */
    method AddOrUpdateDocument(docId: string, title: string, content: string, thumbnailUrl: string,
                               source: string, pageOrSlide: string, isDeleted: bool := false)
      requires Valid()
      modifies this
      ensures Valid()
      ensures docs == UpsertDocs(old(docs), docId, title, content, thumbnailUrl, source, pageOrSlide, isDeleted)
      ensures order == UpsertOrder(old(docs), old(order), docId)
    {
      UpsertEffect(docs, order, docId, title, content, thumbnailUrl, source, pageOrSlide, isDeleted);
      var current := if docId in docs then Some(docs[docId]) else None;
      var record := Upserted(current, docId, title, content, thumbnailUrl, source, pageOrSlide, isDeleted);
      if docId !in docs {
        order := order + [docId];
      }
      docs := docs[docId := record];
    }

    /** `exclude_document`: an admin marks the record excluded at `now`
        (the clock's reading) by `actor`. */
    method ExcludeDocument(docId: string, actor: string, isAdmin: bool, now: Timestamp) returns (outcome: Outcome)
      requires Valid()
      modifies this
      ensures Valid()
      ensures (outcome, docs) == ExcludeStep(old(docs), docId, actor, isAdmin, now)
      ensures order == old(order)
    {
      outcome := RequireAdmin(isAdmin);
      if outcome.Failed? {
        return;
      }
      var found := RequireDoc(docs, docId);
      if found.Failure? {
        return Failed(found.error);
      }
      AdminExcludeChangesOnlyExclusion(docs, order, docId, actor, now);
      var doc := found.value;
      doc := doc.(isExcluded := true);
      doc := doc.(excludedAt := Some(now));
      doc := doc.(excludedBy := Some(actor));
      assert doc == Excluded(found.value, now, actor);
      docs := docs[docId := doc];
    }

    /** `include_document`: an admin clears the record's exclusion. */
    method IncludeDocument(docId: string, isAdmin: bool) returns (outcome: Outcome)
      requires Valid()
      modifies this
      ensures Valid()
      ensures (outcome, docs) == IncludeStep(old(docs), docId, isAdmin)
      ensures order == old(order)
    {
      outcome := RequireAdmin(isAdmin);
      if outcome.Failed? {
        return;
      }
      var found := RequireDoc(docs, docId);
      if found.Failure? {
        return Failed(found.error);
      }
      AdminIncludeChangesOnlyExclusion(docs, order, docId);
      var doc := found.value;
      doc := doc.(isExcluded := false);
      doc := doc.(excludedAt := None);
      doc := doc.(excludedBy := None);
      assert doc == Included(found.value);
      docs := docs[docId := doc];
    }

    /** `list_excluded_documents`: the excluded records, newest exclusion
        first, for an admin. */
    method ListExcludedDocuments(isAdmin: bool) returns (result: Result<seq<ExcludedRow>>)
      requires Valid()
      ensures result == ListExcluded(docs, order, isAdmin)
    {
      var admin := RequireAdmin(isAdmin);
      if admin.Failed? {
        return Failure(admin.error);
      }
      var excluded := NewestFirst(ExcludedAmong(docs, order));
      var rows := seq(|excluded|, i requires 0 <= i < |excluded| => Row(excluded[i]));
      return Success(rows);
    }

    /** `search`: walks the dictionary in its order and collects the result
        of every visible record whose content holds the query. */
    method Search(query: string) returns (results: seq<SearchResult>)
      requires Valid()
      ensures results == SearchResults(docs, order, query, snippetWindow)
    {
      if query == [] {
        return [];
      }
      results := [];
      for i := 0 to |order|
        invariant results == SearchOver(docs, order[..i], query, snippetWindow)
      {
        assert order[..i + 1][..i] == order[..i];
        var d := docs[order[i]];
        if d.isDeleted || d.isExcluded {
          continue;
        }
        var hits := Hits(d.content, query);
        if hits == [] {
          continue;
        }
        var snippet := BuildSnippet(d.content, hits[0].start, hits[0].end, snippetWindow);
        var highlighted := Highlight(snippet, query);
        results := results + [SearchResult(d.docId, d.title, d.thumbnailUrl, d.pageOrSlide, highlighted, hits)];
      }
      assert order[..|order|] == order;
    }
  }
}
