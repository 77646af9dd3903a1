# In-memory document search with an exclusion workflow

This project models `InMemorySearchService` and `DocumentRecord` from
`src/prototype_search.py` in Dafny, and proves properties of the model.

The service keeps a dictionary of document records. It offers five operations:

- **Upsert** adds or replaces a record. The replacement keeps the old record's exclusion state.
- **Exclude** is admin-only. It marks a record as hidden from search and stamps it with the time and the actor.
- **Include** is admin-only. It clears that mark.
- **List exclusions** is admin-only. It returns the excluded records, newest exclusion first.
- **Search** returns nothing for an empty query. Otherwise it returns one result per visible record whose content holds the query. It matches literally and case-insensitively. Each result carries every hit position and a snippet around the first hit, with each match of a leftmost-first, non-overlapping scan of the snippet wrapped in `[` `]`.

Modules:

- `HitScan` (`hit_scan.dfy`) is the scan behind `_find_hit_positions`. The escaped query is run through `finditer`: leftmost first, no overlaps, resuming at the end of each match. `LeftmostScan` is an independent description of that scan. The scan is proved to be the only list of spans that meets it.
- `Highlighting` (`highlight.dfy`) is `_highlight`, the `re.sub` that brackets every hit of the scan. `Unbracket` is its inverse.
- `Snippets` (`snippet.dfy`) is `_build_snippet`.
- `Outcomes` and `Records` (`records.dfy`) hold the record and the errors the service raises. `PermissionError` becomes `PermissionDenied` and `KeyError` becomes `NotFound`. Both are values of `Outcome` or `Result`.
- `Store` (`store.dfy`) holds the dictionary changes as functions of the old dictionary. Exclude and include each check the admin flag before the lookup, as the source does. Upsert takes no admin flag.
- `ExcludedListing` (`excluded_list.dfy`) is `list_excluded_documents`. The stable descending `sort` is written as an insertion sort.
- `SearchSpec` (`search_spec.dfy`) is `search` as a function of the dictionary and its iteration order.
- `Service` (`service.dfy`) is the class `InMemorySearchService`.
  - Its fields are `docs` (the dictionary), `order` (the dictionary's insertion order, which Python's `dict` iterates in) and `snippetWindow`.
  - `AddOrUpdateDocument`, `ExcludeDocument` and `IncludeDocument` update `docs` (and, for a new id, `order`) in place. `ListExcludedDocuments` and `Search` change nothing. Each method is proved against the matching function above.
  - `Search` walks `order` in a loop whose invariant ties it to `SearchSpec.SearchOver`.
- `Scenarios` (`scenarios.dfy`) holds concrete scenarios:
  - the sample document of `tests/test_prototype_search.py`;
  - one input where the snippet's leading `...` marker takes part in a highlighted match (`MarkerSwallowsHit`);
  - one input where the snippet is cut before the hit and the query starts with `.`, yet the marker takes no part in a match (`MarkerLeavesHit`).

Three details of the code shape the model:

- Search results carry no `source` field: the result dictionary holds the id, title, thumbnail, page, snippet and hit positions only (src/prototype_search.py:107-116).
- The snippet gets a leading `...` exactly when `left > 0`, that is when `start` is greater than the window (src/prototype_search.py:125-127).
- Highlighting re-runs the scan over the whole snippet, ellipsis markers included (src/prototype_search.py:105-106, 131-133). So a query that starts with `.` can match across a marker. `Scenarios.MarkerSwallowsHit` shows that such a match can swallow the document's real first hit.

## Model

| member | source | states |
|---|---|---|
| HitScan.MatchesAtChars | src/prototype_search.py:120-122 | the escaped pattern matches at `p` exactly when the query fits there and every character agrees with the text's up to case folding |
| HitScan.Hits | src/prototype_search.py:120-122 | no contract of its own: `_find_hit_positions`, the scan from offset 0; `HitsCharacterized`, `HitSpans`, `NoHitsIffNoMatch` and `FirstHitIsLeftmost` state its properties |
| HitScan.HitsFrom | src/prototype_search.py:120-122 | every span the scan returns lies at or after where it started, has the query's length, ends inside the text, and the spans ascend without overlap |
| HitScan.HitsFromAreMatches | src/prototype_search.py:120-122 | every span the scan returns is a case-insensitive literal match of the query |
| HitScan.HitsFromCoverMatches | src/prototype_search.py:120-122 | every match at or after the scan's start begins a returned span or lies inside one (only overlapping matches are skipped) |
| HitScan.LeftmostScanIsUnique | src/prototype_search.py:120-122 | at most one list of spans is a leftmost-first, non-overlapping scan from a given offset, and it is the scan's own |
| HitScan.HitsCharacterized | src/prototype_search.py:120-122 | a list of spans is `_find_hit_positions(content, query)` if and only if it satisfies the reference description `LeftmostScan` |
| HitScan.HitSpans | src/prototype_search.py:120-122 | for a non-empty query each hit is a non-empty half-open span inside the content, as long as the query, where the query matches; the hits ascend without overlap |
| HitScan.NoHitsIffNoMatch | src/prototype_search.py:100-102 | the hit list is empty exactly when the query occurs nowhere in the content (the condition under which `search` skips a record) |
| HitScan.FirstHitIsLeftmost | src/prototype_search.py:104 | the first hit, the one the snippet is built around, is the leftmost occurrence of the query |
| Highlighting.Bracket | src/prototype_search.py:131-133 | the substitution output is the input plus two characters per replaced span |
| Highlighting.UnbracketBracket | src/prototype_search.py:131-133 | removing the two inserted characters around every replaced span gives back the text from the given offset |
| Highlighting.BracketMarks | src/prototype_search.py:131-133 | the k-th replaced span appears with `[` at its start shifted by `2k` and `]` right after its unchanged text |
| Highlighting.Highlight | src/prototype_search.py:131-133 | no contract of its own: `_highlight`, the brackets put around the scan's hits; `HighlightRoundTrip`, `HighlightMarksHits` and `HighlightWithoutHits` state its properties |
| Highlighting.HighlightRoundTrip | src/prototype_search.py:131-133 | `_highlight` adds exactly two characters per hit, and taking them out returns its input |
| Highlighting.HighlightMarksHits | src/prototype_search.py:131-133 | `_highlight` puts `[` before and `]` after every hit of the scan over its input, the matched text keeping its original case |
| Highlighting.HighlightWithoutHits | src/prototype_search.py:131-133 | text without an occurrence of the query is returned unchanged |
| Snippets.SnippetBounds | src/prototype_search.py:125-126 | the excerpt bounds contain the hit, stay within the content, take at most `window` characters of context per side, and take exactly `window` on a side that is cut |
| Snippets.BuildSnippet | src/prototype_search.py:124-129 | no contract of its own: `_build_snippet`; `SnippetLength`, `SnippetContainsHit`, `SnippetLeadingMarker` and `SnippetTrailingMarker` state its properties |
| Snippets.SnippetLength | src/prototype_search.py:124-129 | the snippet is at least as long as the hit and at most `2*window + (end - start) + 6` characters |
| Snippets.SnippetContainsHit | src/prototype_search.py:124-129 | the hit's text stands in the snippet right after the leading marker (if any) and the context before it |
| Snippets.SnippetLeadingMarker | src/prototype_search.py:125-129 | the snippet starts with `...` followed by the `window` characters before the hit exactly when `start > window`, and otherwise starts with the content itself |
| Snippets.SnippetTrailingMarker | src/prototype_search.py:126-129 | the snippet ends with `...` preceded by the `window` characters after the hit exactly when `end + window < len(content)`, and otherwise ends with the content's tail |
| Records.Upserted | src/prototype_search.py:44-59 | the stored record carries the replaced record's three exclusion fields, or none for a new id, and keeps them consistent |
| Records.Excluded | src/prototype_search.py:64-66 | no contract of its own: what exclude does to the record; `Records.ExcludeChanges` states it |
| Records.ExcludeChanges | src/prototype_search.py:64-66 | exclude sets `isExcluded` to `True`, `excludedAt` to `now` and `excludedBy` to the actor, touches no other field, keeps the three consistent and hides the record |
| Records.Included | src/prototype_search.py:71-73 | no contract of its own: what include does to the record; `Records.IncludeChanges` states it |
| Records.IncludeChanges | src/prototype_search.py:71-73 | include sets `isExcluded` to `False` and `excludedAt` and `excludedBy` to `None`, touches no other field, and makes the record visible unless it is deleted |
| Records.IncludeUndoesExclude | src/prototype_search.py:61-73 | including a record just excluded from a non-excluded state gives back the original record |
| Store.RequireAdmin | src/prototype_search.py:140-143 | the call proceeds exactly when the caller is an admin, and otherwise fails with `PermissionDenied` |
| Store.RequireDoc | src/prototype_search.py:135-138 | the lookup succeeds with the stored record exactly when the id is present, and otherwise fails with `NotFound(docId)` |
| Store.UpsertDocs | src/prototype_search.py:44-59 | no contract of its own: the dictionary after an upsert; `Store.UpsertEffect` states it |
| Store.UpsertOrder | src/prototype_search.py:48 | no contract of its own: the dictionary's iteration order after an upsert, a new key last; `Store.UpsertEffect` states that the invariant holds with it |
| Store.ExcludeStep | src/prototype_search.py:61-66 | no contract of its own: the outcome and dictionary of `exclude_document`; `Store.NonAdminIsRefused`, `Store.AbsentIdIsNotFound` and `Store.AdminExcludeChangesOnlyExclusion` state them |
| Store.IncludeStep | src/prototype_search.py:68-73 | no contract of its own: the outcome and dictionary of `include_document`; `Store.NonAdminIsRefused`, `Store.AbsentIdIsNotFound` and `Store.AdminIncludeChangesOnlyExclusion` state them |
| Store.UpsertEffect | src/prototype_search.py:44-59 | upsert stores the supplied fields under the id, carries over the previous exclusion state (cleared for a new id), leaves every other entry alone and keeps the store invariant |
| Store.NonAdminIsRefused | src/prototype_search.py:61-73 | without the admin flag, exclude and include fail with `PermissionDenied` before the lookup, even for an absent id, and change nothing |
| Store.AbsentIdIsNotFound | src/prototype_search.py:61-73 | an admin exclude or include of an absent id fails with `NotFound` and changes nothing |
| Store.AdminExcludeChangesOnlyExclusion | src/prototype_search.py:61-66 | an admin exclude of a present id succeeds, sets that record's exclusion fields to `True`, `now` and the actor, changes nothing else and keeps the invariant |
| Store.AdminIncludeChangesOnlyExclusion | src/prototype_search.py:68-73 | an admin include of a present id succeeds, clears that record's exclusion fields, changes nothing else and keeps the invariant |
| Store.ExcludeIncludeIdempotent | src/prototype_search.py:61-73 | excluding twice equals excluding once with the later time and actor; including twice equals including once |
| Store.IncludeAfterExclude | src/prototype_search.py:61-73 | include after exclude equals include alone, and gives back the store it started from exactly when the id is absent or its record was not excluded before |
| ExcludedListing.Row | src/prototype_search.py:79-89 | no contract of its own: the row for one record (the timestamp kept as a value); `ListExcludedRows` states that every row projects its record |
| ExcludedListing.SortKey | src/prototype_search.py:78 | no contract of its own: the sort key, the exclusion time or tick 0 for `datetime.min` |
| ExcludedListing.ExcludedAmong | src/prototype_search.py:77 | no contract of its own: the excluded records in dictionary order; `ExcludedAmongMembers`, `ExcludedAmongDistinct` and `ExcludedAmongInOrder` state its properties |
| ExcludedListing.NewestFirst | src/prototype_search.py:78 | no contract of its own: the stable descending sort as an insertion sort; `NewestFirstSortsAndPermutes`, `NewestFirstIsStable`, `NewestFirstTies` and `NewestFirstNoRepeats` state its properties |
| ExcludedListing.ListExcluded | src/prototype_search.py:75-89 | no contract of its own: the listing; `ListExcludedRows` states it |
| ExcludedListing.InsertByKeySorted | src/prototype_search.py:78 | inserting a record into a newest-first sequence keeps it newest first |
| ExcludedListing.InsertByKeyPermutes | src/prototype_search.py:78 | inserting adds exactly the one record |
| ExcludedListing.NewestFirstSortsAndPermutes | src/prototype_search.py:78 | the sort returns a permutation of its input, ordered by descending exclusion time with a missing time counted as `datetime.min` |
| ExcludedListing.NewestFirstIsStable | src/prototype_search.py:78 | the sort is stable: records with equal keys keep their relative order |
| ExcludedListing.ExcludedAmongMembers | src/prototype_search.py:77 | the filtered list holds exactly the excluded records of the dictionary |
| ExcludedListing.ExcludedAmongDistinct | src/prototype_search.py:77 | walking distinct keys, each naming a record filed under it, yields excluded records with pairwise distinct ids, all among the keys |
| ExcludedListing.ExcludedAmongInOrder | src/prototype_search.py:77 | the filtered records come in the order of the keys they are filed under |
| ExcludedListing.InsertByKeyTies | src/prototype_search.py:78 | inserting a record after every record with its key whose id stands before its own keeps records with equal keys in key order |
| ExcludedListing.NewestFirstTies | src/prototype_search.py:78 | sorting records given in key order leaves records with equal sort keys in key order |
| ExcludedListing.NewestFirstNoRepeats | src/prototype_search.py:78 | sorting a list in which no record occurs twice yields a list in which no record occurs twice |
| ExcludedListing.ListExcludedRows | src/prototype_search.py:75-89 | non-admins get `PermissionDenied`; an admin gets a row for every excluded record and for no other id, no id twice, each row projecting its record, newest exclusion first, and rows with the same exclusion time in the order their ids were first stored |
| SearchSpec.Candidate | src/prototype_search.py:96-116 | no contract of its own: the result one record gives, if any; `SearchSpec.CandidateFacts` states it |
| SearchSpec.SearchOver | src/prototype_search.py:95-117 | no contract of its own: the loop over the dictionary's keys; `SearchOverSound` and `SearchOverComplete` state it |
| SearchSpec.SearchResults | src/prototype_search.py:91-118 | no contract of its own: `search`; `SearchFinds` and `SearchInStoreOrder` state its properties |
| SearchSpec.CandidateFacts | src/prototype_search.py:96-116 | a record gives a result exactly when it is not deleted, not excluded and has a hit; the result copies id, title, thumbnail and page, lists all hits and highlights the snippet around the first one |
| SearchSpec.SearchOverSound | src/prototype_search.py:96-117 | every result comes from a walked key and is the result of the record stored under its id |
| SearchSpec.SearchOverComplete | src/prototype_search.py:96-117 | every walked record that gives a result has it in the list |
| SearchSpec.SearchFinds | src/prototype_search.py:91-118 | a search finds a document exactly when the query is non-empty and the document is stored, visible and contains the query; each result is that document's result |
| SearchSpec.SearchInStoreOrder | src/prototype_search.py:95-118 | results follow the dictionary's iteration order, so no document appears twice |
| SearchSpec.ExcludeHidesFromSearch | src/prototype_search.py:61-66 | after an admin exclude every search returns its previous results minus the excluded document's entry |
| SearchSpec.WithoutIdDrops | src/prototype_search.py:97-98 | dropping a document's entries removes every entry with its id and keeps all others |
| SearchSpec.IncludeRestoresSearch | src/prototype_search.py:68-73 | for a document that is absent or was not excluded before, including it right after excluding it gives every search its earlier results |
| SearchSpec.UpsertKeepsExcludedHidden | src/prototype_search.py:44-59 | re-adding an excluded document with new content keeps it out of every search |
| SearchSpec.FirstHitAt | src/prototype_search.py:120-122 | a text whose first match is at `p` has its first hit at `p` |
| SearchSpec.SnippetFirstHit | src/prototype_search.py:104-106 | the snippet's first hit is the document's first hit, shifted by the marker and the cut context, when the snippet is not cut before the hit or the query does not start with `.` |
| SearchSpec.LeftmostInSnippet | src/prototype_search.py:104-106 | a leftmost match of the content, copied into the snippet built around it, is the snippet's first hit, at its shifted offset, when the snippet is not cut before it or the query does not start with `.` |
| SearchSpec.SnippetHighlightsFirstHit | src/prototype_search.py:104-106 | under the same condition, the highlighted snippet brackets the document's first hit, with its text unchanged between the brackets |
| Service.InMemorySearchService.constructor | src/prototype_search.py:30-32 | the service starts with an empty dictionary, the given window (default 40) and the invariant |
| Service.InMemorySearchService.AddOrUpdateDocument | src/prototype_search.py:34-59 | the dictionary and its order become those of the upsert; the invariant is kept |
| Service.InMemorySearchService.ExcludeDocument | src/prototype_search.py:61-66 | the outcome and the new dictionary are those of `ExcludeStep` at the clock's reading `now`; the order is unchanged |
| Service.InMemorySearchService.IncludeDocument | src/prototype_search.py:68-73 | the outcome and the new dictionary are those of `IncludeStep`; the order is unchanged |
| Service.InMemorySearchService.ListExcludedDocuments | src/prototype_search.py:75-89 | the method returns the listing whose contents `ListExcludedRows` states, and changes nothing |
| Service.InMemorySearchService.Search | src/prototype_search.py:91-118 | the loop over the dictionary returns the results `SearchFinds` and `SearchInStoreOrder` describe, and changes nothing |
| Scenarios.SampleSetUp | tests/test_prototype_search.py:7-16 | upserting the sample document into an empty service stores exactly the sample record under `doc-1`, first in the iteration order, with the invariant holding |
| Scenarios.SampleHits | tests/test_prototype_search.py:12-23 | "AAA" occurs in the sample content exactly once, at `[8, 11)` |
| Scenarios.SampleSearch | tests/test_prototype_search.py:18-24 | with window 20 the sample search has one result with the sample's thumbnail, hit list `[(8, 11)]` and "[AAA]" in its snippet |
| Scenarios.SampleExcludedIsHidden | tests/test_prototype_search.py:26-30 | after an admin excludes the sample, the search for "AAA" is empty |
| Scenarios.SampleIncludeRestores | tests/test_prototype_search.py:32-37 | after exclude and include, the search has one result again |
| Scenarios.SampleListing | tests/test_prototype_search.py:39-47 | the exclusion listing is refused to non-admins and has the single row `doc-1` for an admin |
| Scenarios.MarkerSwallowsHit | src/prototype_search.py:104-106 | for content `xb.b.b`, query `.b.b` and window 1, the snippet is `...b.b.b`, whose scan matches across the marker at 2 and skips the copy of the real hit at 4, so the highlight is `..[.b.b].b` |
| Scenarios.MarkerLeavesHit | src/prototype_search.py:104-106 | for content `aaaa.z`, query `.z` and window 1, the snippet is `...a.z` and its only hit is the copy of the document's hit at 4, although the snippet is cut before the hit and the query starts with `.` |

## Left out

- The HTTP server in `src/prototype_server.py` is not part of this model. It is a transport layer that calls the service.
- The clock. `exclude_document` reads `datetime.now(timezone.utc)`; the model takes that reading as the parameter `now`. Time is a count of ticks since `datetime.min`, and tick 0 stands for `datetime.min`.
- The `isoformat()` rendering of `excluded_at` in the listing. Rows keep the timestamp value.
- Case folding beyond ASCII. `re.IGNORECASE` on a `str` pattern folds Unicode letters such as `Ä`/`ä` or the Kelvin sign. `HitScan.Fold` folds only `A`–`Z`. The general scan, highlight and search lemmas use only that `Fold` maps one character to one character. `SearchSpec.SnippetFirstHit`, `SearchSpec.SnippetHighlightsFirstHit` and the lemmas they rest on (`SearchSpec.NoMatchAtDot`, `SearchSpec.FirstHitOfCopy`, `SearchSpec.LeftmostInSnippet`) also use that only `.` folds to `.`. The concrete `Scenarios` lemmas use the table itself.
- Negative snippet windows. Python accepts any `int`; the model types the window as `nat`.
- The texts of the exception messages. Errors are modelled by kind, plus the missing id for `KeyError`.
- Object identity. `exclude_document` and `include_document` mutate the record object stored in the dictionary; the model replaces the dictionary entry with the updated record. No reference to a record leaves the service, so the two cannot be told apart from outside.
- Dicts in results. Result and row dictionaries are modelled as the datatypes `SearchResult` and `ExcludedRow`, and `{"start", "end"}` pairs as `Span`.
- SearchSpec.SnippetHighlightsFirstHit: proved under a sufficient condition, that the snippet is not cut before the hit or the query does not start with `.`. Outside that condition the claim can fail, as `Scenarios.MarkerSwallowsHit` shows, though it does not always fail: `Scenarios.MarkerLeavesHit` shows a cut snippet and a query starting with `.` whose first hit is still the shifted real hit.
- SearchSpec.SnippetFirstHit: the same sufficient condition as `SnippetHighlightsFirstHit`, for the same reason.
- Concurrency. Each service call is modelled as one atomic step from the old dictionary to the new one. The service takes no lock, and the threaded HTTP server (src/prototype_server.py:227-230) can interleave calls; the model does not capture such interleavings.
