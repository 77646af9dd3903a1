/** Concrete scenarios of the service on a store holding the sample document
    `doc-1`, and the one input where the snippet's leading marker takes part
    in a highlighted match. */
module Scenarios {
  import opened Outcomes
  import opened Records
  import opened Store
  import opened HitScan
  import opened Snippets
  import opened Highlighting
  import opened ExcludedListing
  import opened SearchSpec

  const SampleContent: string := "テキストテキストAAAテキスト"

  /** The record `add_or_update_document` stores for the sample document. */
  const SampleRecord: DocumentRecord :=
    DocumentRecord("doc-1", "sample", SampleContent, "/thumb/doc-1/p1.png", "gdrive", "p1",
                   false, false, None, None)

  /** The store after the test's set-up upserts the sample document into
      an empty service. */
  const SampleDocs: Docs :=
    UpsertDocs(map[], "doc-1", "sample", SampleContent, "/thumb/doc-1/p1.png", "gdrive", "p1", false)
  const SampleOrder: seq<string> := UpsertOrder(map[], [], "doc-1")

  /** The set-up stores exactly the sample record, under `doc-1`. */
  lemma SampleSetUp()
    ensures SampleDocs == map["doc-1" := SampleRecord]
    ensures SampleOrder == ["doc-1"]
    ensures StoreInvariant(SampleDocs, SampleOrder)
  {
    UpsertEffect(map[], [], "doc-1", "sample", SampleContent, "/thumb/doc-1/p1.png", "gdrive", "p1", false);
  }

  /** A single span that every match of the query starts is the text's
      list of hits. */
  lemma SingleHit(text: string, query: string, s: nat)
    requires MatchesAt(text, query, s)
    requires forall p: nat :: p != s ==> !MatchesAt(text, query, p)
    ensures Hits(text, query) == [Span(s, s + |query|)]
  {
    var spans := [Span(s, s + |query|)];
    forall p: nat | MatchesAt(text, query, p)
      ensures Covers(spans, p)
    {
      assert spans[0].start == p;
    }
    HitsCharacterized(text, query, spans);
  }

  /** "AAA" occurs once in the sample, at offsets 8 to 11. */
  lemma SampleHits()
    ensures Hits(SampleContent, "AAA") == [Span(8, 11)]
  {
    MatchesAtChars(SampleContent, "AAA", 8);
    forall p: nat | p != 8
      ensures !MatchesAt(SampleContent, "AAA", p)
    {
      MatchesAtChars(SampleContent, "AAA", p);
      if p < 8 || p > 10 {
        if p < |SampleContent| {
          assert Fold(SampleContent[p]) != Fold('A');
        }
      } else {
        assert Fold(SampleContent[11]) != Fold('A');
      }
    }
    SingleHit(SampleContent, "AAA", 8);
  }

  /** With a window of 20 the sample's snippet is the whole content, and
      its highlight has "[AAA]" at offset 8. */
  lemma SampleSnippet()
    ensures var marked := Highlight(BuildSnippet(SampleContent, 8, 11, 20), "AAA");
      |marked| >= 13 && marked[8..13] == "[AAA]"
  {
    SampleHits();
    SnippetHighlightsFirstHit(SampleContent, "AAA", 20);
    var snippet := BuildSnippet(SampleContent, 8, 11, 20);
    MarkedSlice(snippet, Highlight(snippet, "AAA"), Span(8, 11), 8);
    assert SampleContent[8..11] == "AAA";
  }

  /** With a window of 20, searching the sample store for "AAA" returns one
      result: the sample's thumbnail, the hit at 8 to 11, and a snippet in
      which "[AAA]" stands at offset 8. */
  lemma SampleSearch()
    ensures var results := SearchResults(SampleDocs, SampleOrder, "AAA", 20);
      && |results| == 1
      && results[0].docId == "doc-1"
      && results[0].thumbnailUrl == "/thumb/doc-1/p1.png"
      && results[0].hitPositions == [Span(8, 11)]
      && |results[0].snippet| >= 13 && results[0].snippet[8..13] == "[AAA]"
  {
    SampleHits();
    SampleSnippet();
    var r := SampleRecord;
    assert r.content == SampleContent && !r.isDeleted && !r.isExcluded;
    var hits := Hits(r.content, "AAA");
    assert hits == [Span(8, 11)];
    var c := Candidate(r, "AAA", 20);
    assert c == Some(SearchResult("doc-1", "sample", "/thumb/doc-1/p1.png", "p1",
                                  Highlight(BuildSnippet(SampleContent, 8, 11, 20), "AAA"), hits));
    assert SampleOrder[..0] == [];
    assert SearchOver(SampleDocs, SampleOrder, "AAA", 20) == SearchOver(SampleDocs, [], "AAA", 20) + [c.value];
  }

  /** The sample store after an admin excluded `doc-1` at `now`. */
  function SampleExcluded(now: Timestamp): Docs
  {
    ExcludeStep(SampleDocs, "doc-1", "admin-user", true, now).1
  }

  /** After an admin excludes `doc-1`, searching for "AAA" finds nothing. */
  lemma SampleExcludedIsHidden(now: Timestamp)
    ensures SearchResults(SampleExcluded(now), SampleOrder, "AAA", 20) == []
  {
    assert StoreInvariant(SampleDocs, SampleOrder);
    SampleSearch();
    ExcludeHidesFromSearch(SampleDocs, SampleOrder, "doc-1", "admin-user", now, "AAA", 20);
    var before := SearchResults(SampleDocs, SampleOrder, "AAA", 20);
    assert before == before[..0] + [before[0]];
    assert WithoutId(before[..0], "doc-1") == [];
  }

  /** After the exclusion only an admin may list the exclusions, and the
      listing has the one row for `doc-1`. */
  lemma SampleListing(now: Timestamp)
    ensures ListExcluded(SampleExcluded(now), SampleOrder, false) == Failure(PermissionDenied)
    ensures ListExcluded(SampleExcluded(now), SampleOrder, true).Success?
    ensures |ListExcluded(SampleExcluded(now), SampleOrder, true).value| == 1
    ensures ListExcluded(SampleExcluded(now), SampleOrder, true).value[0].docId == "doc-1"
  {
    var docs := SampleExcluded(now);
    assert SampleOrder[..0] == [];
    assert ExcludedAmong(docs, SampleOrder) == [docs["doc-1"]];
    assert NewestFirst([docs["doc-1"]]) == [docs["doc-1"]];
  }

  /** Including `doc-1` again brings its search result back. */
  lemma SampleIncludeRestores(now: Timestamp)
    ensures |SearchResults(IncludeStep(SampleExcluded(now), "doc-1", true).1, SampleOrder, "AAA", 20)| == 1
  {
    assert StoreInvariant(SampleDocs, SampleOrder);
    SampleSearch();
    IncludeRestoresSearch(SampleDocs, SampleOrder, "doc-1", "admin-user", now, "AAA", 20);
  }

  /** The content `xb.b.b` holds `.b.b` once, at 2 to 6. */
  lemma MarkerContentHits()
    ensures Hits("xb.b.b", ".b.b") == [Span(2, 6)]
  {
    var text := "xb.b.b";
    MatchesAtChars(text, ".b.b", 2);
    forall p: nat | p != 2
      ensures !MatchesAt(text, ".b.b", p)
    {
      MatchesAtChars(text, ".b.b", p);
      if p < 2 {
        assert Fold(text[p]) != Fold('.');
      }
    }
    SingleHit(text, ".b.b", 2);
  }

  /** In `...b.b.b` the scan matches `.b.b` at offset 2 and nowhere else
      but at 4, inside that match. */
  lemma MarkerSnippetHits()
    ensures Hits("...b.b.b", ".b.b") == [Span(2, 6)]
  {
    var text := "...b.b.b";
    var spans := [Span(2, 6)];
    MatchesAtChars(text, ".b.b", 2);
    forall p: nat | p != 2 && p != 4
      ensures !MatchesAt(text, ".b.b", p)
    {
      MatchesAtChars(text, ".b.b", p);
      if p < 2 {
        assert Fold(text[p + 1]) != Fold('b');
      } else if p == 3 {
        assert Fold(text[3]) != Fold('.');
      }
    }
    forall p: nat | MatchesAt(text, ".b.b", p)
      ensures Covers(spans, p)
    {
      assert spans[0].start == p || spans[0].start < p < spans[0].end;
    }
    HitsCharacterized(text, ".b.b", spans);
  }

  /** With a window of 1, the snippet of `xb.b.b` around its hit is
      `...b.b.b`. There the scan matches `.b.b` first at offset 2, across
      the last marker character, and that match swallows the copy of the
      document's hit at offset 4: the highlight brackets a marker dot and
      leaves the real hit's last two characters outside the brackets. */
  lemma MarkerSwallowsHit()
    ensures Hits("xb.b.b", ".b.b") == [Span(2, 6)]
    ensures BuildSnippet("xb.b.b", 2, 6, 1) == "...b.b.b"
    ensures MatchesAt("...b.b.b", ".b.b", 4)
    ensures Hits("...b.b.b", ".b.b") == [Span(2, 6)]
    ensures Highlight("...b.b.b", ".b.b") == "..[.b.b].b"
  {
    MarkerContentHits();
    MarkerSnippet();
    assert "...b.b.b"[4..8] == ".b.b";
    MarkerHighlight();
  }

  /** The snippet of `xb.b.b` around 2 to 6 with a window of 1. */
  lemma MarkerSnippet()
    ensures BuildSnippet("xb.b.b", 2, 6, 1) == "...b.b.b"
  {
    assert SnippetBounds(6, 2, 6, 1) == (1, 6);
    assert "xb.b.b"[1..6] == "b.b.b";
  }

  /** The highlight of `...b.b.b` brackets its one hit, 2 to 6. */
  lemma MarkerHighlight()
    ensures Hits("...b.b.b", ".b.b") == [Span(2, 6)]
    ensures Highlight("...b.b.b", ".b.b") == "..[.b.b].b"
  {
    MarkerSnippetHits();
    assert "...b.b.b"[0..2] == "..";
    assert "...b.b.b"[2..6] == ".b.b";
    assert "...b.b.b"[6..] == ".b";
    assert Bracket("...b.b.b", [Span(2, 6)], 0) == ".." + "[" + ".b.b" + "]" + ".b";
  }

  /** Outside the condition of `SnippetFirstHit` the claim can still hold:
      with a window of 1 the snippet of `aaaa.z` around its hit is
      `...a.z`, whose only match of `.z` is the copy of the real hit. */
  lemma MarkerLeavesHit()
    ensures Hits("aaaa.z", ".z") == [Span(4, 6)]
    ensures BuildSnippet("aaaa.z", 4, 6, 1) == "...a.z"
    ensures Hits("...a.z", ".z") == [Span(4, 6)]
  {
    var content := "aaaa.z";
    MatchesAtChars(content, ".z", 4);
    forall p: nat | p != 4
      ensures !MatchesAt(content, ".z", p)
    {
      MatchesAtChars(content, ".z", p);
      if p < 4 {
        assert Fold(content[p]) != Fold('.');
      }
    }
    SingleHit(content, ".z", 4);
    assert SnippetBounds(6, 4, 6, 1) == (3, 6);
    assert "aaaa.z"[3..6] == "a.z";
    var snippet := "...a.z";
    MatchesAtChars(snippet, ".z", 4);
    forall p: nat | p != 4
      ensures !MatchesAt(snippet, ".z", p)
    {
      MatchesAtChars(snippet, ".z", p);
      if p < 4 {
        assert Fold(snippet[p + 1]) != Fold('z');
      }
    }
    SingleHit(snippet, ".z", 4);
  }
}
