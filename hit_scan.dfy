/** The literal, case-insensitive scan behind `_find_hit_positions`:
    the query is escaped, so it matches only itself, character by character
    up to simple case folding, and the scan runs left to right, resuming at
    the end of every match (one past it for an empty match). */
module HitScan {

  /** Simple per-character case folding. It maps a character to one
      character, so a match always has the length of the query. */
  function Fold(c: char): char
  {
    if 'A' <= c <= 'Z' then (c as int + 32) as char else c
  }

  /** `s` with every character folded. */
  function FoldAll(s: string): (r: string)
    ensures |r| == |s|
  {
    if s == [] then [] else [Fold(s[0])] + FoldAll(s[1..])
  }

  /** The query occurs at offset `p` of `text`: the slice of `text` there
      folds to the same string as the query. */
  predicate MatchesAt(text: string, query: string, p: nat)
  {
    p + |query| <= |text| && FoldAll(text[p..p + |query|]) == FoldAll(query)
  }

  /** Folding works character by character. */
  lemma {:induction false} FoldAllAt(s: string, k: nat)
    requires k < |s|
    ensures FoldAll(s)[k] == Fold(s[k])
    decreases k
  {
    if k > 0 {
      FoldAllAt(s[1..], k - 1);
    }
  }

  /** The query occurs at `p` exactly when it fits there and each of its
      characters folds to the same character as the text's at that place. */
  lemma MatchesAtChars(text: string, query: string, p: nat)
    ensures MatchesAt(text, query, p) <==>
      p + |query| <= |text| && forall j :: p <= j < p + |query| ==> Fold(text[j]) == Fold(query[j - p])
  {
    if p + |query| <= |text| {
      var w := text[p..p + |query|];
      forall k | 0 <= k < |query|
        ensures FoldAll(w)[k] == Fold(w[k]) && FoldAll(query)[k] == Fold(query[k])
      {
        FoldAllAt(w, k);
        FoldAllAt(query, k);
      }
      if forall j :: p <= j < p + |query| ==> Fold(text[j]) == Fold(query[j - p]) {
        forall k | 0 <= k < |query|
          ensures FoldAll(w)[k] == FoldAll(query)[k]
        {
          assert w[k] == text[p + k];
        }
      }
    }
  }

  /** A half-open range `[start, end)` of character offsets. */
  datatype Span = Span(start: nat, end: nat)

  /** Spans in strictly ascending order, none reaching into the next. */
  predicate Ordered(spans: seq<Span>)
  {
    forall j, k :: 0 <= j < k < |spans| ==>
      spans[j].end <= spans[k].start && spans[j].start < spans[k].start
  }

  /** Where the scan resumes after a match at `p`. */
  function Resume(query: string, p: nat): nat
  {
    if |query| == 0 then p + 1 else p + |query|
  }

  /** The matches found by scanning `text` from offset `i` on. */
  function HitsFrom(text: string, query: string, i: nat): (r: seq<Span>)
    ensures forall k :: 0 <= k < |r| ==>
      i <= r[k].start && r[k].end == r[k].start + |query| <= |text|
    ensures Ordered(r)
    decreases |text| + 1 - i
  {
    if i + |query| > |text| then []
    else if MatchesAt(text, query, i) then
      [Span(i, i + |query|)] + HitsFrom(text, query, Resume(query, i))
    else
      HitsFrom(text, query, i + 1)
  }

  /** `_find_hit_positions(content, query)`. */
  function Hits(text: string, query: string): seq<Span>
  {
    HitsFrom(text, query, 0)
  }

  /** Offset `p` is the start of one of `spans`, or lies inside one. */
  ghost predicate Covers(spans: seq<Span>, p: nat)
  {
    exists k :: 0 <= k < |spans| && (spans[k].start == p || spans[k].start < p < spans[k].end)
  }

  /** Every one of `spans` is a match of the query at or after `from`. */
  ghost predicate AllMatches(text: string, query: string, spans: seq<Span>, from: nat)
  {
    forall k :: 0 <= k < |spans| ==>
      from <= spans[k].start && spans[k].end == spans[k].start + |query| &&
      MatchesAt(text, query, spans[k].start)
  }

  /** Every match at or after `from` starts one of `spans` or lies inside one. */
  ghost predicate CoversMatches(text: string, query: string, spans: seq<Span>, from: nat)
  {
    forall p: nat :: from <= p && MatchesAt(text, query, p) ==> Covers(spans, p)
  }

  /** The reference description of a leftmost-first, non-overlapping scan
      from offset `from`: every span is a match at or after `from`, the spans
      are ordered, and every match at or after `from` starts a span or is
      swallowed by one. */
  ghost predicate LeftmostScan(text: string, query: string, spans: seq<Span>, from: nat)
  {
    AllMatches(text, query, spans, from) && Ordered(spans) && CoversMatches(text, query, spans, from)
  }

  /** Every span the scan returns is a match. */
  lemma {:induction false} HitsFromAreMatches(text: string, query: string, i: nat)
    ensures forall k :: 0 <= k < |HitsFrom(text, query, i)| ==>
      MatchesAt(text, query, HitsFrom(text, query, i)[k].start)
    decreases |text| + 1 - i
  {
    if i + |query| > |text| {
    } else if MatchesAt(text, query, i) {
      HitsFromAreMatches(text, query, Resume(query, i));
    } else {
      HitsFromAreMatches(text, query, i + 1);
    }
  }

  /** Every match at or after `i` is found by the scan or swallowed by a
      match it found. */
  lemma {:induction false} HitsFromCoverMatches(text: string, query: string, i: nat)
    ensures forall p: nat :: i <= p && MatchesAt(text, query, p) ==> Covers(HitsFrom(text, query, i), p)
    decreases |text| + 1 - i
  {
    var r := HitsFrom(text, query, i);
    if i + |query| > |text| {
    } else if MatchesAt(text, query, i) {
      var i' := Resume(query, i);
      var rest := HitsFrom(text, query, i');
      HitsFromCoverMatches(text, query, i');
      assert r == [Span(i, i + |query|)] + rest;
      forall p: nat | i <= p && MatchesAt(text, query, p)
        ensures Covers(r, p)
      {
        if p == i || p < i + |query| {
          assert r[0].start == p || r[0].start < p < r[0].end;
        } else {
          assert Covers(rest, p);
          var k :| 0 <= k < |rest| && (rest[k].start == p || rest[k].start < p < rest[k].end);
          assert r[k + 1] == rest[k];
        }
      }
    } else {
      HitsFromCoverMatches(text, query, i + 1);
      forall p: nat | i <= p && MatchesAt(text, query, p)
        ensures Covers(r, p)
      {
        assert p != i;
      }
    }
  }

  /** The scan meets its reference description. */
  lemma HitsFromIsLeftmostScan(text: string, query: string, i: nat)
    ensures LeftmostScan(text, query, HitsFrom(text, query, i), i)
  {
    HitsFromAreMatches(text, query, i);
    HitsFromCoverMatches(text, query, i);
  }

  /** No offset before the first of ordered spans is covered by them. */
  lemma CoveredFromFirst(spans: seq<Span>, p: nat)
    requires Ordered(spans) && Covers(spans, p)
    ensures spans != [] && spans[0].start <= p
  {
    var k :| 0 <= k < |spans| && (spans[k].start == p || spans[k].start < p < spans[k].end);
    assert spans[0].start <= spans[k].start;
  }

  /** A correct scan from `i` where the query matches at `i` starts with
      that match. */
  lemma ScanStartsWithMatch(text: string, query: string, spans: seq<Span>, i: nat)
    requires LeftmostScan(text, query, spans, i) && MatchesAt(text, query, i)
    ensures spans != [] && spans[0] == Span(i, i + |query|)
  {
    CoveredFromFirst(spans, i);
  }

  /** Past its first match, a correct scan is a correct scan from where the
      scan resumes. */
  lemma ScanRestFromResume(text: string, query: string, spans: seq<Span>, i: nat)
    requires LeftmostScan(text, query, spans, i)
    requires spans != [] && spans[0] == Span(i, i + |query|)
    ensures LeftmostScan(text, query, spans[1..], Resume(query, i))
  {
    var i' := Resume(query, i);
    var rest := spans[1..];
    forall p: nat | i' <= p && MatchesAt(text, query, p)
      ensures Covers(rest, p)
    {
      assert Covers(spans, p);
      var m :| 0 <= m < |spans| && (spans[m].start == p || spans[m].start < p < spans[m].end);
      assert m != 0;
      assert rest[m - 1] == spans[m];
    }
    assert CoversMatches(text, query, rest, i');
    forall k | 0 <= k < |rest|
      ensures i' <= rest[k].start && rest[k].end == rest[k].start + |query|
      ensures MatchesAt(text, query, rest[k].start)
    {
      assert rest[k] == spans[k + 1];
      assert spans[0].end <= spans[k + 1].start && spans[0].start < spans[k + 1].start;
    }
    assert AllMatches(text, query, rest, i');
    forall j, k | 0 <= j < k < |rest|
      ensures rest[j].end <= rest[k].start && rest[j].start < rest[k].start
    {
      assert rest[j] == spans[j + 1] && rest[k] == spans[k + 1];
    }
    assert Ordered(rest);
  }

  /** A correct scan from `i` where the query does not match at `i` is a
      correct scan from `i + 1`. */
  lemma ScanSkipsMismatch(text: string, query: string, spans: seq<Span>, i: nat)
    requires LeftmostScan(text, query, spans, i) && !MatchesAt(text, query, i)
    ensures LeftmostScan(text, query, spans, i + 1)
  {
    forall k | 0 <= k < |spans|
      ensures i + 1 <= spans[k].start
    {
      assert MatchesAt(text, query, spans[k].start);
    }
  }

  /** Spans that all match at or after `i` can exist only if the query
      still fits into the text at `i`. */
  lemma FirstMatchFits(text: string, query: string, spans: seq<Span>, i: nat)
    requires AllMatches(text, query, spans, i)
    ensures spans != [] ==> i + |query| <= |text|
  {
    if spans != [] {
      assert MatchesAt(text, query, spans[0].start);
    }
  }

  /** Only one list of spans meets the description: the scan's own. */
  lemma {:induction false} LeftmostScanIsUnique(text: string, query: string, spans: seq<Span>, i: nat)
    requires LeftmostScan(text, query, spans, i)
    ensures spans == HitsFrom(text, query, i)
    decreases |text| + 1 - i
  {
    if i + |query| > |text| {
      FirstMatchFits(text, query, spans, i);
    } else if MatchesAt(text, query, i) {
      ScanStartsWithMatch(text, query, spans, i);
      ScanRestFromResume(text, query, spans, i);
      LeftmostScanIsUnique(text, query, spans[1..], Resume(query, i));
      assert spans == [spans[0]] + spans[1..];
    } else {
      ScanSkipsMismatch(text, query, spans, i);
      LeftmostScanIsUnique(text, query, spans, i + 1);
    }
  }

  /** `Hits` returns exactly the leftmost-first, non-overlapping matches:
      a list of spans is a correct scan of the whole text if and only if
      it is the list `Hits` computes. */
  lemma HitsCharacterized(text: string, query: string, spans: seq<Span>)
    ensures LeftmostScan(text, query, spans, 0) <==> spans == Hits(text, query)
  {
    HitsFromIsLeftmostScan(text, query, 0);
    if LeftmostScan(text, query, spans, 0) {
      LeftmostScanIsUnique(text, query, spans, 0);
    }
  }

  /** Each hit is a non-empty span inside the text that matches the query,
      and the hits ascend without overlapping. */
  lemma HitSpans(text: string, query: string)
    requires |query| > 0
    ensures var hits := Hits(text, query);
      && Ordered(hits)
      && forall k :: 0 <= k < |hits| ==>
           0 <= hits[k].start < hits[k].end <= |text| &&
           hits[k].end - hits[k].start == |query| &&
           MatchesAt(text, query, hits[k].start)
  {
    HitsFromIsLeftmostScan(text, query, 0);
  }

  /** A text has no hit exactly when the query occurs nowhere in it. */
  lemma NoHitsIffNoMatch(text: string, query: string)
    ensures Hits(text, query) == [] <==> forall p: nat :: !MatchesAt(text, query, p)
  {
    HitsFromIsLeftmostScan(text, query, 0);
    if Hits(text, query) != [] {
      assert MatchesAt(text, query, Hits(text, query)[0].start);
    }
  }

  /** The first hit is the leftmost occurrence of the query. */
  lemma FirstHitIsLeftmost(text: string, query: string)
    requires Hits(text, query) != []
    ensures var s := Hits(text, query)[0].start;
      MatchesAt(text, query, s) && forall p: nat :: p < s ==> !MatchesAt(text, query, p)
  {
    var hits := Hits(text, query);
    HitsFromIsLeftmostScan(text, query, 0);
    forall p: nat | Covers(hits, p)
      ensures hits[0].start <= p
    {
      CoveredFromFirst(hits, p);
    }
  }
}
