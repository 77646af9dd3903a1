/** `_highlight`: the substitution that wraps every match of the literal,
    case-insensitive scan in square brackets, keeping the matched text as it
    stands in the input. */
module Highlighting {
  import opened HitScan

  /** `spans` lie inside `text` at or after `from`, in ascending order and
      without overlap: where a substitution may put its brackets. */
  predicate Placed(text: string, spans: seq<Span>, from: nat)
  {
    && from <= |text|
    && (forall k :: 0 <= k < |spans| ==> from <= spans[k].start <= spans[k].end <= |text|)
    && Ordered(spans)
  }

  /** `text` from offset `from` on, with "[" before and "]" after every span. */
  function Bracket(text: string, spans: seq<Span>, from: nat): (r: string)
    requires Placed(text, spans, from)
    ensures |r| == |text| - from + 2 * |spans|
    decreases |spans|
  {
    if spans == [] then text[from..]
    else
      text[from..spans[0].start] + "[" + text[spans[0].start..spans[0].end] + "]"
      + Bracket(text, spans[1..], spans[0].end)
  }

  /** The substitution `_highlight(text, query)` performs. */
  function Highlight(text: string, query: string): string
  {
    Bracket(text, Hits(text, query), 0)
  }

  /** The inverse of `Bracket`: given text bracketed from offset `from` on
      and the spans that were bracketed, drop the two characters inserted
      around each span. */
  function Unbracket(marked: string, spans: seq<Span>, from: nat): string
    decreases |spans|
  {
    if spans == [] then marked
    else if spans[0].start < from || spans[0].end < spans[0].start then marked
    else
      var open := spans[0].start - from;
      var close := open + 1 + (spans[0].end - spans[0].start);
      if close >= |marked| then marked
      else marked[..open] + marked[open + 1..close] + Unbracket(marked[close + 1..], spans[1..], spans[0].end)
  }

  /** Past the first span, the rest are placed from where it ends. */
  lemma PlacedRest(text: string, spans: seq<Span>, from: nat)
    requires Placed(text, spans, from) && spans != []
    ensures Placed(text, spans[1..], spans[0].end)
  {
    var rest := spans[1..];
    forall k | 0 <= k < |rest|
      ensures spans[0].end <= rest[k].start <= rest[k].end <= |text|
    {
      assert rest[k] == spans[k + 1];
    }
    forall j, k | 0 <= j < k < |rest|
      ensures rest[j].end <= rest[k].start && rest[j].start < rest[k].start
    {
      assert rest[j] == spans[j + 1] && rest[k] == spans[k + 1];
    }
  }

  /** How the pieces of one bracketed span are found again by position. */
  lemma PiecesOf(before: string, inside: string, tail: string)
    ensures var m := before + "[" + inside + "]" + tail;
      && |m| == |before| + |inside| + |tail| + 2
      && m[..|before|] == before
      && m[|before|] == '['
      && m[|before| + 1..|before| + 1 + |inside|] == inside
      && m[|before| + 1 + |inside|] == ']'
      && m[|before| + 2 + |inside|..] == tail
  {
    var m := before + "[" + inside + "]" + tail;
    assert m == before + (['['] + inside + [']'] + tail);
    assert m[|before|..] == ['['] + inside + [']'] + tail;
    assert m[|before| + 1..] == inside + [']'] + tail;
    assert m[|before| + 1 + |inside|..] == [']'] + tail;
  }

  /** The bracketed text is the first span's pieces followed by the rest. */
  lemma BracketHead(text: string, spans: seq<Span>, from: nat)
    requires Placed(text, spans, from) && spans != []
    ensures Placed(text, spans[1..], spans[0].end)
    ensures Bracket(text, spans, from)
         == text[from..spans[0].start] + "[" + text[spans[0].start..spans[0].end] + "]"
            + Bracket(text, spans[1..], spans[0].end)
  {
    PlacedRest(text, spans, from);
  }

  /** `Unbracket` takes one bracketed span apart: the text before it, the
      text inside it, then the rest unbracketed from the span's end. */
  lemma UnbracketPieces(before: string, inside: string, tail: string, spans: seq<Span>, from: nat)
    requires spans != [] && spans[0].start == from + |before| && spans[0].end == spans[0].start + |inside|
    ensures Unbracket(before + "[" + inside + "]" + tail, spans, from)
         == before + inside + Unbracket(tail, spans[1..], spans[0].end)
  {
    PiecesOf(before, inside, tail);
  }

  /** Removing exactly the inserted brackets gives the text back: outside
      and inside the spans, the text is unchanged. */
  lemma {:induction false} UnbracketBracket(text: string, spans: seq<Span>, from: nat)
    requires Placed(text, spans, from)
    ensures Unbracket(Bracket(text, spans, from), spans, from) == text[from..]
    decreases |spans|
  {
    if spans != [] {
      var s, e := spans[0].start, spans[0].end;
      BracketHead(text, spans, from);
      var before, inside, tail := text[from..s], text[s..e], Bracket(text, spans[1..], e);
      UnbracketPieces(before, inside, tail, spans, from);
      UnbracketBracket(text, spans[1..], e);
      SliceAt(text, from, s, e);
    }
  }

  /** A suffix of `text` is its three consecutive pieces. */
  lemma SliceAt(text: string, from: nat, s: nat, e: nat)
    requires from <= s <= e <= |text|
    ensures text[from..] == text[from..s] + text[s..e] + text[e..]
  {
  }

  /** Where the brackets of span `k` land in the output. */
  ghost predicate MarkedAt(text: string, marked: string, span: Span, open: nat)
    requires span.start <= span.end <= |text|
  {
    && open + 1 + (span.end - span.start) < |marked|
    && marked[open] == '['
    && marked[open + 1 + (span.end - span.start)] == ']'
    && marked[open + 1..open + 1 + (span.end - span.start)] == text[span.start..span.end]
  }

  /** A marked span reads as the span's text between brackets. */
  lemma MarkedSlice(text: string, marked: string, span: Span, open: nat)
    requires span.start <= span.end <= |text| && MarkedAt(text, marked, span, open)
    ensures marked[open..open + 2 + (span.end - span.start)] == "[" + text[span.start..span.end] + "]"
  {
    var close := open + 1 + (span.end - span.start);
    assert marked[open..close + 1] == [marked[open]] + marked[open + 1..close] + [marked[close]];
  }

  /** A bracketed piece is marked right after the text before it. */
  lemma MarkedPiece(text: string, marked: string, before: string, tail: string, span: Span, open: nat)
    requires span.start <= span.end <= |text| && open == |before|
    requires marked == before + "[" + text[span.start..span.end] + "]" + tail
    ensures MarkedAt(text, marked, span, open)
  {
    PiecesOf(before, text[span.start..span.end], tail);
  }

  /** The first span's brackets sit at its own offset, counted from `from`. */
  lemma BracketMarksFirst(text: string, spans: seq<Span>, from: nat)
    requires Placed(text, spans, from) && spans != []
    ensures MarkedAt(text, Bracket(text, spans, from), spans[0], spans[0].start - from)
  {
    var s, e := spans[0].start, spans[0].end;
    BracketHead(text, spans, from);
    var before, tail := text[from..s], Bracket(text, spans[1..], e);
    assert Bracket(text, spans, from) == before + "[" + text[s..e] + "]" + tail;
    MarkedPiece(text, Bracket(text, spans, from), before, tail, spans[0], |before|);
  }

  /** Brackets found in the tail are found again, shifted, in the whole. */
  lemma MarkedInTail(text: string, marked: string, head: string, tail: string, span: Span, open: nat, target: nat)
    requires span.start <= span.end <= |text|
    requires MarkedAt(text, tail, span, open)
    requires marked == head + tail && target == |head| + open
    ensures MarkedAt(text, marked, span, target)
  {
    var close := open + 1 + (span.end - span.start);
    ShiftedPieces(head, tail, open, close);
  }

  /** The k-th span's opening bracket sits `2 * k` places after its start,
      counted from `from`, and its closing bracket right after its text. */
  lemma {:induction false} BracketMarks(text: string, spans: seq<Span>, from: nat, k: nat, span: Span, open: nat)
    requires Placed(text, spans, from) && k < |spans| && span == spans[k]
    requires open == span.start - from + 2 * k
    ensures span.start <= span.end <= |text|
    ensures MarkedAt(text, Bracket(text, spans, from), span, open)
    decreases k
  {
    if k == 0 {
      BracketMarksFirst(text, spans, from);
    } else {
      var s, e := spans[0].start, spans[0].end;
      var rest := spans[1..];
      BracketHead(text, spans, from);
      var inner := span.start - e + 2 * (k - 1);
      BracketMarks(text, rest, e, k - 1, span, inner);
      var head := text[from..s] + "[" + text[s..e] + "]";
      MarkedInTail(text, Bracket(text, spans, from), head, Bracket(text, rest, e), span, inner, open);
    }
  }

  /** Indexing and slicing past a prefix. */
  lemma ShiftedPieces(head: string, tail: string, open: nat, close: nat)
    requires open < close < |tail|
    ensures (head + tail)[|head| + open] == tail[open]
    ensures (head + tail)[|head| + close] == tail[close]
    ensures (head + tail)[|head| + open + 1..|head| + close] == tail[open + 1..close]
  {
  }

  /** `_highlight` inserts exactly two characters per hit and nothing
      else: taking them out again gives the input back. */
  lemma HighlightRoundTrip(text: string, query: string)
    ensures |Highlight(text, query)| == |text| + 2 * |Hits(text, query)|
    ensures Unbracket(Highlight(text, query), Hits(text, query), 0) == text
  {
    UnbracketBracket(text, Hits(text, query), 0);
  }

  /** Every span bracketed from the start is marked, the k-th shifted by
      the `2 * k` brackets before it. */
  lemma BracketMarksAll(text: string, spans: seq<Span>)
    requires Placed(text, spans, 0)
    ensures forall k :: 0 <= k < |spans| ==>
      MarkedAt(text, Bracket(text, spans, 0), spans[k], spans[k].start + 2 * k)
  {
    forall k | 0 <= k < |spans|
      ensures MarkedAt(text, Bracket(text, spans, 0), spans[k], spans[k].start + 2 * k)
    {
      BracketMarks(text, spans, 0, k, spans[k], spans[k].start + 2 * k);
    }
  }

  /** The scan's hits are where `Bracket` may put its brackets. */
  lemma HitsPlaced(text: string, query: string)
    ensures Placed(text, Hits(text, query), 0)
  {
  }

  /** The inserted characters are an opening bracket just before each hit
      and a closing one just after it, the k-th hit shifted by the `2 * k`
      brackets before it; the hit's text stands between them unchanged. */
  lemma HighlightMarksHits(text: string, query: string)
    ensures forall k :: 0 <= k < |Hits(text, query)| ==>
      MarkedAt(text, Highlight(text, query), Hits(text, query)[k], Hits(text, query)[k].start + 2 * k)
  {
    HitsPlaced(text, query);
    BracketMarksAll(text, Hits(text, query));
  }

  /** Text the query does not occur in comes back unchanged. */
  lemma HighlightWithoutHits(text: string, query: string)
    requires forall p: nat :: !MatchesAt(text, query, p)
    ensures Highlight(text, query) == text
  {
    NoHitsIffNoMatch(text, query);
  }
}
