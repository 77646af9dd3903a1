/** `_build_snippet`: the excerpt of a document around its first hit,
    `window` characters of context on each side where the content has them,
    with an ellipsis marker on each side that was cut. */
module Snippets {

  /** The marker put where the excerpt cuts the content. */
  const Ellipsis: string := "..."

  /** The excerpt's bounds, `left = max(0, start - window)` and
      `right = min(|content|, end + window)`: as much context as the window
      allows, clamped to the content. */
  function SnippetBounds(contentLength: nat, start: nat, end: nat, window: nat): (b: (nat, nat))
    requires start <= end <= contentLength
    ensures b.0 <= start && end <= b.1 <= contentLength
    ensures start - b.0 <= window && b.1 - end <= window
    ensures b.0 > 0 ==> start - b.0 == window
    ensures b.1 < contentLength ==> b.1 - end == window
  {
    var left := if start - window > 0 then start - window else 0;
    var right := if end + window < contentLength then end + window else contentLength;
    (left, right)
  }

  /** The snippet `_build_snippet(content, start, end)` returns. */
  function BuildSnippet(content: string, start: nat, end: nat, window: nat): string
    requires start <= end <= |content|
  {
    var b := SnippetBounds(|content|, start, end, window);
    var prefix := if b.0 > 0 then Ellipsis else "";
    var suffix := if b.1 < |content| then Ellipsis else "";
    prefix + content[b.0..b.1] + suffix
  }

  /** The snippet's three pieces, with the bounds written out. */
  lemma SnippetShape(content: string, start: nat, end: nat, window: nat)
    requires start <= end <= |content|
    ensures var left := if start > window then start - window else 0;
      var right := if end + window < |content| then end + window else |content|;
      && left <= start && end <= right
      && BuildSnippet(content, start, end, window)
         == (if left > 0 then Ellipsis else "") + content[left..right] + (if right < |content| then Ellipsis else "")
  {
  }

  /** Slicing the middle piece out of three. */
  lemma MiddleSlice(prefix: string, mid: string, suffix: string, i: nat, j: nat)
    requires i <= j <= |mid|
    ensures (prefix + mid + suffix)[|prefix| + i..|prefix| + j] == mid[i..j]
  {
    var r := prefix + mid + suffix;
    assert r == prefix + (mid + suffix);
    assert r[|prefix|..] == mid + suffix;
    assert (mid + suffix)[i..j] == mid[i..j];
  }

  /** The excerpt is no longer than the hit, its two windows and two markers. */
  lemma {:induction false} SnippetLength(content: string, start: nat, end: nat, window: nat)
    requires start <= end <= |content|
    ensures end - start <= |BuildSnippet(content, start, end, window)| <= 2 * window + (end - start) + 6
  {
    SnippetShape(content, start, end, window);
  }

  /** The hit itself stands in the snippet, right after the leading marker
      (if any) and the context before it. */
  lemma {:induction false} SnippetContainsHit(content: string, start: nat, end: nat, window: nat)
    requires start <= end <= |content|
    ensures var r := BuildSnippet(content, start, end, window);
      var at := if start > window then |Ellipsis| + window else start;
      at + (end - start) <= |r| && r[at..at + (end - start)] == content[start..end]
  {
    SnippetShape(content, start, end, window);
    var left := if start > window then start - window else 0;
    var right := if end + window < |content| then end + window else |content|;
    var prefix := if left > 0 then Ellipsis else "";
    var suffix := if right < |content| then Ellipsis else "";
    var mid := content[left..right];
    MiddleSlice(prefix, mid, suffix, start - left, end - left);
    assert mid[start - left..end - left] == content[start..end];
  }

  /** The leading marker appears exactly when context was cut before the
      hit, and then the excerpt starts `window` characters before the hit;
      otherwise the snippet starts at the content's first character. */
  lemma {:induction false} SnippetLeadingMarker(content: string, start: nat, end: nat, window: nat)
    requires start <= end <= |content|
    ensures var r := BuildSnippet(content, start, end, window);
      if start > window then
        r[..|Ellipsis|] == Ellipsis && r[|Ellipsis|..|Ellipsis| + window + (end - start)] == content[start - window..end]
      else
        r[..end] == content[..end]
  {
    SnippetShape(content, start, end, window);
    var left := if start > window then start - window else 0;
    var right := if end + window < |content| then end + window else |content|;
    var prefix := if left > 0 then Ellipsis else "";
    var suffix := if right < |content| then Ellipsis else "";
    var mid := content[left..right];
    MiddleSlice(prefix, mid, suffix, 0, end - left);
    assert mid[0..end - left] == content[left..end];
    if start > window {
      assert (prefix + mid + suffix)[..|Ellipsis|] == prefix;
    }
  }

  /** The trailing marker appears exactly when context was cut after the
      hit, and then the excerpt ends `window` characters after the hit;
      otherwise the snippet ends with the content's last character. */
  lemma {:induction false} SnippetTrailingMarker(content: string, start: nat, end: nat, window: nat)
    requires start <= end <= |content|
    ensures var r := BuildSnippet(content, start, end, window);
      if end + window < |content| then
        |r| >= |Ellipsis| + window + (end - start) &&
        r[|r| - |Ellipsis|..] == Ellipsis &&
        r[|r| - |Ellipsis| - window - (end - start)..|r| - |Ellipsis|] == content[start..end + window]
      else
        |r| >= |content| - start && r[|r| - (|content| - start)..] == content[start..]
  {
    SnippetShape(content, start, end, window);
    var left := if start > window then start - window else 0;
    var right := if end + window < |content| then end + window else |content|;
    var prefix := if left > 0 then Ellipsis else "";
    var suffix := if right < |content| then Ellipsis else "";
    var mid := content[left..right];
    var r := prefix + mid + suffix;
    MiddleSlice(prefix, mid, suffix, start - left, right - left);
    assert mid[start - left..right - left] == content[start..right];
    if end + window < |content| {
      assert r[|r| - |Ellipsis|..] == suffix;
    }
  }
}
