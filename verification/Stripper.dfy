/** Removal of test blocks before two sources are compared: from a marker attribute to the end
    of the braced block that follows it. */
module Stripper {

  // ---------------------------------------------------------------------
  // Searching
  // ---------------------------------------------------------------------

  /** The least position of `w` in `s` from `i` on, or -1. */
  function Find(s: string, w: string, i: nat): (p: int)
    ensures p == -1 || (i <= p <= |s| - |w| && w <= s[p..])
    decreases |s| - i
  {
    if i + |w| > |s| then -1 else if w <= s[i..] then i else if i == |s| then -1 else Find(s, w, i + 1)
  }

  lemma {:induction false} FindIsLeast(s: string, w: string, i: nat, k: nat)
    requires i <= k <= |s| && w <= s[k..]
    ensures i <= Find(s, w, i) <= k
    decreases k - i
  {
    if i < k { FindIsLeast(s, w, i + 1, k); }
  }

  /** The least position of a character from `i` on, or -1. */
  function FindChar(s: string, c: char, i: nat): (p: int)
    requires i <= |s|
    ensures p == -1 || (i <= p < |s| && s[p] == c)
    decreases |s| - i
  {
    if i == |s| then -1 else if s[i] == c then i else FindChar(s, c, i + 1)
  }

  lemma {:induction false} FindCharIsLeast(s: string, c: char, i: nat)
    requires i <= |s|
    ensures var p := FindChar(s, c, i); c !in s[i..if p == -1 then |s| else p]
    decreases |s| - i
  {
    if i < |s| && s[i] != c { FindCharIsLeast(s, c, i + 1); }
  }

  // ---------------------------------------------------------------------
  // Braces
  // ---------------------------------------------------------------------

  function Weight(c: char): int { if c == '{' then 1 else if c == '}' then -1 else 0 }

  /** Opening less closing braces. */
  function Level(s: string): int { if s == "" then 0 else Level(s[..|s| - 1]) + Weight(s[|s| - 1]) }

  lemma {:induction false} LevelJoins(a: string, b: string)
    ensures Level(a + b) == Level(a) + Level(b)
    decreases |b|
  {
    if b == "" {
      assert a + b == a;
    } else {
      LevelJoins(a, b[..|b| - 1]);
      assert (a + b)[..|a + b| - 1] == a + b[..|b| - 1];
    }
  }

  /** Every closing brace closes an opening one, and all are closed. */
  ghost predicate Balanced(s: string) {
    Level(s) == 0 && forall k :: 0 <= k <= |s| ==> Level(s[..k]) >= 0
  }

  /** The inner loop: from position `i` with `depth` blocks open to the end of the outermost one. */
  function BlockEnd(s: string, i: nat, depth: nat): (end: nat)
    requires i <= |s|
    ensures i <= end <= |s|
    decreases |s| - i
  {
    if i == |s| || depth == 0 then i
    else BlockEnd(s, i + 1, if s[i] == '{' then depth + 1 else if s[i] == '}' then depth - 1 else depth)
  }

  /** A stretch from a brace in which the braces are even, or which goes on to the end of the text. */
  predicate IsBlock(s: string, start: nat, end: nat) {
    && start < end <= |s|
    && Level(s[start..end]) >= 0
    && (Level(s[start..end]) > 0 ==> end == |s|)
  }

  /** The loop ends a block at the first position where its braces are even, or else at the end of
      the text. */
  lemma {:induction false} BlockEndIs(s: string, start: nat, i: nat, depth: nat)
    requires start < i <= |s| && depth == Level(s[start..i])
    requires forall j :: start < j < i ==> Level(s[start..j]) > 0
    ensures IsBlock(s, start, BlockEnd(s, i, depth))
    ensures forall j :: start < j < BlockEnd(s, i, depth) ==> Level(s[start..j]) > 0
    decreases |s| - i
  {
    if i < |s| && depth > 0 {
      assert s[start..i + 1][..i - start] == s[start..i];
      BlockEndIs(s, start, i + 1, if s[i] == '{' then depth + 1 else if s[i] == '}' then depth - 1 else depth);
    }
  }

  // ---------------------------------------------------------------------
  // Rounds
  // ---------------------------------------------------------------------

  /** Where a round deletes: a marker, the first brace after it and the end of its block. */
  datatype Span = None | Span(marker: nat, brace: nat, end: nat)

  function FindSpan(s: string, marker: string): (span: Span)
    ensures span.Span? ==> span.marker + |marker| <= span.brace < span.end <= |s|
  {
    var p := Find(s, marker, 0);
    if p == -1 then None
    else
      var brace := FindChar(s, '{', p + |marker|);
      if brace == -1 then None else Span(p, brace, BlockEnd(s, brace + 1, 1))
  }

  /** A marker, no opening brace, and a braced block. */
  predicate IsSpan(s: string, marker: string, span: Span) {
    && span.Span? && span.marker + |marker| <= span.brace < span.end <= |s|
    && marker <= s[span.marker..]
    && '{' !in s[span.marker + |marker|..span.brace]
    && s[span.brace] == '{' && IsBlock(s, span.brace, span.end)
  }

  lemma SpanIsSpan(s: string, marker: string)
    ensures FindSpan(s, marker).Span? ==> IsSpan(s, marker, FindSpan(s, marker))
  {
    var p := Find(s, marker, 0);
    if p >= 0 {
      var brace := FindChar(s, '{', p + |marker|);
      if brace >= 0 { SpanFrom(s, marker, p, brace); }
    }
  }

  lemma SpanFrom(s: string, marker: string, p: nat, brace: nat)
    requires p + |marker| <= |s| && marker <= s[p..] && brace == FindChar(s, '{', p + |marker|)
    ensures IsSpan(s, marker, Span(p, brace, BlockEnd(s, brace + 1, 1)))
  {
    FindCharIsLeast(s, '{', p + |marker|);
    BlockFrom(s, brace);
  }

  lemma BlockFrom(s: string, brace: nat)
    requires brace < |s| && s[brace] == '{'
    ensures IsBlock(s, brace, BlockEnd(s, brace + 1, 1))
  {
    assert s[brace..brace + 1] == "{";
    BlockEndIs(s, brace, brace + 1, 1);
  }

  function Without(s: string, span: Span): string
    requires span.Span? && span.marker <= span.end <= |s|
  {
    s[..span.marker] + s[span.end..]
  }

  /** All rounds. */
  function Strip(s: string, marker: string): string
    decreases |s|
  {
    var span := FindSpan(s, marker);
    if span.None? then s else Strip(Without(s, span), marker)
  }

  /** The inner loop, from the brace of a block to its end. */
  method CloseBlock(s: string, brace: nat) returns (end: nat)
    requires brace < |s|
    ensures end == BlockEnd(s, brace + 1, 1)
  {
    var depth: nat := 1;
    end := brace + 1;
    while end < |s| && depth > 0
      invariant brace < end <= |s|
      invariant BlockEnd(s, end, depth) == BlockEnd(s, brace + 1, 1)
    {
      match s[end] {
        case '{' => depth := depth + 1;
        case '}' => depth := depth - 1;
        case _ =>
      }
      end := end + 1;
    }
  }

  /** The search of one round. */
  method Search(s: string, marker: string) returns (span: Span)
    ensures span == FindSpan(s, marker)
  {
    var p := Find(s, marker, 0);
    if p == -1 { return None; }
    var brace := FindChar(s, '{', p + |marker|);
    if brace == -1 { return None; }
    var end := CloseBlock(s, brace);
    return Span(p, brace, end);
  }

  method StripBracedBlocks(source: string, marker: string) returns (result: string)
    ensures result == Strip(source, marker)
  {
    result := source;
    while true
      invariant Strip(result, marker) == Strip(source, marker)
      decreases |result|
    {
      var span := Search(result, marker);
      if span.None? { break; }
      result := Without(result, span);
    }
  }

  // ---------------------------------------------------------------------
  // What a run leaves
  // ---------------------------------------------------------------------

  /** No marker is left that any opening brace follows. */
  lemma {:induction false} NoBlockIsLeft(s: string, marker: string, k: nat)
    requires var r := Strip(s, marker); k + |marker| <= |r| && marker <= r[k..]
    ensures '{' !in Strip(s, marker)[k + |marker|..]
    decreases |s|
  {
    var span := FindSpan(s, marker);
    if span.None? {
      NoSpanNoBlock(s, marker, k);
    } else {
      NoBlockIsLeft(Without(s, span), marker, k);
    }
  }

  lemma NoSpanNoBlock(s: string, marker: string, k: nat)
    requires FindSpan(s, marker).None? && k + |marker| <= |s| && marker <= s[k..]
    ensures '{' !in s[k + |marker|..]
  {
    FindIsLeast(s, marker, 0, k);
    var from := Find(s, marker, 0) + |marker|;
    FindCharIsLeast(s, '{', from);
    assert s[from..|s|] == s[from..];
    Later(s, from, k + |marker|, '{');
  }

  lemma Later(s: string, from: nat, to: nat, c: char)
    requires from <= to <= |s| && c !in s[from..]
    ensures c !in s[to..]
  {
    assert s[to..] == s[from..][to - from..];
  }

  /** A second run finds nothing to do. */
  lemma {:induction false} StripIsIdempotent(s: string, marker: string)
    ensures Strip(Strip(s, marker), marker) == Strip(s, marker)
    decreases |s|
  {
    var span := FindSpan(s, marker);
    if span.Span? { StripIsIdempotent(Without(s, span), marker); }
  }

  /** Each round takes at least the marker and a brace. */
  lemma RoundsShorten(s: string, marker: string)
    requires FindSpan(s, marker).Span?
    ensures |Without(s, FindSpan(s, marker))| + |marker| + 1 <= |s|
  {
  }

  /** Positions of the text after a round, as positions before it. */
  function Before(span: Span, kept: seq<nat>): (positions: seq<nat>)
    requires span.Span? && span.marker <= span.end
    ensures |positions| == |kept|
  {
    seq(|kept|, i requires 0 <= i < |kept| =>
      if kept[i] < span.marker then kept[i] else kept[i] + (span.end - span.marker))
  }

  /** The positions of the source that survive. */
  function Kept(s: string, marker: string): (kept: seq<nat>)
    decreases |s|
  {
    var span := FindSpan(s, marker);
    if span.None? then seq(|s|, i => i) else Before(span, Kept(Without(s, span), marker))
  }

  /** Some positions of a text, in order, and what stands there. */
  predicate Reads(s: string, kept: seq<nat>, r: string) {
    && |kept| == |r|
    && (forall i :: 0 <= i < |kept| ==> kept[i] < |s| && r[i] == s[kept[i]])
    && (forall i, j :: 0 <= i < j < |kept| ==> kept[i] < kept[j])
  }

  lemma ReadsBefore(s: string, span: Span, kept: seq<nat>, r: string)
    requires span.Span? && span.marker <= span.end <= |s| && Reads(Without(s, span), kept, r)
    ensures Reads(s, Before(span, kept), r)
  {
    var t, before := Without(s, span), Before(span, kept);
    forall i | 0 <= i < |kept| ensures before[i] < |s| && r[i] == s[before[i]] {
      assert t[kept[i]] == r[i];
    }
  }

  /** The result is the source with stretches deleted: the surviving characters in order. */
  lemma {:induction false} StripKeepsOrder(s: string, marker: string)
    ensures Reads(s, Kept(s, marker), Strip(s, marker))
    decreases |s|
  {
    var span := FindSpan(s, marker);
    if span.Span? {
      StripKeepsOrder(Without(s, span), marker);
      ReadsBefore(s, span, Kept(Without(s, span), marker), Strip(s, marker));
    }
  }

  // ---------------------------------------------------------------------
  // Balance
  // ---------------------------------------------------------------------

  lemma LevelBetween(s: string, a: nat, b: nat)
    requires a <= b <= |s|
    ensures Level(s[..b]) == Level(s[..a]) + Level(s[a..b])
  {
    assert s[..b] == s[..a] + s[a..b];
    LevelJoins(s[..a], s[a..b]);
  }

  /** From `cut` on, no position of the text is below its end. */
  ghost predicate EndsLow(s: string, cut: nat) {
    cut <= |s| && forall k :: cut <= k <= |s| ==> Level(s[..k]) >= Level(s)
  }

  /** Then every block that starts there closes. */
  lemma BlocksClose(s: string, cut: nat, start: nat, end: nat)
    requires EndsLow(s, cut) && cut <= start && IsBlock(s, start, end)
    ensures Level(s[start..end]) == 0
  {
    LevelBetween(s, start, end);
    assert s[..|s|] == s;
  }

  /** A text without opening braces weighs less for each closing one. */
  lemma {:induction false} ClosingOnly(t: string)
    requires '{' !in t
    ensures Level(t) <= 0 && (Level(t) == 0 <==> '}' !in t)
  {
    if t != "" {
      var n := |t| - 1;
      ClosingOnly(t[..n]);
      assert t == t[..n] + [t[n]];
    }
  }

  predicate HasNoBrace(t: string) { '{' !in t && '}' !in t }

  /** What stands between the marker and the block. */
  function Gap(s: string, marker: string, span: Span): string
    requires span.Span? && span.marker + |marker| <= span.brace <= |s|
  {
    s[span.marker + |marker|..span.brace]
  }

  /** A closed span weighs what stands between its marker and its block. */
  lemma SpanLevel(s: string, marker: string, span: Span, cut: nat)
    requires IsSpan(s, marker, span) && EndsLow(s, cut) && cut <= span.brace && HasNoBrace(marker)
    ensures Level(s[span.marker..span.end]) == Level(Gap(s, marker, span))
  {
    BlocksClose(s, cut, span.brace, span.end);
    ClosingOnly(marker);
    var gap, block := Gap(s, marker, span), s[span.brace..span.end];
    assert s[span.marker..span.end] == (marker + gap) + block;
    LevelJoins(marker + gap, block);
    LevelJoins(marker, gap);
  }

  lemma WithoutLevel(s: string, span: Span, k: nat)
    requires span.Span? && span.marker <= span.end <= k <= |s|
    ensures var r := Without(s, span); var j := k - (span.end - span.marker);
            j <= |r| && Level(r[..j]) == Level(s[..k]) - Level(s[span.marker..span.end])
  {
    var r, j := Without(s, span), k - (span.end - span.marker);
    assert r[..j] == s[..span.marker] + s[span.end..k];
    LevelJoins(s[..span.marker], s[span.end..k]);
    LevelBetween(s, span.marker, span.end);
    LevelBetween(s, span.end, k);
  }

  lemma WithoutTotal(s: string, span: Span)
    requires span.Span? && span.marker <= span.end <= |s|
    ensures Level(Without(s, span)) == Level(s) - Level(s[span.marker..span.end])
  {
    var head, cut, rest := s[..span.marker], s[span.marker..span.end], s[span.end..];
    assert s == (head + cut) + rest;
    LevelJoins(head + cut, rest);
    LevelJoins(head, cut);
    LevelJoins(head, rest);
  }

  lemma WholeText(s: string)
    ensures s[..|s|] == s
  {
  }

  /** A round keeps a balanced text balanced exactly when no closing brace stands between the
      marker and the block it deletes. */
  lemma RoundKeepsBalanceExactlyWhen(s: string, marker: string, span: Span)
    requires Balanced(s) && HasNoBrace(marker) && IsSpan(s, marker, span)
    ensures Balanced(Without(s, span)) <==> '}' !in Gap(s, marker, span)
  {
    var r := Without(s, span);
    SpanLevel(s, marker, span, 0);
    ClosingOnly(Gap(s, marker, span));
    WithoutTotal(s, span);
    if '}' !in Gap(s, marker, span) {
      forall k | 0 <= k <= |r| ensures Level(r[..k]) >= 0 {
        if k <= span.marker {
          assert r[..k] == s[..k];
        } else {
          WithoutLevel(s, span, k + (span.end - span.marker));
        }
      }
    }
  }

  /** No round of a run deletes a closing brace ahead of its block. */
  predicate CleanRun(s: string, marker: string)
    decreases |s|
  {
    var span := FindSpan(s, marker);
    span.Span? ==> '}' !in Gap(s, marker, span) && CleanRun(Without(s, span), marker)
  }

  /** Every marker ends after `cut`. */
  ghost predicate MarkersEndAfter(s: string, marker: string, cut: nat) {
    forall p :: 0 <= p <= |s| - |marker| && marker <= s[p..] ==> p + |marker| >= cut
  }

  /** A round moves the cut to where it deleted. */
  lemma NextCut(s: string, marker: string, span: Span, cut: nat)
    requires IsSpan(s, marker, span) && HasNoBrace(marker) && EndsLow(s, cut) && MarkersEndAfter(s, marker, cut)
    ensures var r := Without(s, span);
            EndsLow(r, span.marker) && Level(r) == Level(s) - Level(Gap(s, marker, span))
  {
    var r := Without(s, span);
    SpanLevel(s, marker, span, cut);
    WithoutTotal(s, span);
    forall k | span.marker <= k <= |r| ensures Level(r[..k]) >= Level(r) {
      WithoutLevel(s, span, k + (span.end - span.marker));
    }
  }

  lemma NoEarlierMarker(s: string, marker: string, at: nat, end: nat)
    requires at == Find(s, marker, 0) && at <= end <= |s|
    ensures MarkersEndAfter(s[..at] + s[end..], marker, at)
  {
    var r := s[..at] + s[end..];
    forall p | 0 <= p <= |r| - |marker| && marker <= r[p..] ensures p + |marker| >= at {
      if p + |marker| < at {
        assert forall j :: 0 <= j < |marker| ==> s[p..][j] == r[p..][j] == marker[j];
        FindIsLeast(s, marker, 0, p);
      }
    }
  }

  /** A run never lowers the level of a text that ends low, and keeps it exactly when it is clean. */
  lemma {:induction false} RunLevel(s: string, marker: string, cut: nat)
    requires HasNoBrace(marker) && EndsLow(s, cut) && MarkersEndAfter(s, marker, cut)
    ensures Level(Strip(s, marker)) >= Level(s)
    ensures Level(Strip(s, marker)) == Level(s) <==> CleanRun(s, marker)
    decreases |s|
  {
    var span := FindSpan(s, marker);
    if span.Span? {
      SpanIsSpan(s, marker);
      NextCut(s, marker, span, cut);
      NoEarlierMarker(s, marker, span.marker, span.end);
      ClosingOnly(Gap(s, marker, span));
      RunLevel(Without(s, span), marker, span.marker);
    }
  }

  /** A run keeps a balanced text balanced exactly when no round of it deletes a closing brace
      ahead of its block. */
  lemma BalanceKeptExactlyWhen(s: string, marker: string)
    requires Balanced(s) && HasNoBrace(marker)
    ensures Balanced(Strip(s, marker)) <==> CleanRun(s, marker)
  {
    RunLevel(s, marker, 0);
    if CleanRun(s, marker) { CleanRunKeepsBalance(s, marker); }
  }

  lemma {:induction false} CleanRunKeepsBalance(s: string, marker: string)
    requires Balanced(s) && HasNoBrace(marker) && CleanRun(s, marker)
    ensures Balanced(Strip(s, marker))
    decreases |s|
  {
    var span := FindSpan(s, marker);
    if span.Span? {
      SpanIsSpan(s, marker);
      RoundKeepsBalanceExactlyWhen(s, marker, span);
      CleanRunKeepsBalance(Without(s, span), marker);
    }
  }

  /** A marker in front of a closing brace takes that brace along with a block it does not own. */
  lemma ForeignBlockIsDeleted(marker: string)
    requires HasNoBrace(marker) && marker != ""
    ensures Balanced("{" + marker + "}{}") && !Balanced(Strip("{" + marker + "}{}", marker))
  {
    var s := "{" + marker + "}{}";
    ExampleIsBalanced(marker);
    ExampleSpan(marker);
    BalanceKeptExactlyWhen(s, marker);
  }

  lemma ExampleSpan(marker: string)
    requires HasNoBrace(marker) && marker != ""
    ensures var s := "{" + marker + "}{}"; var span := FindSpan(s, marker);
            span.Span? && '}' in Gap(s, marker, span)
  {
    var s, n := "{" + marker + "}{}", |marker|;
    assert s[1..][..n] == marker;
    FindIsLeast(s, marker, 0, 1);
    assert Find(s, marker, 0) == 1 by {
      assert s[0..][0] == '{' && marker[0] != '{';
    }
    FindCharIsLeast(s, '{', n + 1);
    assert s[n + 1] == '}' && s[n + 2] == '{';
    var span := FindSpan(s, marker);
    assert s[n + 1..][1] == '{';
    assert span.marker == 1 && span.brace > n + 1;
    assert Gap(s, marker, span)[0] == '}';
  }

  lemma ExampleIsBalanced(marker: string)
    requires HasNoBrace(marker)
    ensures Balanced("{" + marker + "}{}")
  {
    var s := "{" + marker + "}{}";
    forall k | 0 <= k <= |s| ensures Level(s[..k]) == if k == 0 || k == |marker| + 2 || k == |s| then 0 else 1 {
      ExampleLevel(marker, k);
    }
    WholeText(s);
  }

  lemma {:induction false} ExampleLevel(marker: string, k: nat)
    requires HasNoBrace(marker) && k <= |marker| + 4
    ensures var s := "{" + marker + "}{}";
            Level(s[..k]) == if k == 0 || k == |marker| + 2 || k == |s| then 0 else 1
  {
    var s := "{" + marker + "}{}";
    if k > 0 {
      ExampleLevel(marker, k - 1);
      assert s[..k][..k - 1] == s[..k - 1];
      assert s[k - 1] == if k == 1 then '{' else if k <= |marker| + 1 then marker[k - 2] else "}{}"[k - |marker| - 2];
    }
  }
}
