/**
 * The speaker-name highlighter of index.js: the markup of a chat paragraph
 * is split at a line break, the start of each segment that reads like
 * `Name:` is wrapped in a coloured span, and the segments are joined again.
 *
 * The two regular expressions are written out as string functions:
 *   - the split pattern `/<br\s*\/?>(?![^<]*<)/i`, run by the ECMAScript
 *     `split` loop (`SplitFrom`), where the negative lookahead admits a
 *     break tag only when no `<` follows it anywhere (`IsCut`);
 *   - the name pattern `/^\s*([^:<>"\n]+?):/`, with the backtracking of its
 *     greedy `\s*` (`MatchFrom`).
 */
module NameHighlighter {
  import opened Wrappers
  import opened JsString

  // ---------------------------------------------------------------------
  // The colour

  /** The colour used when the setting is empty or missing. */
  const DefaultColour: string := "#CFCFC5"

  /** `highlightNamesColor || '#CFCFC5'` */
  function Colour(setting: Option<string>): (colour: string)
    ensures colour != ""
    ensures colour == DefaultColour || setting == Some(colour)
    ensures setting.Some? && setting.value != "" ==> colour == setting.value
  {
    if setting.Some? && setting.value != "" then setting.value else DefaultColour
  }

  // ---------------------------------------------------------------------
  // Splitting at the last line break

  /** Where the break tag `<br\s*\/?>` (letters in either case) that starts
      at `q` ends, if one starts there. */
  function BreakTagEnd(s: string, q: nat): (e: Option<nat>)
    ensures e.Some? ==> q + 4 <= e.value <= |s|
  {
    if q + 3 <= |s| && s[q] == '<' && (s[q + 1] == 'b' || s[q + 1] == 'B') && (s[q + 2] == 'r' || s[q + 2] == 'R') then
      var w := SkipWs(s, q + 3);
      if w < |s| && s[w] == '>' then Some(w + 1)
      else if w + 1 < |s| && s[w] == '/' && s[w + 1] == '>' then Some(w + 2)
      else None
    else None
  }

  /** The ways the break-tag pattern can match at `q`, read off the pattern
      itself: `<`, `b` or `B`, `r` or `R`, white space up to `w`, then `>`
      or `/>`, the match ending at `e`. */
  predicate BreakTagMatches(s: string, q: nat, w: nat, e: nat) {
    && q + 3 <= w < e <= |s|
    && s[q] == '<' && (s[q + 1] == 'b' || s[q + 1] == 'B') && (s[q + 2] == 'r' || s[q + 2] == 'R')
    && (forall i :: q + 3 <= i < w ==> IsWs(s[i]))
    && ((e == w + 1 && s[w] == '>') || (e == w + 2 && s[w] == '/' && s[w + 1] == '>'))
  }

  /** `BreakTagEnd` finds a match of the pattern, and every match of the
      pattern at `q` ends where `BreakTagEnd` says: the match, and its end,
      are unique, whichever way the greedy `\s*` backtracks. */
  lemma BreakTagIsRegex(s: string, q: nat)
    ensures BreakTagEnd(s, q).Some? ==> exists w: nat :: BreakTagMatches(s, q, w, BreakTagEnd(s, q).value)
    ensures forall w: nat, e: nat :: BreakTagMatches(s, q, w, e) ==> BreakTagEnd(s, q) == Some(e)
  {
    if BreakTagEnd(s, q).Some? {
      var w := SkipWs(s, q + 3);
      SkipWsStops(s, q + 3);
      assert BreakTagMatches(s, q, w, BreakTagEnd(s, q).value);
    }
    forall w: nat, e: nat | BreakTagMatches(s, q, w, e)
      ensures BreakTagEnd(s, q) == Some(e)
    {
      assert !IsWs(s[w]);
      SkipWsUnique(s, q + 3, w);
    }
  }

  /** The split pattern matches at `q`: a break tag starts there and no `<`
      comes after it. */
  predicate IsCut(s: string, q: nat) {
    BreakTagEnd(s, q).Some? && '<' !in s[BreakTagEnd(s, q).value..]
  }

  /** The `split` loop of ECMAScript: the current segment starts at `p`, and
      the pattern is tried at `q`; a match closes the segment and the next
      one starts where the match ends. */
  function SplitFrom(s: string, p: nat, q: nat): (segs: seq<string>)
    requires p <= q <= |s|
    ensures |segs| > 0
    decreases |s| - q
  {
    if q == |s| then [s[p..]]
    else if IsCut(s, q) then [s[p..q]] + SplitFrom(s, BreakTagEnd(s, q).value, BreakTagEnd(s, q).value)
    else SplitFrom(s, p, q + 1)
  }

  /** `html.split(/<br\s*\/?>(?![^<]*<)/i)` */
  function BreakSplit(html: string): seq<string> {
    SplitFrom(html, 0, 0)
  }

  /** A break tag holds no `<` after its first character. */
  lemma BreakTagNoLt(s: string, q: nat)
    requires BreakTagEnd(s, q).Some?
    ensures s[q] == '<'
    ensures forall k :: q < k < BreakTagEnd(s, q).value ==> s[k] != '<'
  {
    SkipWsStops(s, q + 3);
  }

  /** A cut is at the last `<` of the text. */
  lemma CutIsLastLt(s: string, q: nat)
    requires IsCut(s, q)
    ensures q < |s| && s[q] == '<'
    ensures forall k :: q < k < |s| ==> s[k] != '<'
  {
    var e := BreakTagEnd(s, q).value;
    BreakTagNoLt(s, q);
    forall k | e <= k < |s|
      ensures s[k] != '<'
    {
      assert s[k] == s[e..][k - e];
    }
  }

  /** Conversely, a break tag at the last `<` of the text is a cut. */
  lemma LastLtTagIsCut(s: string, q: nat)
    requires BreakTagEnd(s, q).Some?
    requires forall k :: q < k < |s| ==> s[k] != '<'
    ensures IsCut(s, q)
  {
    var e := BreakTagEnd(s, q).value;
    forall i | 0 <= i < |s| - e
      ensures s[e..][i] != '<'
    {
      assert s[e..][i] == s[e + i];
    }
  }

  /** There is at most one cut. */
  lemma CutUnique(s: string, q1: nat, q2: nat)
    requires IsCut(s, q1) && IsCut(s, q2)
    ensures q1 == q2
  {
    CutIsLastLt(s, q1);
    CutIsLastLt(s, q2);
  }

  /** No break tag starts after the cut. */
  lemma CutIsLastTag(s: string, c: nat)
    requires IsCut(s, c)
    ensures forall q :: c < q < |s| ==> BreakTagEnd(s, q).None?
  {
    CutIsLastLt(s, c);
  }

  /** Without a cut from `q` on, the split loop closes one last segment. */
  lemma {:induction false} SplitNoCut(s: string, p: nat, q: nat)
    requires p <= q <= |s|
    requires forall k :: q <= k < |s| ==> !IsCut(s, k)
    ensures SplitFrom(s, p, q) == [s[p..]]
    decreases |s| - q
  {
    if q < |s| {
      SplitNoCut(s, p, q + 1);
    }
  }

  /** With the cut at `c`, the split loop from `q` closes a segment at `c`
      and a last one after the tag. */
  lemma {:induction false} SplitToCut(s: string, p: nat, q: nat, c: nat)
    requires p <= q <= c
    requires IsCut(s, c)
    ensures SplitFrom(s, p, q) == [s[p..c], s[BreakTagEnd(s, c).value..]]
    decreases c - q
  {
    CutIsLastLt(s, c);
    if q == c {
      var e := BreakTagEnd(s, c).value;
      forall k | e <= k < |s|
        ensures !IsCut(s, k)
      {
        if IsCut(s, k) {
          CutIsLastLt(s, k);
        }
      }
      SplitNoCut(s, e, e);
    } else {
      if IsCut(s, q) {
        CutUnique(s, q, c);
      }
      SplitToCut(s, p, q + 1, c);
    }
  }

  /** With the cut at `c`, the markup splits into the text before the tag
      and the text after it. */
  lemma BreakSplitAtCut(s: string, c: nat)
    requires IsCut(s, c)
    ensures BreakSplit(s) == [s[..c], s[BreakTagEnd(s, c).value..]]
  {
    SplitToCut(s, 0, 0, c);
  }

  /** Without a cut, the markup is one segment. */
  lemma BreakSplitNoCut(s: string)
    requires forall q :: 0 <= q < |s| ==> !IsCut(s, q)
    ensures BreakSplit(s) == [s]
  {
    SplitNoCut(s, 0, 0);
    assert s[0..] == s;
  }

  /** The split gives one segment, the whole markup, when no cut exists, and
      two otherwise, the tag between them being the last break tag. */
  lemma BreakSplitShape(s: string)
    ensures var segs := BreakSplit(s);
      && (|segs| == 1 || |segs| == 2)
      && (|segs| == 1 <==> forall q :: 0 <= q < |s| ==> !IsCut(s, q))
      && (|segs| == 1 ==> segs[0] == s)
      && (|segs| == 2 ==> IsCut(s, |segs[0]|) && segs == [s[..|segs[0]|], s[BreakTagEnd(s, |segs[0]|).value..]])
  {
    if c :| 0 <= c < |s| && IsCut(s, c) {
      BreakSplitAtCut(s, c);
    } else {
      BreakSplitNoCut(s);
    }
  }

  /** Joining the segments again with `<br>` gives back the markup with its
      last break tag written `<br>`. */
  lemma RejoinNormalisesTag(s: string, c: nat)
    requires IsCut(s, c)
    ensures Join(BreakSplit(s), "<br>") == s[..c] + "<br>" + s[BreakTagEnd(s, c).value..]
  {
    BreakSplitAtCut(s, c);
    var segs := BreakSplit(s);
    assert segs[..1] == [s[..c]];
  }

  // ---------------------------------------------------------------------
  // The speaker name at the start of a segment

  /** A character of the class `[^:<>"\n]`. */
  predicate IsNameChar(c: char) {
    c != ':' && c != '<' && c != '>' && c != '"' && c != '\n'
  }

  /** The first index at or after `k` whose character is not a name character, or `|s|`. */
  function NameEnd(s: string, k: nat): (j: nat)
    requires k <= |s|
    ensures k <= j <= |s|
    decreases |s| - k
  {
    if k < |s| && IsNameChar(s[k]) then NameEnd(s, k + 1) else k
  }

  /** `([^:<>"\n]+?):` matches at `k`: a name of at least one character and
      the colon right after it. The lazy name cannot pass a colon, so it is
      the run of name characters from `k`. */
  predicate NameColonAt(s: string, k: nat)
    requires k <= |s|
  {
    k < NameEnd(s, k) < |s| && s[NameEnd(s, k)] == ':'
  }

  /** The backtracking of the greedy `\s*`: it gives back its white space one
      character at a time, from `k` down to none, until the name and the
      colon match after it. */
  function MatchFrom(s: string, k: nat): (r: Option<nat>)
    requires k <= |s|
    ensures r.Some? ==> r.value <= k && NameColonAt(s, r.value)
    decreases k
  {
    if NameColonAt(s, k) then Some(k)
    else if k == 0 then None
    else MatchFrom(s, k - 1)
  }

  /** Where the name `/^\s*([^:<>"\n]+?):/` captures in `seg` starts, if the
      pattern matches. */
  function NameMatch(seg: string): (r: Option<nat>)
    ensures r.Some? ==> r.value <= LeadingWs(seg) && NameColonAt(seg, r.value)
  {
    MatchFrom(seg, LeadingWs(seg))
  }

  /** The ways the pattern can match, read off the pattern itself: `k`
      characters of white space, then a name of `n` name characters, then a
      colon. */
  predicate RegexMatches(seg: string, k: nat, n: nat) {
    && k + n < |seg| && n > 0
    && (forall i :: 0 <= i < k ==> IsWs(seg[i]))
    && (forall i :: k <= i < k + n ==> IsNameChar(seg[i]))
    && seg[k + n] == ':'
  }

  /** `NameEnd` passes over name characters only and stops at another
      character or at the end. */
  lemma {:induction false} NameEndStops(s: string, k: nat)
    requires k <= |s|
    ensures forall i :: k <= i < NameEnd(s, k) ==> IsNameChar(s[i])
    ensures NameEnd(s, k) == |s| || !IsNameChar(s[NameEnd(s, k)])
    decreases |s| - k
  {
    if k < |s| && IsNameChar(s[k]) {
      NameEndStops(s, k + 1);
    }
  }

  /** Over a run of name characters from `k` to `m`, `NameEnd` goes on from `m`. */
  lemma {:induction false} NameEndSkip(s: string, k: nat, m: nat)
    requires k <= m <= |s|
    requires forall i :: k <= i < m ==> IsNameChar(s[i])
    ensures NameEnd(s, k) == NameEnd(s, m)
    decreases m - k
  {
    if k < m {
      NameEndSkip(s, k + 1, m);
    }
  }

  /** White space at the start of the segment is at most `LeadingWs` long. */
  lemma WsPrefixBound(s: string, k: nat)
    requires k <= |s|
    requires forall i :: 0 <= i < k ==> IsWs(s[i])
    ensures k <= LeadingWs(s)
  {
    SkipWsStops(s, 0);
  }

  /** With `k` characters of white space, the pattern matches exactly when
      `NameColonAt` holds, and then only with the whole run of name
      characters as the name. */
  lemma RegexMatchesIff(seg: string, k: nat, n: nat)
    ensures RegexMatches(seg, k, n) <==> k <= LeadingWs(seg) && NameColonAt(seg, k) && k + n == NameEnd(seg, k)
  {
    SkipWsStops(seg, 0);
    if RegexMatches(seg, k, n) {
      WsPrefixBound(seg, k);
      NameEndSkip(seg, k, k + n);
      assert NameEnd(seg, k + n) == k + n;
    }
    if k <= LeadingWs(seg) && NameColonAt(seg, k) && k + n == NameEnd(seg, k) {
      NameEndStops(seg, k);
    }
  }

  /** Backtracking from `from` finds a match at `k` or later when there is one at `k`. */
  lemma {:induction false} MatchFromFinds(s: string, from: nat, k: nat)
    requires k <= from <= |s|
    requires NameColonAt(s, k)
    ensures MatchFrom(s, from).Some? && k <= MatchFrom(s, from).value
    decreases from
  {
    if !NameColonAt(s, from) {
      MatchFromFinds(s, from - 1, k);
    }
  }

  /** `NameMatch` is the pattern's match: the captured name and the white
      space before it are a way the pattern matches, the pattern matches
      only when `NameMatch` finds something, and of all its ways to match,
      `NameMatch` takes the one with the most white space, as the greedy
      `\s*` does. */
  lemma NameMatchIsRegex(seg: string)
    ensures NameMatch(seg).Some? ==> RegexMatches(seg, NameMatch(seg).value, NameEnd(seg, NameMatch(seg).value) - NameMatch(seg).value)
    ensures forall k: nat, n: nat :: RegexMatches(seg, k, n) ==> NameMatch(seg).Some? && k <= NameMatch(seg).value
  {
    if NameMatch(seg).Some? {
      var k := NameMatch(seg).value;
      RegexMatchesIff(seg, k, NameEnd(seg, k) - k);
    }
    forall k: nat, n: nat | RegexMatches(seg, k, n)
      ensures NameMatch(seg).Some? && k <= NameMatch(seg).value
    {
      RegexMatchesIff(seg, k, n);
      MatchFromFinds(seg, LeadingWs(seg), k);
    }
  }

  /** The name starts where the white space ends, except in one case: a
      colon right after the white space, where the greedy `\s*` gives back
      its last character and that white-space character becomes the name. */
  lemma NameMatchShape(seg: string)
    requires NameMatch(seg).Some?
    ensures var k, w := NameMatch(seg).value, LeadingWs(seg);
      || k == w
      || (k + 1 == w && seg[w] == ':' && IsWs(seg[k]) && seg[k] != '\n')
  {
    var k, w := NameMatch(seg).value, LeadingWs(seg);
    if k < w {
      SkipWsStops(seg, 0);
      var j := NameEnd(seg, k);
      NameEndStops(seg, k);
      NameEndSkip(seg, k, w);
      assert j == w;
      NameEndSkip(seg, w - 1, w);
      assert NameColonAt(seg, w - 1);
      assert MatchFrom(seg, w) == MatchFrom(seg, w - 1);
    }
  }

  // ---------------------------------------------------------------------
  // Rewriting a segment

  /** The opening tag of the span around a name. */
  function SpanOpen(colour: string): string {
    "<span" + " data-autoquote-highlight=\"true\"" + " style=\"color: " + colour + ";\">"
  }

  /** The colon and the closing tag after the name. */
  const SpanClose: string := ":</span>"

  /** The span that replaces `name:` and the white space before it. */
  function Span(name: string, colour: string): string {
    SpanOpen(colour) + name + SpanClose
  }

  /** `seg.replace(/^\s*([^:<>"\n]+?):/, (match, name) => span)`: the whole
      match, white space included, becomes the span; the rest is kept. */
  function RewriteSegment(seg: string, colour: string): string {
    match NameMatch(seg)
    case None => seg
    case Some(k) => Span(seg[k..NameEnd(seg, k)], colour) + seg[NameEnd(seg, k) + 1..]
  }

  /** A segment of white space, a name that starts with text, a colon and
      anything at all becomes the span around the name, followed by the rest. */
  lemma RewriteNamed(lead: string, name: string, rest: string, colour: string)
    requires forall i :: 0 <= i < |lead| ==> IsWs(lead[i])
    requires |name| > 0 && !IsWs(name[0])
    requires forall i :: 0 <= i < |name| ==> IsNameChar(name[i])
    ensures RewriteSegment(lead + name + ":" + rest, colour) == Span(name, colour) + rest
  {
    var seg := lead + name + ":" + rest;
    var k, j := |lead|, |lead| + |name|;
    SkipWsUnique(seg, 0, k);
    NameEndSkip(seg, k, j);
    assert NameEnd(seg, j) == j;
    assert NameColonAt(seg, k);
    assert seg[k..j] == name;
    assert seg[j + 1..] == rest;
  }

  /** A segment without a colon is left as it is. */
  lemma RewriteNoColon(seg: string, colour: string)
    requires ':' !in seg
    ensures RewriteSegment(seg, colour) == seg
  {
    if NameMatch(seg).Some? {
      assert false;
    }
  }

  /** A segment that starts with a tag never matches: it is left as it is. */
  lemma TagSegmentUnchanged(seg: string, colour: string)
    requires |seg| > 0 && seg[0] == '<'
    ensures NameMatch(seg).None?
    ensures RewriteSegment(seg, colour) == seg
  {
    assert LeadingWs(seg) == 0;
  }

  /** A segment with a name is rewritten to start with the span's tag. */
  lemma RewriteStartsWithTag(seg: string, colour: string)
    requires NameMatch(seg).Some?
    ensures |RewriteSegment(seg, colour)| > 0 && RewriteSegment(seg, colour)[0] == '<'
  {
    var k := NameMatch(seg).value;
    var j := NameEnd(seg, k);
    RewriteParts(seg, colour, k);
    var o := SpanOpen(colour);
    assert o[0] == '<';
    assert (o + seg[k..j] + SpanClose + seg[j + 1..])[0] == o[0];
  }

  /** Rewriting a rewritten segment changes nothing: the span starts with a tag. */
  lemma RewriteSegmentIdempotent(seg: string, colour: string)
    ensures RewriteSegment(RewriteSegment(seg, colour), colour) == RewriteSegment(seg, colour)
  {
    var r := RewriteSegment(seg, colour);
    if NameMatch(seg).Some? {
      RewriteStartsWithTag(seg, colour);
      TagSegmentUnchanged(r, colour);
    }
  }

  // ---------------------------------------------------------------------
  // The whole paragraph

  /** `segments.map(rewrite).join('<br>')` over the split markup. */
  function Highlight(html: string, colour: string): string {
    var segs := BreakSplit(html);
    Join(seq(|segs|, i requires 0 <= i < |segs| => RewriteSegment(segs[i], colour)), "<br>")
  }

  /** Without a cut, the paragraph is rewritten as one segment. */
  lemma HighlightNoCut(html: string, colour: string)
    requires forall q :: 0 <= q < |html| ==> !IsCut(html, q)
    ensures Highlight(html, colour) == RewriteSegment(html, colour)
  {
    BreakSplitNoCut(html);
  }

  /** With the cut at `c`, the text before the last break tag and the text
      after it are rewritten each on its own, and the tag becomes `<br>`. */
  lemma HighlightAtCut(html: string, colour: string, c: nat)
    requires IsCut(html, c)
    ensures Highlight(html, colour)
      == RewriteSegment(html[..c], colour) + "<br>" + RewriteSegment(html[BreakTagEnd(html, c).value..], colour)
  {
    BreakSplitAtCut(html, c);
    var segs := BreakSplit(html);
    var x, y := RewriteSegment(segs[0], colour), RewriteSegment(segs[1], colour);
    assert seq(|segs|, i requires 0 <= i < |segs| => RewriteSegment(segs[i], colour)) == [x, y];
    JoinTwo(x, y, "<br>");
  }

  // ---------------------------------------------------------------------
  // Highlighting twice

  /** The white-space run of `x + y` from `|x| + i` is that of `y` from `i`. */
  lemma SkipWsShift(x: string, y: string, i: nat)
    requires i <= |y|
    ensures SkipWs(x + y, |x| + i) == |x| + SkipWs(y, i)
  {
    SkipWsStops(y, i);
    var s := x + y;
    var l := |x| + SkipWs(y, i);
    forall k | |x| + i <= k < l
      ensures IsWs(s[k])
    {
      assert s[k] == y[k - |x|];
    }
    SkipWsUnique(s, |x| + i, l);
  }

  /** A break tag reads the same after text is put in front. */
  lemma BreakTagShift(x: string, y: string, q: nat)
    requires q <= |y|
    ensures BreakTagEnd(x + y, |x| + q) == (if BreakTagEnd(y, q).Some? then Some(|x| + BreakTagEnd(y, q).value) else None)
  {
    if q + 3 <= |y| {
      SkipWsShift(x, y, q + 3);
    }
  }

  /** Whether there is a cut in `y` does not change when text is put in front. */
  lemma CutShift(x: string, y: string, q: nat)
    requires q <= |y|
    ensures IsCut(x + y, |x| + q) <==> IsCut(y, q)
  {
    BreakTagShift(x, y, q);
    if BreakTagEnd(y, q).Some? {
      var e := BreakTagEnd(y, q).value;
      assert (x + y)[|x| + e..] == y[e..];
    }
  }

  /** Within and before a closing `:</span>` there is no cut. */
  lemma CutAfterClose(u: string, y: string, q: nat)
    requires IsCut(u + SpanClose + y, q)
    ensures |u| + |SpanClose| <= q && IsCut(y, q - |u| - |SpanClose|)
  {
    var s := u + SpanClose + y;
    var m := |u| + |SpanClose|;
    CutIsLastLt(s, q);
    assert s[|u| + 1] == '<';
    assert s[|u| + 2] == '/';
    assert s == (u + SpanClose) + y;
    CutShift(u + SpanClose, y, q - m);
  }

  /** Replacing the first `m` characters of markup without a cut by text
      that ends in a closing `:</span>` adds no cut. */
  lemma ClosedKeepsNoCut(u: string, s: string, m: nat)
    requires m <= |s|
    requires forall q :: 0 <= q < |s| ==> !IsCut(s, q)
    ensures forall q :: 0 <= q < |u + SpanClose + s[m..]| ==> !IsCut(u + SpanClose + s[m..], q)
  {
    var y := s[m..];
    assert s[..m] + y == s;
    forall q | 0 <= q < |u + SpanClose + y|
      ensures !IsCut(u + SpanClose + y, q)
    {
      if IsCut(u + SpanClose + y, q) {
        CutAfterClose(u, y, q);
        CutShift(s[..m], y, q - |u| - |SpanClose|);
      }
    }
  }

  /** A rewritten segment from markup without a cut holds no cut either. */
  lemma RewriteAddsNoCut(seg: string, colour: string)
    requires forall q :: 0 <= q < |seg| ==> !IsCut(seg, q)
    ensures forall q :: 0 <= q < |RewriteSegment(seg, colour)| ==> !IsCut(RewriteSegment(seg, colour), q)
  {
    if NameMatch(seg).Some? {
      var k := NameMatch(seg).value;
      var j := NameEnd(seg, k);
      RewriteParts(seg, colour, k);
      ClosedKeepsNoCut(SpanOpen(colour) + seg[k..j], seg, j + 1);
    }
  }

  /** White space at the start of `a` is unchanged by appending text that
      starts with something else. */
  lemma SkipWsExtend(a: string, t: string, i: nat)
    requires i <= |a|
    requires |t| > 0 && !IsWs(t[0])
    ensures SkipWs(a + t, i) == SkipWs(a, i)
  {
    SkipWsStops(a, i);
    var s := a + t;
    var l := SkipWs(a, i);
    forall k | i <= k < l
      ensures IsWs(s[k])
    {
      assert s[k] == a[k];
    }
    SkipWsUnique(s, i, l);
  }

  /** The run of name characters in `a` is unchanged by appending text that
      starts with something else. */
  lemma {:induction false} NameEndExtend(a: string, t: string, k: nat)
    requires k <= |a|
    requires |t| > 0 && !IsNameChar(t[0])
    ensures NameEnd(a + t, k) == NameEnd(a, k)
    decreases |a| - k
  {
    if k < |a| {
      assert (a + t)[k] == a[k];
      if IsNameChar(a[k]) {
        NameEndExtend(a, t, k + 1);
      }
    }
  }

  /** The backtracking search in `a` is unchanged by appending a tag. */
  lemma {:induction false} MatchFromExtend(a: string, t: string, k: nat)
    requires k <= |a|
    requires |t| > 0 && t[0] == '<'
    ensures MatchFrom(a + t, k) == MatchFrom(a, k)
    decreases k
  {
    NameEndExtend(a, t, k);
    var j := NameEnd(a, k);
    if j < |a| {
      assert (a + t)[j] == a[j];
    }
    if k > 0 {
      MatchFromExtend(a, t, k - 1);
    }
  }

  /** Whether and where the name pattern matches in `a` is unchanged by
      appending a tag. */
  lemma NameMatchExtend(a: string, t: string)
    requires |t| > 0 && t[0] == '<'
    ensures NameMatch(a + t) == NameMatch(a)
  {
    SkipWsExtend(a, t, 0);
    MatchFromExtend(a, t, LeadingWs(a));
  }

  /** Highlighting a paragraph with no cut twice is highlighting it once. */
  lemma HighlightTwiceNoCut(html: string, colour: string)
    requires forall q :: 0 <= q < |html| ==> !IsCut(html, q)
    ensures Highlight(Highlight(html, colour), colour) == Highlight(html, colour)
  {
    HighlightNoCut(html, colour);
    var r := RewriteSegment(html, colour);
    RewriteAddsNoCut(html, colour);
    HighlightNoCut(r, colour);
    RewriteSegmentIdempotent(html, colour);
  }

  /** A `<br>` with no `<` after it separates two segments rewritten on
      their own. */
  lemma HighlightLastBreak(pre: string, post: string, colour: string)
    requires '<' !in post
    ensures Highlight(pre + "<br>" + post, colour) == RewriteSegment(pre, colour) + "<br>" + RewriteSegment(post, colour)
  {
    var t := "<br>" + post;
    assert SkipWs(t, 3) == 3;
    assert t[4..] == post;
    assert IsCut(t, 0);
    CutShift(pre, t, 0);
    var html := pre + "<br>" + post;
    assert html == pre + t;
    HighlightAtCut(html, colour, |pre|);
    assert html[..|pre|] == pre;
    assert html[|pre| + 4..] == post;
  }

  /** After the cut, when the last segment had no name: the rejoined
      `<br>` is the cut again, and each side is already rewritten. */
  lemma HighlightTwicePlainTail(a: string, b: string, colour: string)
    requires '<' !in b
    requires NameMatch(b).None?
    ensures var o := RewriteSegment(a, colour) + "<br>" + b;
      Highlight(o, colour) == o
  {
    HighlightLastBreak(RewriteSegment(a, colour), b, colour);
    RewriteSegmentIdempotent(a, colour);
  }

  /** Markup whose last `<` is that of a closing `:</span>` has no cut. */
  lemma ClosedNoCut(u: string, y: string)
    requires '<' !in y
    ensures forall q :: 0 <= q < |u + SpanClose + y| ==> !IsCut(u + SpanClose + y, q)
  {
    forall q | 0 <= q < |u + SpanClose + y|
      ensures !IsCut(u + SpanClose + y, q)
    {
      if IsCut(u + SpanClose + y, q) {
        CutAfterClose(u, y, q);
        CutIsLastLt(y, q - |u| - |SpanClose|);
      }
    }
  }

  /** After the cut, when the last segment had a name: the rejoined markup
      has no cut any more, for its last `<` is that of the closing tag. */
  lemma NamedTailNoCut(ra: string, b: string, colour: string)
    requires '<' !in b
    requires NameMatch(b).Some?
    ensures var o := ra + ("<br>" + RewriteSegment(b, colour));
      forall q :: 0 <= q < |o| ==> !IsCut(o, q)
  {
    var k := NameMatch(b).value;
    var j := NameEnd(b, k);
    var v, y := SpanOpen(colour) + b[k..j], b[j + 1..];
    SuffixKeepsAbsent(b, j + 1, '<');
    ClosedNoCut(ra + "<br>" + v, y);
    RewriteParts(b, colour, k);
    Reassociate(ra, "<br>", v, SpanClose, y);
  }

  /** A suffix holds no character the whole text does not hold. */
  lemma SuffixKeepsAbsent(s: string, i: nat, c: char)
    requires i <= |s| && c !in s
    ensures c !in s[i..]
  {
    forall k | 0 <= k < |s| - i
      ensures s[i..][k] != c
    {
      assert s[i..][k] == s[i + k];
    }
  }

  /** The parts of a segment rewritten at `k`. */
  lemma RewriteParts(seg: string, colour: string, k: nat)
    requires NameMatch(seg) == Some(k)
    ensures RewriteSegment(seg, colour)
      == SpanOpen(colour) + seg[k..NameEnd(seg, k)] + SpanClose + seg[NameEnd(seg, k) + 1..]
  {
  }

  /** ... and it is left as it is when rewritten as one segment. */
  lemma HighlightTwiceNamedTail(a: string, b: string, colour: string)
    requires '<' !in b
    requires NameMatch(b).Some?
    ensures var o := RewriteSegment(a, colour) + "<br>" + RewriteSegment(b, colour);
      Highlight(o, colour) == o
  {
    var ra, t := RewriteSegment(a, colour), "<br>" + RewriteSegment(b, colour);
    assert ra + "<br>" + RewriteSegment(b, colour) == ra + t;
    NamedTailNoCut(ra, b, colour);
    HighlightNoCut(ra + t, colour);
    RewrittenHeadFixed(a, t, colour);
  }

  /** A rewritten segment followed by a tag is left as it is when rewritten
      again as one segment. */
  lemma RewrittenHeadFixed(a: string, t: string, colour: string)
    requires |t| > 0 && t[0] == '<'
    ensures var o := RewriteSegment(a, colour) + t;
      RewriteSegment(o, colour) == o
  {
    var o := RewriteSegment(a, colour) + t;
    if NameMatch(a).Some? {
      RewriteStartsWithTag(a, colour);
      TagSegmentUnchanged(o, colour);
    } else {
      NameMatchExtend(a, t);
    }
  }

  /** Highlighting is idempotent: the markup it writes is left alone when it
      runs again, so a paragraph is never wrapped twice. */
  lemma HighlightIdempotent(html: string, colour: string)
    ensures Highlight(Highlight(html, colour), colour) == Highlight(html, colour)
  {
    if c :| 0 <= c < |html| && IsCut(html, c) {
      var a, b := html[..c], html[BreakTagEnd(html, c).value..];
      HighlightAtCut(html, colour, c);
      CutIsLastLt(html, c);
      assert '<' !in b by {
        forall i | 0 <= i < |b|
          ensures b[i] != '<'
        {
          assert b[i] == html[BreakTagEnd(html, c).value + i];
        }
      }
      if NameMatch(b).Some? {
        HighlightTwiceNamedTail(a, b, colour);
      } else {
        HighlightTwicePlainTail(a, b, colour);
      }
    } else {
      HighlightTwiceNoCut(html, colour);
    }
  }

  // ---------------------------------------------------------------------
  // Examples

  // Each example takes its literal text as a parameter fixed by a
  // `requires`, so the verifier unfolds the definitions on that text only
  // where the proof asks it to; the statement is the same as for the
  // literal itself.

  /** Markup without `<` has no cut. */
  lemma NoLtNoCut(s: string)
    requires '<' !in s
    ensures forall q :: 0 <= q < |s| ==> !IsCut(s, q)
  {
    forall q | 0 <= q < |s|
      ensures !IsCut(s, q)
    {
      if IsCut(s, q) {
        CutIsLastLt(s, q);
      }
    }
  }

  /** A paragraph without tags that starts with a name and a colon has that
      name highlighted and the rest kept. */
  lemma HighlightSpeaker(name: string, rest: string, colour: string)
    requires |name| > 0 && !IsWs(name[0])
    requires forall i :: 0 <= i < |name| ==> IsNameChar(name[i])
    requires '<' !in rest
    ensures Highlight(name + ":" + rest, colour) == Span(name, colour) + rest
  {
    var html := name + ":" + rest;
    forall i | 0 <= i < |html|
      ensures html[i] != '<'
    {
      if i < |name| {
        assert html[i] == name[i];
      } else if i > |name| {
        assert html[i] == rest[i - |name| - 1];
      }
    }
    NoLtNoCut(html);
    HighlightNoCut(html, colour);
    assert html == "" + name + ":" + rest;
    RewriteNamed("", name, rest, colour);
  }

  /** `Alice: hi` becomes the span around `Alice:` followed by ` hi`. */
  lemma ExampleSpeaker(name: string, rest: string)
    requires name == "Alice" && rest == " hi"
    ensures Highlight(name + ":" + rest, DefaultColour) == Span(name, DefaultColour) + rest
  {
    HighlightSpeaker(name, rest, DefaultColour);
  }

  /** In `<i>x</i><br>Bob: yo` the last break tag is the cut: only the
      text after it starts with a name. */
  lemma ExampleAfterBreak(pre: string, post: string)
    requires pre == "<i>x</i>" && post == "Bob: yo"
    ensures Highlight(pre + "<br>" + post, DefaultColour) == pre + "<br>" + Span("Bob", DefaultColour) + " yo"
  {
    HighlightLastBreak(pre, post, DefaultColour);
    TagSegmentUnchanged(pre, DefaultColour);
    assert post == "" + "Bob" + ":" + " yo";
    RewriteNamed("", "Bob", " yo", DefaultColour);
  }

  // ---------------------------------------------------------------------
  // Proof helpers: identities on sequences, each a hint for one step of a
  // proof above, not a statement about the extension

  /** Two segments are joined with one separator. */
  lemma JoinTwo(x: string, y: string, sep: string)
    ensures Join([x, y], sep) == x + sep + y
  {
    assert [x, y][1..] == [y];
  }

  /** Regrouping five concatenated strings. */
  lemma Reassociate(a: string, b: string, c: string, d: string, e: string)
    ensures a + (b + (c + d + e)) == a + b + c + d + e
  {
  }
}
