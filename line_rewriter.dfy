/**
 * `modifyLine` of index.js: one line of typed chat input becomes quoted
 * speech and asterisk-marked actions.
 *
 * Every `"` is deleted, the rest is split on `*`, and the pieces alternate
 * between plain speech (even positions, the first one included) and
 * action (odd positions). A plain piece keeps its surrounding white space
 * and has its trimmed text put in quotes when that text is not empty; an
 * action piece is put back between asterisks as it is. When asterisks are
 * switched off every `*` is deleted from the result. A newline ends the line.
 *
 * `RewriteLine` is the specification, `ModifyLine` the loop of the source
 * proved against it, and the lemmas state what the rewrite promises.
 */
module LineRewriter {
  import opened JsString

  /** The trimmed text in quotes when it is non-empty (a truthy string), else nothing. */
  function Quoted(core: string): string {
    if core != "" then "\"" + core + "\"" else ""
  }

  /** `chunk.slice(0, chunk.length - chunk.trimStart().length)` */
  function LeadingSpaces(chunk: string): string {
    chunk[..|chunk| - |TrimStart(chunk)|]
  }

  /** `chunk.slice(chunk.trimEnd().length, chunk.length)` */
  function RemainingSpaces(chunk: string): string {
    chunk[|TrimEnd(chunk)|..]
  }

  /** What a plain-speech chunk contributes to the output. */
  function PlainChunk(chunk: string): string {
    LeadingSpaces(chunk) + Quoted(Trim(chunk)) + RemainingSpaces(chunk)
  }

  /** What an action chunk contributes to the output. */
  function ActionChunk(chunk: string): string {
    "*" + chunk + "*"
  }

  /** Whether the chunk at position `i` of the split is an action: the
      source's `inside` flag, off for the first chunk and flipped after
      every chunk. */
  predicate Inside(i: nat) {
    i > 0 && !Inside(i - 1)
  }

  /** The chunk at position `i` of the split: plain outside, action inside. */
  function RenderChunk(i: nat, chunk: string): string {
    if Inside(i) then ActionChunk(chunk) else PlainChunk(chunk)
  }

  /** The concatenation of the rendered chunks, in order. */
  function Rewritten(chunks: seq<string>): string
    decreases |chunks|
  {
    if |chunks| == 0 then ""
    else Rewritten(chunks[..|chunks| - 1]) + RenderChunk(|chunks| - 1, chunks[|chunks| - 1])
  }

  /** The chunks of a line: quotes deleted, then split on `*`. */
  function Chunks(line: string): seq<string> {
    Split(RemoveAll(line, '"'), '*')
  }

  /** The line as `modifyLine` returns it. */
  function RewriteLine(line: string, asteriskEnabled: bool): string {
    var body := Rewritten(Chunks(line));
    (if asteriskEnabled then body else RemoveAll(body, '*')) + "\n"
  }

  /** The loop of `modifyLine`, with the asterisk setting as a parameter. */
  method ModifyLine(inputLine: string, asteriskEnabled: bool) returns (output: string)
    ensures output == RewriteLine(inputLine, asteriskEnabled)
  {
    var line := RemoveAll(inputLine, '"');
    var arr := Split(line, '*');
    output := "";
    var inside := false;
    for i := 0 to |arr|
      invariant inside == Inside(i)
      invariant output == Rewritten(arr[..i])
    {
      var chunk := arr[i];
      var before := output;
      if !inside {
        var trimmed := Trim(chunk);
        if trimmed != "" {
          trimmed := "\"" + trimmed + "\"";
        }
        var leadingSpaces := chunk[..|chunk| - |TrimStart(chunk)|];
        output := output + (leadingSpaces + trimmed);
        var remainingSpaces := chunk[|TrimEnd(chunk)|..];
        output := output + remainingSpaces;
        PlainStep(arr, i, before);
        inside := true;
      } else {
        chunk := "*" + chunk + "*";
        output := output + chunk;
        ActionStep(arr, i, before);
        inside := false;
      }
    }
    assert arr[..|arr|] == arr;
    if !asteriskEnabled {
      output := RemoveAll(output, '*');
    }
    output := output + "\n";
  }

  /** The plain branch of `ModifyLine` appends the rendering of chunk `i`. */
  lemma PlainStep(arr: seq<string>, i: nat, before: string)
    requires i < |arr| && !Inside(i) && before == Rewritten(arr[..i])
    ensures before + (arr[i][..|arr[i]| - |TrimStart(arr[i])|] + Quoted(Trim(arr[i]))) + arr[i][|TrimEnd(arr[i])|..]
         == Rewritten(arr[..i + 1])
  {
    assert arr[..i + 1][..i] == arr[..i];
    PlainSteps(before, arr[i]);
  }

  /** The action branch of `ModifyLine` appends the rendering of chunk `i`. */
  lemma ActionStep(arr: seq<string>, i: nat, before: string)
    requires i < |arr| && Inside(i) && before == Rewritten(arr[..i])
    ensures before + ("*" + arr[i] + "*") == Rewritten(arr[..i + 1])
  {
    assert arr[..i + 1][..i] == arr[..i];
  }

  /** The two appends of the plain branch of `ModifyLine` append the plain chunk. */
  lemma PlainSteps(before: string, chunk: string)
    ensures before + (chunk[..|chunk| - |TrimStart(chunk)|] + Quoted(Trim(chunk))) + chunk[|TrimEnd(chunk)|..]
         == before + PlainChunk(chunk)
  {
    var l, t, r := LeadingSpaces(chunk), Quoted(Trim(chunk)), RemainingSpaces(chunk);
    assert before + (l + t) + r == before + (l + t + r);
  }

  // ---------------------------------------------------------------------
  // One chunk

  /** A chunk with some text is its leading white space, its trimmed text
      and its remaining white space; a blank chunk (all white space) comes
      out twice, because its leading and its remaining white space are both
      the whole chunk. */
  lemma PlainChunkParts(chunk: string)
    ensures Trim(chunk) == "" ==> PlainChunk(chunk) == chunk + chunk
    ensures Trim(chunk) != "" ==> chunk == LeadingSpaces(chunk) + Trim(chunk) + RemainingSpaces(chunk)
  {
    TrimParts(chunk);
    var l, e := LeadingWs(chunk), TextEnd(chunk);
    assert |TrimStart(chunk)| == |chunk| - l;
    assert |TrimEnd(chunk)| == e;
    if l == |chunk| {
      assert LeadingSpaces(chunk) == chunk;
      assert RemainingSpaces(chunk) == chunk;
      assert Quoted(Trim(chunk)) == "";
    } else {
      assert LeadingSpaces(chunk) == chunk[..l];
      assert RemainingSpaces(chunk) == chunk[e..];
    }
  }

  /** The characters of a rendered plain chunk: those of the chunk and two
      quotes, or, for a blank chunk, those of the chunk twice. */
  lemma PlainChunkCounts(chunk: string)
    ensures multiset(PlainChunk(chunk)) ==
      if Trim(chunk) == "" then multiset(chunk) + multiset(chunk)
      else multiset(chunk) + multiset{'"', '"'}
  {
    PlainChunkParts(chunk);
    if Trim(chunk) != "" {
      var l, t, r := LeadingSpaces(chunk), Trim(chunk), RemainingSpaces(chunk);
      assert multiset(chunk) == multiset(l) + multiset(t) + multiset(r);
      assert multiset(Quoted(t)) == multiset{'"'} + multiset(t) + multiset{'"'};
      assert multiset(PlainChunk(chunk)) == multiset(l) + multiset(Quoted(t)) + multiset(r);
    }
  }

  /** A plain chunk made of white space, text that neither starts nor ends
      with white space, and white space renders as that text in quotes
      between the same white space. */
  lemma PlainChunkOf(lead: string, text: string, trail: string)
    requires forall k :: 0 <= k < |lead| ==> IsWs(lead[k])
    requires forall k :: 0 <= k < |trail| ==> IsWs(trail[k])
    requires |text| > 0 && !IsWs(text[0]) && !IsWs(text[|text| - 1])
    ensures PlainChunk(lead + text + trail) == lead + "\"" + text + "\"" + trail
  {
    var s := lead + text + trail;
    var l, e := |lead|, |lead| + |text|;
    assert s[l] == text[0] && s[e - 1] == text[|text| - 1];
    assert forall k :: 0 <= k < l ==> s[k] == lead[k];
    assert forall k :: e <= k < |s| ==> s[k] == trail[k - e];
    SkipWsUnique(s, 0, l);
    SkipWsBackUnique(s, |s|, e);
    TrimParts(s);
    assert s[..l] == lead && s[l..e] == text && s[e..] == trail;
    PlainChunkExplicit(s);
  }

  /** A plain chunk adds no character but quotes. */
  lemma PlainChunkAvoids(chunk: string, x: char)
    requires x != '"' && x !in chunk
    ensures x !in PlainChunk(chunk)
  {
    PlainChunkCounts(chunk);
    assert multiset(PlainChunk(chunk))[x] == 0;
  }

  // ---------------------------------------------------------------------
  // A sequence of chunks

  /** How many plain (even-position) chunks have non-blank text. */
  function NonBlankPlain(chunks: seq<string>): nat
    decreases |chunks|
  {
    if |chunks| == 0 then 0
    else
      var i := |chunks| - 1;
      NonBlankPlain(chunks[..i]) + (if !Inside(i) && Trim(chunks[i]) != "" then 1 else 0)
  }

  /** With no quotes in the chunks, every quote of the output is one of the
      two put around a non-blank plain chunk. */
  lemma {:induction false} RewrittenQuotes(chunks: seq<string>)
    requires forall i :: 0 <= i < |chunks| ==> '"' !in chunks[i]
    ensures multiset(Rewritten(chunks))['"'] == 2 * NonBlankPlain(chunks)
  {
    if |chunks| > 0 {
      var i := |chunks| - 1;
      RewrittenQuotes(chunks[..i]);
      if !Inside(i) {
        PlainChunkCounts(chunks[i]);
      }
    }
  }

  /** How many of the positions below `n` hold an action chunk. */
  function Actions(n: nat): nat {
    if n == 0 then 0 else Actions(n - 1) + (if Inside(n - 1) then 1 else 0)
  }

  /** The `inside` flag is on exactly at the odd positions, so half of the
      positions below `n`, rounded down, hold an action chunk. */
  lemma {:induction false} InsideParity(n: nat)
    ensures Inside(n) <==> n % 2 == 1
    ensures Actions(n) == n / 2
  {
    if n > 0 {
      InsideParity(n - 1);
    }
  }

  /** With no asterisks in the chunks, the output has exactly two asterisks
      per action chunk. */
  lemma {:induction false} RewrittenAsterisks(chunks: seq<string>)
    requires forall i :: 0 <= i < |chunks| ==> '*' !in chunks[i]
    ensures multiset(Rewritten(chunks))['*'] == 2 * Actions(|chunks|)
  {
    if |chunks| > 0 {
      var i := |chunks| - 1;
      RewrittenAsterisks(chunks[..i]);
      if !Inside(i) {
        PlainChunkCounts(chunks[i]);
      }
    }
  }

  /** A character other than `"` and `*` that no chunk holds is not in the output. */
  lemma {:induction false} RewrittenAvoids(chunks: seq<string>, x: char)
    requires x != '"' && x != '*'
    requires forall i :: 0 <= i < |chunks| ==> x !in chunks[i]
    ensures x !in Rewritten(chunks)
  {
    if |chunks| > 0 {
      var i := |chunks| - 1;
      RewrittenAvoids(chunks[..i], x);
      if !Inside(i) {
        PlainChunkAvoids(chunks[i], x);
      }
      assert x !in RenderChunk(i, chunks[i]);
    }
  }

  /** Rendering a prefix of the chunks gives a prefix of the output. */
  lemma {:induction false} RewrittenPrefix(chunks: seq<string>, j: nat)
    requires j <= |chunks|
    ensures Rewritten(chunks[..j]) <= Rewritten(chunks)
  {
    if j < |chunks| {
      var prev := chunks[..|chunks| - 1];
      assert prev[..j] == chunks[..j];
      RewrittenPrefix(prev, j);
    } else {
      assert chunks[..j] == chunks;
    }
  }

  /** Every action chunk appears in the output verbatim between two
      asterisks, right after the rendering of the chunks before it. */
  lemma ActionChunkVerbatim(chunks: seq<string>, i: nat)
    requires i < |chunks| && Inside(i)
    ensures Rewritten(chunks[..i]) + ActionChunk(chunks[i]) <= Rewritten(chunks)
  {
    assert chunks[..i + 1][..i] == chunks[..i];
    RewrittenPrefix(chunks, i + 1);
  }

  /** A plain chunk with no quotes that is empty or has non-blank text
      loses exactly the added quotes when quotes are deleted. */
  lemma PlainChunkUnquoted(chunk: string)
    requires '"' !in chunk
    requires chunk == "" || Trim(chunk) != ""
    ensures RemoveAll(PlainChunk(chunk), '"') == chunk
  {
    PlainChunkParts(chunk);
    if chunk != "" {
      var l, t, r := LeadingSpaces(chunk), Trim(chunk), RemainingSpaces(chunk);
      assert multiset(chunk) == multiset(l) + multiset(t) + multiset(r);
      assert '"' !in l && '"' !in t && '"' !in r by {
        assert multiset(chunk)['"'] == 0;
      }
      RemoveAllAppend(l + Quoted(t), r, '"');
      RemoveAllAppend(l, Quoted(t), '"');
      QuotedUnquoted(t);
      RemoveAllAbsent(l, '"');
      RemoveAllAbsent(r, '"');
    } else {
      assert PlainChunk(chunk) == "";
    }
  }

  /** Deleting the quotes of quoted text without quotes gives back the text. */
  lemma QuotedUnquoted(t: string)
    requires '"' !in t && t != ""
    ensures RemoveAll(Quoted(t), '"') == t
  {
    var q := "\"";
    assert RemoveAll(q, '"') == "";
    RemoveAllAppend(q + t, q, '"');
    RemoveAllAppend(q, t, '"');
    RemoveAllAbsent(t, '"');
    assert "" + t + "" == t;
  }

  /** Deleting the quotes of the output gives back the chunks joined with
      `*`, plus the asterisk that closes a trailing action chunk, provided
      no plain chunk is non-empty and blank (those come out twice). */
  lemma {:induction false} RewrittenUnquoted(chunks: seq<string>)
    requires |chunks| > 0
    requires forall i :: 0 <= i < |chunks| ==> '"' !in chunks[i]
    requires forall i :: 0 <= i < |chunks| && !Inside(i) ==> chunks[i] == "" || Trim(chunks[i]) != ""
    ensures RemoveAll(Rewritten(chunks), '"')
         == Join(chunks, "*") + (if Inside(|chunks| - 1) then "*" else "")
  {
    var n := |chunks| - 1;
    var prev, c := chunks[..n], chunks[n];
    LastSplit(chunks);
    if n == 0 {
      RenderUnquoted(0, c);
      assert Rewritten(chunks) == "" + RenderChunk(0, c) == RenderChunk(0, c);
      assert Join(chunks, "*") == c;
    } else {
      RewrittenUnquoted(prev);
      UnquotedStep(prev, c);
    }
  }

  /** The inductive step of `RewrittenUnquoted`: one more chunk. */
  lemma UnquotedStep(prev: seq<string>, c: string)
    requires |prev| > 0
    requires RemoveAll(Rewritten(prev), '"') == Join(prev, "*") + (if Inside(|prev| - 1) then "*" else "")
    requires '"' !in c
    requires Inside(|prev|) || c == "" || Trim(c) != ""
    ensures RemoveAll(Rewritten(prev + [c]), '"') == Join(prev + [c], "*") + (if Inside(|prev|) then "*" else "")
  {
    var n := |prev|;
    RewrittenSnoc(prev, c);
    JoinSnoc(prev, c, "*");
    RenderUnquoted(n, c);
    UnquotedGlue(Rewritten(prev), RenderChunk(n, c), Join(prev, "*"), c, Inside(n));
  }

  /** Deleting the quotes of a rendered chunk without quotes gives the
      chunk back, between asterisks when it is an action. */
  lemma RenderUnquoted(i: nat, c: string)
    requires '"' !in c
    requires Inside(i) || c == "" || Trim(c) != ""
    ensures RemoveAll(RenderChunk(i, c), '"') == if Inside(i) then ActionChunk(c) else c
  {
    if Inside(i) {
      assert '"' !in ActionChunk(c);
      RemoveAllAbsent(ActionChunk(c), '"');
    } else {
      PlainChunkUnquoted(c);
    }
  }

  /** Appending a rendered chunk to the output appends, once quotes are
      deleted, a separator and the chunk, plus an asterisk when it is an action. */
  lemma UnquotedGlue(out: string, render: string, joined: string, c: string, inside: bool)
    requires RemoveAll(out, '"') == joined + (if inside then "" else "*")
    requires RemoveAll(render, '"') == if inside then ActionChunk(c) else c
    ensures RemoveAll(out + render, '"') == joined + "*" + c + (if inside then "*" else "")
  {
    RemoveAllAppend(out, render, '"');
  }

  /** Rendering one more chunk appends its rendering. */
  lemma RewrittenSnoc(prev: seq<string>, c: string)
    ensures Rewritten(prev + [c]) == Rewritten(prev) + RenderChunk(|prev|, c)
  {
    var s := prev + [c];
    assert |s| - 1 == |prev|;
    assert s[..|s| - 1] == prev;
    assert s[|s| - 1] == c;
  }

  // ---------------------------------------------------------------------
  // One line

  /** The output always ends with a newline, and an empty line gives
      exactly a newline. */
  lemma RewriteLineNewline(line: string, asteriskEnabled: bool)
    ensures var r := RewriteLine(line, asteriskEnabled);
      |r| > 0 && r[|r| - 1] == '\n' && (line == "" ==> r == "\n")
  {
    if line == "" {
      assert RemoveAll(line, '"') == "";
      assert Chunks(line) == [""];
      assert Trim("") == "";
      assert PlainChunk("") == "";
      assert Rewritten([""]) == "" + RenderChunk(0, "");
      assert RemoveAll("", '*') == "";
    }
  }

  /** A line without newlines gives an output with exactly one. */
  lemma RewriteLineSingleNewline(line: string, asteriskEnabled: bool)
    requires '\n' !in line
    ensures multiset(RewriteLine(line, asteriskEnabled))['\n'] == 1
  {
    var l := RemoveAll(line, '"');
    RemoveAllKeepsAbsent(line, '"', '\n');
    SplitKeepsAbsent(l, '*', '\n');
    var body := Rewritten(Split(l, '*'));
    RewrittenAvoids(Split(l, '*'), '\n');
    RemoveAllKeepsAbsent(body, '*', '\n');
    var b := if asteriskEnabled then body else RemoveAll(body, '*');
    NewlineCount(b, '\n');
  }

  /** Ending a string with a newline adds one newline and nothing else. */
  lemma NewlineCount(b: string, x: char)
    ensures multiset(b + "\n")[x] == multiset(b)[x] + (if x == '\n' then 1 else 0)
  {
    assert multiset(b + "\n") == multiset(b) + multiset{'\n'};
  }

  /** The number of quotes in the output is twice the number of non-blank
      plain chunks: none of the input's quotes survive. */
  lemma RewriteLineQuotes(line: string, asteriskEnabled: bool)
    ensures multiset(RewriteLine(line, asteriskEnabled))['"'] == 2 * NonBlankPlain(Chunks(line))
  {
    var chunks := Chunks(line);
    var body := Rewritten(chunks);
    SplitKeepsAbsent(RemoveAll(line, '"'), '*', '"');
    RewrittenQuotes(chunks);
    RemoveAllCounts(body, '*');
    var b := if asteriskEnabled then body else RemoveAll(body, '*');
    assert multiset(b)['"'] == multiset(body)['"'];
    NewlineCount(b, '"');
  }

  /** With asterisks on, the output has twice as many asterisks as there
      are action chunks: the input's count when it is even, one more when
      it is odd (the dangling action chunk gets closed). */
  lemma RewriteLineAsterisks(line: string)
    ensures multiset(RewriteLine(line, true))['*'] == 2 * ((multiset(line)['*'] + 1) / 2)
  {
    var l := RemoveAll(line, '"');
    RemoveAllCounts(line, '"');
    assert multiset(l)['*'] == multiset(line)['*'];
    SplitCount(l, '*');
    var chunks := Split(l, '*');
    RewrittenAsterisks(chunks);
    InsideParity(|chunks|);
    NewlineCount(Rewritten(chunks), '*');
  }

  /** With asterisks off, the output has no asterisk and is the output with
      asterisks on, with every asterisk deleted. */
  lemma AsteriskOffStripsAll(line: string)
    ensures '*' !in RewriteLine(line, false)
    ensures RewriteLine(line, false) == RemoveAll(RewriteLine(line, true), '*')
  {
    var body := Rewritten(Chunks(line));
    RemoveAllAppend(body, "\n", '*');
    RemoveAllAbsent("\n", '*');
  }

  /** A line without asterisks and with non-blank text becomes its leading
      white space, its trimmed text (quotes deleted) in quotes, its trailing
      white space and a newline, whatever the asterisk setting. */
  lemma NoAsteriskLine(line: string, asteriskEnabled: bool)
    requires '*' !in line
    requires Trim(RemoveAll(line, '"')) != ""
    ensures var l := RemoveAll(line, '"');
      RewriteLine(line, asteriskEnabled)
      == l[..LeadingWs(l)] + "\"" + Trim(l) + "\"" + l[TextEnd(l)..] + "\n"
  {
    var l := RemoveAll(line, '"');
    SingleChunkLine(line, asteriskEnabled);
    PlainChunkExplicit(l);
  }

  /** A line without asterisks is one plain chunk. */
  lemma SingleChunkLine(line: string, asteriskEnabled: bool)
    requires '*' !in line
    ensures RewriteLine(line, asteriskEnabled) == PlainChunk(RemoveAll(line, '"')) + "\n"
  {
    var l := RemoveAll(line, '"');
    RemoveAllKeepsAbsent(line, '"', '*');
    SingleChunk(l);
    PlainChunkAvoids(l, '*');
    RemoveAllAbsent(PlainChunk(l), '*');
  }

  /** Text without asterisks is one plain chunk. */
  lemma SingleChunk(l: string)
    requires '*' !in l
    ensures Rewritten(Split(l, '*')) == PlainChunk(l)
  {
    SplitNoSep(l, '*');
    assert Rewritten([l]) == "" + RenderChunk(0, l);
    assert "" + PlainChunk(l) == PlainChunk(l);
  }

  /** A plain chunk with text, spelled out: its leading white space, its
      trimmed text in quotes, its trailing white space. */
  lemma PlainChunkExplicit(chunk: string)
    requires Trim(chunk) != ""
    ensures PlainChunk(chunk)
         == chunk[..LeadingWs(chunk)] + "\"" + Trim(chunk) + "\"" + chunk[TextEnd(chunk)..]
  {
    TrimParts(chunk);
    var t := Trim(chunk);
    assert LeadingSpaces(chunk) == chunk[..LeadingWs(chunk)];
    assert RemainingSpaces(chunk) == chunk[TextEnd(chunk)..];
    assert Quoted(t) == "\"" + t + "\"";
  }

  /** Deleting the quotes of the output (asterisks on) gives back the line
      without its quotes, plus a closing asterisk when the line has an odd
      number of them, plus the newline; blank plain chunks that are not
      empty are excluded, since they come out twice. */
  lemma RewriteLineUnquoted(line: string)
    requires forall i :: 0 <= i < |Chunks(line)| && !Inside(i) ==>
      Chunks(line)[i] == "" || Trim(Chunks(line)[i]) != ""
    ensures RemoveAll(RewriteLine(line, true), '"')
         == RemoveAll(line, '"') + (if multiset(line)['*'] % 2 == 1 then "*" else "") + "\n"
  {
    var l := RemoveAll(line, '"');
    var chunks := Split(l, '*');
    var body := Rewritten(chunks);
    SplitKeepsAbsent(l, '*', '"');
    RewrittenUnquoted(chunks);
    JoinSplit(l, '*');
    RemoveAllCounts(line, '"');
    assert multiset(l)['*'] == multiset(line)['*'];
    SplitCount(l, '*');
    InsideParity(|chunks| - 1);
    RemoveAllAppend(body, "\n", '"');
    RemoveAllAbsent("\n", '"');
  }

  // ---------------------------------------------------------------------
  // Examples

  // Each example takes its literal text as a parameter fixed by a
  // `requires`, so the verifier unfolds the definitions on that text only
  // where the proof asks it to; the statement is the same as for the
  // literal itself.

  /** Plain text is quoted as a whole. */
  lemma ExamplePlain(line: string)
    requires line == "hello"
    ensures RewriteLine(line, true) == "\"hello\"\n"
  {
    RemoveAllAbsent(line, '"');
    SingleChunkLine(line, true);
    PlainHello(line);
  }

  /** Two actions with one space between them: the blank plain chunk
      between them comes out twice. */
  lemma ExampleActions(line: string)
    requires line == "*x* *y*"
    ensures RewriteLine(line, true) == "*x*" + "  " + "*y*" + "\n"
  {
    var chunks := ["", "x", " ", "y", ""];
    ActionsChunks(line, chunks);
    ActionsRendered(chunks);
  }

  /** The chunks of the example above. */
  lemma ActionsChunks(line: string, chunks: seq<string>)
    requires line == "*x* *y*" && chunks == ["", "x", " ", "y", ""]
    ensures Chunks(line) == chunks
  {
    assert '"' !in line;
    RemoveAllAbsent(line, '"');
    ActionsJoined(chunks);
    SplitJoin(chunks, '*');
  }

  /** The chunks of the example above joined with `*` give the line back. */
  lemma ActionsJoined(chunks: seq<string>)
    requires chunks == ["", "x", " ", "y", ""]
    ensures Join(chunks, "*") == "*x* *y*"
  {
    assert Join(chunks[4..], "*") == "";
    assert Join(chunks[3..], "*") == "y*";
    assert Join(chunks[2..], "*") == " *y*";
    assert Join(chunks[1..], "*") == "x* *y*";
  }

  /** The rendering of the chunks of the example above. */
  lemma ActionsRendered(chunks: seq<string>)
    requires chunks == ["", "x", " ", "y", ""]
    ensures Rewritten(chunks) == "*x*" + "  " + "*y*"
  {
    ActionsPieces(chunks);
    RenderedFive(chunks);
  }

  /** Five chunks render as plain, action, plain, action, plain. */
  lemma RenderedFive(chunks: seq<string>)
    requires |chunks| == 5
    ensures Rewritten(chunks) == RenderChunk(0, chunks[0]) + RenderChunk(1, chunks[1])
      + RenderChunk(2, chunks[2]) + RenderChunk(3, chunks[3]) + RenderChunk(4, chunks[4])
  {
    assert chunks[..0] == [];
    PrefixStep(chunks, 0);
    assert Rewritten(chunks[..1]) == RenderChunk(0, chunks[0]);
    PrefixStep(chunks, 1);
    PrefixStep(chunks, 2);
    PrefixStep(chunks, 3);
    PrefixStep(chunks, 4);
    assert chunks[..5] == chunks;
  }

  /** The rendering of the first `k + 1` chunks extends that of the first `k`. */
  lemma PrefixStep(chunks: seq<string>, k: nat)
    requires k < |chunks|
    ensures Rewritten(chunks[..k + 1]) == Rewritten(chunks[..k]) + RenderChunk(k, chunks[k])
  {
    assert chunks[..k + 1][..k] == chunks[..k];
  }

  /** The rendering of each chunk of the example above. */
  lemma ActionsPieces(chunks: seq<string>)
    requires chunks == ["", "x", " ", "y", ""]
    ensures RenderChunk(0, chunks[0]) == "" && RenderChunk(1, chunks[1]) == "*x*"
    ensures RenderChunk(2, chunks[2]) == "  " && RenderChunk(3, chunks[3]) == "*y*"
    ensures RenderChunk(4, chunks[4]) == ""
  {
    BlankPlainChunks();
    assert Inside(1) && !Inside(2) && Inside(3) && !Inside(4);
  }

  /** The blank plain chunks of the example above: empty, and one space,
      which comes out twice. */
  lemma BlankPlainChunks()
    ensures PlainChunk("") == ""
    ensures PlainChunk(" ") == "  "
  {
    assert Trim("") == "";
    PlainChunkParts("");
    BlankIffAllWs(" ");
    PlainChunkParts(" ");
  }

  /** The plain chunk of `ExamplePlain`. */
  lemma PlainHello(line: string)
    requires line == "hello"
    ensures PlainChunk(line) == "\"hello\""
  {
    assert |line| == 5 && line[0] == 'h' && line[4] == 'o';
    PlainChunkOf("", line, "");
    assert "" + line + "" == line;
    HelloQuoted(line);
  }

  // ---------------------------------------------------------------------
  // Proof helpers: identities on sequences, each a hint for one step of a
  // proof above, not a statement about the extension

  /** A non-empty sequence is its front followed by its last element. */
  lemma LastSplit(s: seq<string>)
    requires |s| > 0
    ensures s == s[..|s| - 1] + [s[|s| - 1]]
  {
  }

  /** The quoted text of `PlainHello`, spelled out as one literal. */
  lemma HelloQuoted(line: string)
    requires line == "hello"
    ensures "" + "\"" + line + "\"" + "" == "\"hello\""
  {
  }
}
