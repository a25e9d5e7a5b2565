# AutoQuote text core, in Dafny

AutoQuote is a chat-front-end extension (file `index.js`). It does two things with text:

- **Rewriting typed input before it is sent.** Speech is put in double quotes. Actions written between asterisks are kept as they are. The command `//aq` switches the extension on and off.
- **Highlighting speaker names in displayed messages.** A leading `Name:` in a paragraph segment is wrapped in a coloured `<span>`.

This project models that text logic and proves what it promises. Four modules hold the core, plus `Wrappers` for `Option`:

- `JsString` (`jsstring.dfy`) holds the JavaScript string built-ins the code uses, stated over Dafny strings:
  - `trim`, `trimStart` and `trimEnd`, with the exact ECMAScript white-space set;
  - `replaceAll` of one character;
  - `split` on one character, and its inverse `join`.
- `LineRewriter` (`line_rewriter.dfy`) holds `modifyLine`. The specification function is `RewriteLine`. The source's loop is the method `ModifyLine`, proved equal to it. The asterisk setting is a parameter.
- `InputDriver` (`input_driver.dfy`) holds `modifyUserInput`, with the page removed:
  - the text box, the on/off setting and the asterisk setting are fields of the class `AutoQuote`;
  - the method `ModifyUserInput` updates the text box and the on/off setting in place and only reads the asterisk setting;
  - the method is proved against the specification function `Drive`;
  - its loop over the lines is the method `ModifyLines`.
- `NameHighlighter` (`highlighter.dfy`) holds the split/rewrite/join of the name highlighter. It is identical at index.js:153-160 and index.js:229-236, so it is modelled once, as pure functions:
  - `BreakSplit` is the ECMAScript `split` loop run with `/<br\s*\/?>(?![^<]*<)/i`;
  - `NameMatch` is `/^\s*([^:<>"\n]+?):/`, including the backtracking of its greedy `\s*`;
  - `RewriteSegment` performs the replacement;
  - `Highlight` is the whole pass.

Points of `index.js` that the model states exactly:

- **The split lookahead.** The lookahead `(?![^<]*<)` skips a break tag when any `<` follows it. So the only split point is the break tag at the last `<` of the markup (`CutIsLastLt`, `LastLtTagIsCut`), and a paragraph splits into at most two segments.
- **Re-highlighting.** The name pattern excludes `<`, and a rewritten segment starts with `<span`, so the pattern cannot match a rewritten segment again. `Highlight` is idempotent (`HighlightIdempotent`).
- **The colon and leading white space.** The span holds `name:`. The white space the pattern matched before the name is dropped.
- **White space.** White space is the exact set JavaScript uses for `trim` and `\s`. With that set, `<br`/`<BR` case folding is exact: under the `i` flag without `u`, only `b`/`B` and `r`/`R` fold onto those letters.
- **Blank speech between actions.** A plain chunk that is all white space but not empty comes out twice, because its leading and its remaining white space are both the whole chunk. So `*x* *y*` gives `*x*  *y*` (`ExampleActions`), and `PlainChunkParts` states this for every chunk.

## Model

| member | source | states |
|---|---|---|
| LineRewriter.RewriteLine | index.js:105-136 | the specification of `modifyLine`: the rendered chunks, with every `*` deleted when asterisks are off, then a newline |
| LineRewriter.Chunks | index.js:106-107 | the chunks of a line: quotes deleted, then split on `*` |
| LineRewriter.Inside | index.js:109-128 | the `inside` flag before chunk `i`: off first, flipped after every chunk |
| LineRewriter.Rewritten | index.js:111-129 | the output of the loop: each chunk rendered as plain or action, in order |
| LineRewriter.RenderChunk | index.js:112-128 | one chunk rendered by the branch the flag selects |
| LineRewriter.PlainChunk | index.js:113-121 | leading spaces, the quoted trimmed text, remaining spaces |
| LineRewriter.Quoted | index.js:113-116 | the trimmed text in quotes when it is non-empty, else nothing |
| LineRewriter.LeadingSpaces | index.js:117 | the slice before the `trimStart` remainder |
| LineRewriter.RemainingSpaces | index.js:120 | the slice after the `trimEnd` part |
| LineRewriter.ActionChunk | index.js:125 | the chunk between two asterisks |
| LineRewriter.ModifyLine | index.js:105-136 | the loop returns exactly `RewriteLine(line, asteriskEnabled)`: chunks at even positions rendered as plain speech, chunks at odd positions as actions, asterisks deleted when off, then a newline |
| LineRewriter.PlainChunkParts | index.js:112-123 | a blank plain chunk comes out twice (leading and remaining spaces are both the whole chunk); a non-blank one is its leading white space, trimmed text and trailing white space |
| LineRewriter.PlainChunkOf | index.js:113-121 | white space, then text with non-white ends, then white space becomes the same white space around the quoted text |
| LineRewriter.PlainChunkCounts | index.js:113-121 | the characters of a rendered plain chunk are those of the chunk plus two quotes, or those of a blank chunk twice |
| LineRewriter.PlainChunkAvoids | index.js:113-121 | a plain chunk adds no character other than `"` |
| LineRewriter.PlainChunkUnquoted | index.js:113-121 | deleting the quotes of a rendered plain chunk (empty or non-blank) gives the chunk back |
| LineRewriter.QuotedUnquoted | index.js:114-116 | deleting the quotes of quoted text gives the text back |
| LineRewriter.InsideParity | index.js:109-128 | the `inside` flag is on exactly at odd positions; half the positions below `n`, rounded down, are actions |
| LineRewriter.RewrittenQuotes | index.js:106-121 | every `"` of the output is one of the pair put around a non-blank plain chunk |
| LineRewriter.RewrittenAsterisks | index.js:124-127 | with no `*` in the chunks, the output has exactly two asterisks per action chunk |
| LineRewriter.RewrittenAvoids | index.js:111-129 | a character other than `"` and `*` that no chunk holds is not in the output |
| LineRewriter.RewrittenPrefix | index.js:111-129 | the rendering of a prefix of the chunks is a prefix of the output (output is only appended to) |
| LineRewriter.ActionChunkVerbatim | index.js:124-127 | every action chunk appears in the output verbatim between two asterisks, right after the chunks before it |
| LineRewriter.RewrittenUnquoted | index.js:106-129 | deleting the output's quotes gives the chunks joined by `*`, plus a closing `*` when the last chunk is an action, when no plain chunk is blank but non-empty |
| LineRewriter.RewriteLineNewline | index.js:135 | the output ends with a newline; an empty line gives exactly `"\n"` |
| LineRewriter.RewriteLineSingleNewline | index.js:105-136 | a line without newlines gives an output with exactly one |
| LineRewriter.RewriteLineQuotes | index.js:106-121 | the output has two quotes per non-blank plain chunk: none of the input's quotes survive |
| LineRewriter.RewriteLineAsterisks | index.js:107-129 | with asterisks on, the output has the input's asterisks rounded up to an even number (a dangling action is closed) |
| LineRewriter.AsteriskOffStripsAll | index.js:130-134 | with asterisks off, the output has no `*` and is the asterisks-on output with every `*` deleted |
| LineRewriter.NoAsteriskLine | index.js:105-136 | a line without `*` and with text becomes its leading white space, its trimmed quote-free text in quotes, its trailing white space and a newline |
| LineRewriter.SingleChunkLine | index.js:106-121 | a line without `*` is rendered as one plain chunk |
| LineRewriter.RewriteLineUnquoted | index.js:105-136 | for a line whose plain chunks are each empty or hold text (none blank but non-empty), deleting the quotes of the output gives back the input without quotes, a closing `*` for an odd count, and the newline |
| LineRewriter.ExamplePlain | index.js:105-136 | `hello` becomes `"hello"` and a newline |
| LineRewriter.ExampleActions | index.js:105-136 | `*x* *y*` becomes `*x*`, two spaces, `*y*` and a newline: the blank chunk between the actions comes out twice |
| LineRewriter.RenderedFive | index.js:111-129 | five chunks render as plain, action, plain, action, plain, in order |
| InputDriver.ToggleCommand | index.js:183 | the command `//aq` that switches the extension on and off |
| InputDriver.Outcome | index.js:179-211 | what one call does: the new text of the box (or none), whether the message is sent, the new on/off setting |
| InputDriver.AutoQuote | index.js:180-207 | the state `modifyUserInput` reads and writes: the on/off setting, the asterisk setting and the text box |
| InputDriver.Drive | index.js:179-211 | the specification of `modifyUserInput`: on the command, empty the box, flip the setting and hold the message; when off, send unchanged; otherwise write the modified text and send |
| InputDriver.ConcatLines | index.js:202-205 | `modifyLine` of each line, concatenated in order |
| InputDriver.Modified | index.js:201-206 | the lines of the input rewritten, concatenated and trimmed |
| InputDriver.AutoQuote.ModifyUserInput | index.js:179-211 | the new text box, the new on/off setting and the result are those `Drive` gives for the old text and setting |
| InputDriver.AutoQuote.constructor | index.js:179-211 | the state starts with the given text and settings |
| InputDriver.ModifyLines | index.js:201-206 | the loop gives the trimmed concatenation of `modifyLine` over the lines of the input |
| InputDriver.SendUnlessCommand | index.js:183-198 | the message is held back exactly when the trimmed input is `//aq` |
| InputDriver.ToggleOnCommand | index.js:183-193 | the setting flips exactly on the command, which empties the text box whatever the setting was |
| InputDriver.ToggleTwice | index.js:183-186 | sending the command twice restores the setting |
| InputDriver.DisabledLeavesText | index.js:196-199 | when off, any other message is sent unchanged |
| InputDriver.ModifiedTrimmed | index.js:206 | the rewritten text is already trimmed |
| InputDriver.NewTextTrimmed | index.js:180-207 | whatever is written into the text box is trimmed |
| InputDriver.ConcatLinesNewlines | index.js:203-205 | lines without newlines give as many newlines as there are lines |
| InputDriver.ConcatLinesLineCount | index.js:201-205 | before the final trim the text has one newline per input line: the input's newlines plus one |
| InputDriver.ConcatLinesNoAsterisk | index.js:203-205 | with asterisks off, the concatenated lines hold no `*` |
| InputDriver.NoAsteriskWhenOff | index.js:201-207 | with asterisks off, no `*` is written into the text box |
| NameHighlighter.Colour | index.js:141 | the colour is never empty: the setting when it is non-empty, `#CFCFC5` otherwise |
| NameHighlighter.BreakTagEnd | index.js:153 | where the break tag `<br\s*\/?>` (either case) starting at `q` ends: at least four characters on, within the markup |
| NameHighlighter.BreakTagMatches | index.js:153 | the matches of `<br\s*\/?>` read off the pattern: `<`, `b`/`B`, `r`/`R`, white space, then `>` or `/>` |
| NameHighlighter.BreakTagIsRegex | index.js:153 | `BreakTagEnd` finds a match of the pattern, and every match at `q` ends where it says, so the match end is unique |
| NameHighlighter.IsCut | index.js:153 | the split pattern matches at `q`: a break tag with no `<` after it |
| NameHighlighter.SplitFrom | index.js:153 | the ECMAScript `split` loop from segment start `p` and match position `q`; it gives at least one segment |
| NameHighlighter.BreakSplit | index.js:153 | the split of the whole markup |
| NameHighlighter.BreakTagNoLt | index.js:153 | a break tag starts with `<` and holds no other `<` |
| NameHighlighter.CutIsLastLt | index.js:153 | a split point is at the last `<` of the markup |
| NameHighlighter.LastLtTagIsCut | index.js:153 | a break tag at the last `<` of the markup is a split point |
| NameHighlighter.CutUnique | index.js:153 | there is at most one split point |
| NameHighlighter.CutIsLastTag | index.js:153 | no break tag starts after the split point |
| NameHighlighter.SplitNoCut | index.js:153 | without a split point from `q` on, the split loop closes one last segment |
| NameHighlighter.SplitToCut | index.js:153 | the split loop closes a segment at the split point and a last one after the tag |
| NameHighlighter.BreakSplitAtCut | index.js:153 | with a split point, the markup splits into the text before the tag and the text after it |
| NameHighlighter.BreakSplitNoCut | index.js:153 | without a split point, the markup is one segment |
| NameHighlighter.BreakSplitShape | index.js:153 | the split gives one segment (the markup, exactly when there is no split point) or two (around the last break tag) |
| NameHighlighter.RejoinNormalisesTag | index.js:153-160 | rejoining with `<br>` gives the markup back with its last break tag written `<br>` |
| NameHighlighter.NameMatch | index.js:156 | a match starts within the leading white space, at a name followed by a colon |
| NameHighlighter.RegexMatchesIff | index.js:156 | with `k` white-space characters, the name pattern matches exactly when `NameColonAt` holds, and the lazy name is the whole run of name characters |
| NameHighlighter.NameMatchIsRegex | index.js:156 | `NameMatch` is a match of the pattern; the pattern matches only if `NameMatch` finds one, and it takes the match with the most white space (greedy `\s*`) |
| NameHighlighter.NameMatchShape | index.js:156 | the name starts after all the leading white space, except when a colon follows it directly: then the last white-space character (not a newline) is the name |
| NameHighlighter.IsNameChar | index.js:156 | a character of the class `[^:<>"\n]` |
| NameHighlighter.NameEnd | index.js:156 | the end of the run of name characters from `k`: the lazy name, which must be followed by `:` |
| NameHighlighter.NameColonAt | index.js:156 | a non-empty name starts at `k` and a colon follows it |
| NameHighlighter.RegexMatches | index.js:156 | the matches of `/^\s*([^:<>"\n]+?):/` read off the pattern: `k` white-space characters, `n` name characters, a colon |
| NameHighlighter.MatchFrom | index.js:156 | the greedy `\s*` backtracking from `k` down to 0: the first `k` with a name and a colon after it |
| NameHighlighter.SpanOpen | index.js:157 | the opening tag with `data-autoquote-highlight="true"` and the colour |
| NameHighlighter.Span | index.js:157 | the opening tag, the name, `:` and `</span>` |
| NameHighlighter.RewriteSegment | index.js:155-158 | `replace` of the first name match by its span, or the segment unchanged |
| NameHighlighter.Highlight | index.js:153-160 | split, rewrite every segment, join with `<br>` |
| NameHighlighter.RewriteNamed | index.js:155-158 | white space, a name starting with text, a colon and a rest become the span around `name:` followed by the rest |
| NameHighlighter.RewriteNoColon | index.js:155-158 | a segment without a colon is unchanged |
| NameHighlighter.TagSegmentUnchanged | index.js:155-158 | a segment that starts with `<` never matches and is unchanged |
| NameHighlighter.RewriteStartsWithTag | index.js:155-158 | a rewritten segment starts with `<` |
| NameHighlighter.RewriteSegmentIdempotent | index.js:155-158 | rewriting a rewritten segment changes nothing |
| NameHighlighter.HighlightNoCut | index.js:153-160 | without a split point, the paragraph is rewritten as one segment |
| NameHighlighter.HighlightAtCut | index.js:153-160 | with a split point, the two sides are rewritten on their own and joined by `<br>` |
| NameHighlighter.HighlightLastBreak | index.js:153-160 | a `<br>` with no `<` after it separates two independently rewritten segments |
| NameHighlighter.RewriteAddsNoCut | index.js:153-160 | rewriting a segment without a split point creates none |
| NameHighlighter.NameMatchExtend | index.js:156 | appending text that starts with `<` does not change whether or where the name matches |
| NameHighlighter.CutShift | index.js:153 | putting text in front does not change split points in what follows |
| NameHighlighter.HighlightIdempotent | index.js:153-160 | highlighting highlighted markup changes nothing |
| NameHighlighter.HighlightSpeaker | index.js:153-160 | a paragraph without `<` that starts with a name and a colon becomes the span around `name:` followed by the rest, unchanged |
| NameHighlighter.ExampleSpeaker | index.js:153-160 | `Alice: hi` becomes the span around `Alice:` followed by ` hi` |
| NameHighlighter.ExampleAfterBreak | index.js:153-160 | in `<i>x</i><br>Bob: yo` only the text after the last break tag is rewritten |
| JsString.SkipWsUnique | index.js:113 | the white-space run ends at the only index with white space before it and text (or the end) at it |
| JsString.TrimParts | index.js:113 | `trim` of a string with text is the part between its leading and trailing white space, with text at both ends |
| JsString.TrimEmpty | index.js:114 | `trim` is empty exactly when the string is all leading white space |
| JsString.BlankIffAllWs | index.js:114 | `trim` is empty exactly when every character is white space |
| JsString.TrimIdempotent | index.js:206 | trimming twice is trimming once |
| JsString.TrimKeepsAbsent | index.js:206 | `trim` adds no character |
| JsString.IsWs | index.js:113-120 | the ECMAScript WhiteSpace and LineTerminator characters, stripped by `trim`, `trimStart` and `trimEnd` and matched by `\s` at index.js:153 and index.js:156 |
| JsString.SkipWs | index.js:117 | the first index from `i` whose character is not white space, or the end; never before `i` |
| JsString.LeadingWs | index.js:117 | the length of the leading white-space run, which `trimStart` drops |
| JsString.SkipWsBack | index.js:120 | the index just past the last character before `j` that is not white space, or 0; never after `j` |
| JsString.TextEnd | index.js:120 | the length `trimEnd` keeps |
| JsString.TrimStart | index.js:117 | `trimStart`: the string from its first non-white-space character |
| JsString.TrimEnd | index.js:120 | `trimEnd`: the string up to just past its last non-white-space character |
| JsString.Trim | index.js:113 | `trim`: both ends stripped |
| JsString.Join | index.js:160 | `join` with a separator string; also used for the lines and chunks |
| JsString.RemoveAll | index.js:106 | `replaceAll` of a character leaves none of it |
| JsString.RemoveAllCounts | index.js:106 | `replaceAll` deletes exactly the occurrences of the character and keeps every other |
| JsString.RemoveAllAppend | index.js:133 | deleting a character distributes over concatenation |
| JsString.RemoveAllAbsent | index.js:133 | deleting an absent character changes nothing |
| JsString.Split | index.js:107 | `split` gives at least one piece, none holding the separator |
| JsString.SplitCount | index.js:107 | `split` gives one more piece than there are separators |
| JsString.JoinSplit | index.js:107 | joining the pieces with the separator gives the string back |
| JsString.SplitJoin | index.js:107 | splitting pieces without separators after joining them gives them back |
| JsString.SplitKeepsAbsent | index.js:201 | a character absent from the string is absent from every piece |

## Left out

- Settings load, save, default-filling and checkbox restore (index.js:10-91) are host-owned global state and jQuery. The on/off and asterisk settings are fields of `InputDriver.AutoQuote`. The colour setting is the parameter of `NameHighlighter.Colour`.
- `waitForElement`'s `setInterval` polling, the colour-picker debounce and `requestAnimationFrame` are timers and event-loop behaviour.
- The `MutationObserver` lifecycle and its traversal of nodes are DOM events. So are the send-button and keydown wiring. The observer's per-paragraph string work is the same `Highlight` as the direct pass.
- Un-highlighting through `replaceWith($span.text())` depends on how the browser serialises text nodes. It is not an exact string inverse anyway: the rewrite drops the leading white space and writes the split tag as `<br>`.
- `$p.html()` / `innerHTML` serialisation is left out. The model takes the paragraph's markup as a string.
- `toastr`, `console.debug` and the checkbox update on `//aq` are display and logging effects.
- Strings are sequences of code points; JavaScript's UTF-16 code units (lone surrogates) are not modelled. None of the patterns or built-ins used here treat surrogate pairs specially.
- LineRewriter.RewrittenUnquoted: the round trip through quote deletion is stated only for lines whose plain chunks are empty or non-blank. A blank non-empty plain chunk comes out twice (`PlainChunkParts`), so deleting quotes does not give the line back.
- LineRewriter.RewriteLineUnquoted: the same round trip for a whole line carries the same restriction, for the same reason.
