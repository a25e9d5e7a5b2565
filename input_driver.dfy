/**
 * `modifyUserInput` of index.js with the page taken away: the text box is a
 * string field, the extension's on/off setting a boolean field, and the
 * asterisk setting a field the method only reads.
 *
 * The typed text is trimmed. The command `//aq` flips the on/off setting,
 * empties the text box and stops the message from being sent. Otherwise,
 * when the extension is off, nothing changes and the message is sent as
 * typed; when it is on, every line is rewritten by `modifyLine`, the
 * results are concatenated and trimmed, and that replaces the text.
 *
 * `Drive` is the specification, `AutoQuote.ModifyUserInput` the method of
 * the source proved against it.
 */
module InputDriver {
  import opened Wrappers
  import opened JsString
  import opened LineRewriter

  /** The chat command that switches the extension on and off. */
  const ToggleCommand: string := "//aq"

  /** What one call does: the new text of the text box (`None`: left as it
      was), whether the message goes out, and the new on/off setting. */
  datatype Outcome = Outcome(newText: Option<string>, shouldSend: bool, enabled: bool)

  /** The rewritten lines, concatenated in order. */
  function ConcatLines(lines: seq<string>, asteriskEnabled: bool): string
    decreases |lines|
  {
    if |lines| == 0 then ""
    else ConcatLines(lines[..|lines| - 1], asteriskEnabled) + RewriteLine(lines[|lines| - 1], asteriskEnabled)
  }

  /** The text that replaces the input when the extension is on. */
  function Modified(input: string, asteriskEnabled: bool): string {
    Trim(ConcatLines(Split(input, '\n'), asteriskEnabled))
  }

  /** `modifyUserInput` on the text `raw` with the given settings. */
  function Drive(raw: string, enabled: bool, asteriskEnabled: bool): Outcome {
    var input := Trim(raw);
    if input == ToggleCommand then Outcome(Some(""), false, !enabled)
    else if !enabled then Outcome(None, true, enabled)
    else Outcome(Some(Modified(input, asteriskEnabled)), true, enabled)
  }

  /** The loop of `modifyUserInput`: every line of the trimmed input through
      `modifyLine`, concatenated, then trimmed. */
  method ModifyLines(userInput: string, asteriskEnabled: bool) returns (modifiedInput: string)
    ensures modifiedInput == Modified(userInput, asteriskEnabled)
  {
    var arr := Split(userInput, '\n');
    modifiedInput := "";
    for i := 0 to |arr|
      invariant modifiedInput == ConcatLines(arr[..i], asteriskEnabled)
    {
      assert arr[..i + 1][..i] == arr[..i];
      var line := ModifyLine(arr[i], asteriskEnabled);
      modifiedInput := modifiedInput + line;
    }
    assert arr[..|arr|] == arr;
    modifiedInput := Trim(modifiedInput);
  }

  /** The extension's state as `modifyUserInput` sees it. */
  class AutoQuote {
    /** `extension_settings[extensionName].enabled` */
    var enabled: bool
    /** `extension_settings[extensionName].asteriskEnabled` */
    var asteriskEnabled: bool
    /** The value of `#send_textarea`. */
    var textarea: string

    constructor (enabled: bool, asteriskEnabled: bool, textarea: string)
      ensures this.enabled == enabled
      ensures this.asteriskEnabled == asteriskEnabled
      ensures this.textarea == textarea
    {
      this.enabled := enabled;
      this.asteriskEnabled := asteriskEnabled;
      this.textarea := textarea;
    }

    /** Rewrites the typed text in place; the result says whether to send it. */
    method ModifyUserInput() returns (shouldSend: bool)
      modifies this`enabled, this`textarea
      ensures var o := Drive(old(textarea), old(enabled), asteriskEnabled);
        && shouldSend == o.shouldSend
        && enabled == o.enabled
        && textarea == (if o.newText.Some? then o.newText.value else old(textarea))
    {
      var userInput := Trim(textarea);

      if userInput == ToggleCommand {
        enabled := !enabled;
        textarea := "";
        return false;
      }

      if !enabled {
        return true;
      }

      var modifiedInput := ModifyLines(userInput, asteriskEnabled);
      textarea := modifiedInput;
      return true;
    }
  }

  // ---------------------------------------------------------------------
  // The command

  /** The message is held back exactly when the trimmed text is the command. */
  lemma SendUnlessCommand(raw: string, enabled: bool, asteriskEnabled: bool)
    ensures !Drive(raw, enabled, asteriskEnabled).shouldSend <==> Trim(raw) == ToggleCommand
  {
  }

  /** The on/off setting changes exactly on the command, which empties the
      text box whatever the setting was. */
  lemma ToggleOnCommand(raw: string, enabled: bool, asteriskEnabled: bool)
    ensures var o := Drive(raw, enabled, asteriskEnabled);
      && (o.enabled != enabled <==> Trim(raw) == ToggleCommand)
      && (Trim(raw) == ToggleCommand ==> o.newText == Some(""))
  {
  }

  /** Sending the command twice restores the setting. */
  lemma ToggleTwice(raw: string, enabled: bool, asteriskEnabled: bool)
    requires Trim(raw) == ToggleCommand
    ensures Drive(raw, Drive(raw, enabled, asteriskEnabled).enabled, asteriskEnabled).enabled == enabled
  {
  }

  /** Off, the extension leaves every other message alone and sends it. */
  lemma DisabledLeavesText(raw: string, asteriskEnabled: bool)
    requires Trim(raw) != ToggleCommand
    ensures Drive(raw, false, asteriskEnabled) == Outcome(None, true, false)
  {
  }

  // ---------------------------------------------------------------------
  // The rewritten text

  /** The text that replaces the input is already trimmed. */
  lemma ModifiedTrimmed(input: string, asteriskEnabled: bool)
    ensures Trim(Modified(input, asteriskEnabled)) == Modified(input, asteriskEnabled)
  {
    TrimIdempotent(ConcatLines(Split(input, '\n'), asteriskEnabled));
  }

  /** Whatever the call writes into the text box is trimmed. */
  lemma NewTextTrimmed(raw: string, enabled: bool, asteriskEnabled: bool)
    ensures var o := Drive(raw, enabled, asteriskEnabled);
      o.newText.Some? ==> Trim(o.newText.value) == o.newText.value
  {
    if Trim(raw) == ToggleCommand {
      assert Trim("") == "";
    } else if enabled {
      ModifiedTrimmed(Trim(raw), asteriskEnabled);
    }
  }

  /** Every rewritten line ends with its own newline: lines without a
      newline give exactly as many newlines as there are lines. */
  lemma {:induction false} ConcatLinesNewlines(lines: seq<string>, asteriskEnabled: bool)
    requires forall i :: 0 <= i < |lines| ==> '\n' !in lines[i]
    ensures multiset(ConcatLines(lines, asteriskEnabled))['\n'] == |lines|
  {
    if |lines| > 0 {
      var n := |lines| - 1;
      ConcatLinesNewlines(lines[..n], asteriskEnabled);
      RewriteLineSingleNewline(lines[n], asteriskEnabled);
      var a, b := ConcatLines(lines[..n], asteriskEnabled), RewriteLine(lines[n], asteriskEnabled);
      assert multiset(a + b) == multiset(a) + multiset(b);
    }
  }

  /** Before the final trim, the rewritten text has one newline for each
      line of the input: as many as the input has, plus one. */
  lemma ConcatLinesLineCount(input: string, asteriskEnabled: bool)
    ensures multiset(ConcatLines(Split(input, '\n'), asteriskEnabled))['\n'] == multiset(input)['\n'] + 1
  {
    SplitCount(input, '\n');
    ConcatLinesNewlines(Split(input, '\n'), asteriskEnabled);
  }

  /** With asterisks off, the rewritten lines hold no asterisk. */
  lemma {:induction false} ConcatLinesNoAsterisk(lines: seq<string>)
    ensures '*' !in ConcatLines(lines, false)
  {
    if |lines| > 0 {
      var n := |lines| - 1;
      ConcatLinesNoAsterisk(lines[..n]);
      AsteriskOffStripsAll(lines[n]);
      var a, b := ConcatLines(lines[..n], false), RewriteLine(lines[n], false);
      assert multiset(a + b) == multiset(a) + multiset(b);
      assert multiset(a)['*'] == 0 && multiset(b)['*'] == 0;
    }
  }

  /** With asterisks off, no asterisk is written into the text box. */
  lemma NoAsteriskWhenOff(raw: string, enabled: bool)
    ensures var o := Drive(raw, enabled, false);
      o.newText.Some? ==> '*' !in o.newText.value
  {
    var input := Trim(raw);
    if input != ToggleCommand && enabled {
      var text := ConcatLines(Split(input, '\n'), false);
      ConcatLinesNoAsterisk(Split(input, '\n'));
      TrimKeepsAbsent(text, '*');
    }
  }
}
