/**
 * The pane controller: typing a message into a pane and capturing a pane's screen, both
 * through the helper script. The model builds the exact command line each operation
 * hands to the shell; running it is an oracle parameter `run` that yields the command's
 * standard output and standard error, or the message of the error it failed with.
 */
module PaneController {
  import opened Wrappers
  import opened Text
  import opened TmuxUtils

  /** What running one shell command produced. */
  datatype ExecOutcome = Completed(stdout: string, stderr: string) | Failed(message: string)

  const SendErrorPrefix := "Failed to send message: "
  const CaptureErrorPrefix := "Failed to capture screen: "
  const ScreenErrorPrefix := "Error: "

  // ---------------------------------------------------------------- single-quote escaping

  /** The four characters that stand for one single quote inside a single-quoted shell word. */
  const QuoteEscape := "'\\''"

  function CountQuotes(m: string): nat {
    if m == [] then 0 else (if m[0] == '\'' then 1 else 0) + CountQuotes(m[1..])
  }

  /**
   * Every `'` of the message replaced by `'\''`; every other character kept, so each
   * quote grows by three characters and nothing else changes length.
   */
  function EscapeSingleQuotes(m: string): (r: string)
    ensures |r| == |m| + 3 * CountQuotes(m)
  {
    if m == [] then []
    else if m[0] == '\'' then QuoteEscape + EscapeSingleQuotes(m[1..])
    else [m[0]] + EscapeSingleQuotes(m[1..])
  }

  /** A message without quotes is sent as it is. */
  lemma {:induction false} EscapeWithoutQuotes(m: string)
    requires '\'' !in m
    ensures EscapeSingleQuotes(m) == m
  {
    if m != [] {
      assert m[0] in m;
      assert forall c | c in m[1..] :: c in m;
      EscapeWithoutQuotes(m[1..]);
    }
  }

  lemma {:induction false} EscapeAppend(a: string, b: string)
    ensures EscapeSingleQuotes(a + b) == EscapeSingleQuotes(a) + EscapeSingleQuotes(b)
  {
    if a == [] {
      assert a + b == b;
    } else {
      assert (a + b)[0] == a[0];
      assert (a + b)[1..] == a[1..] + b;
      EscapeAppend(a[1..], b);
    }
  }

  // ---------------------------------------------------------------- how a shell reads the word

  /** Prepends `p` to a successful reading. */
  function Prepend(p: string, o: Option<string>): Option<string> {
    match o
    case None => None
    case Some(v) => Some(p + v)
  }

  /**
   * Characters a POSIX shell treats specially outside quotes: the blanks and the newline
   * that end a word, the operators `|&;<>()`, the starts of an expansion or of another
   * quoting (`$`, a backquote, `"`), the glob characters `*?[`, and `#` and `~`, which are
   * special at the start of a word (refused here anywhere).
   */
  predicate ShellSpecial(c: char) {
    c in " \t\n|&;<>()$`\"*?[#~"
  }

  /**
   * The text a POSIX shell reads from `w` as one plain word outside quotes: `'` opens a
   * single-quoted part, a backslash takes the next character literally (a
   * backslash-newline continuation is not read), any character that is not special stands
   * for itself. `None` when a quote is left open or when an unquoted character would end
   * the word, start an operator or an expansion, or be expanded.
   */
  function ReadUnquoted(w: string): Option<string>
    decreases |w|, 1
  {
    if w == [] then Some([])
    else if w[0] == '\'' then ReadQuoted(w[1..])
    else if w[0] == '\\' && |w| >= 2 && w[1] != '\n' then Prepend([w[1]], ReadUnquoted(w[2..]))
    else if w[0] == '\\' || ShellSpecial(w[0]) then None
    else Prepend([w[0]], ReadUnquoted(w[1..]))
  }

  /** Inside single quotes every character is literal up to the closing quote. */
  function ReadQuoted(w: string): Option<string>
    decreases |w|, 0
  {
    if w == [] then None
    else if w[0] == '\'' then ReadUnquoted(w[1..])
    else Prepend([w[0]], ReadQuoted(w[1..]))
  }

  /** Example: a message placed unquoted is refused once it holds a blank or an operator. */
  lemma UnquotedCommandRefused()
    ensures ReadUnquoted("a b; rm x") == None
    ensures ReadUnquoted("a;b") == None
  {
    assert ShellSpecial(' ') && ShellSpecial(';');
    assert ReadUnquoted("a b; rm x") == Prepend("a", ReadUnquoted(" b; rm x"));
    assert ReadUnquoted("a;b") == Prepend("a", ReadUnquoted(";b"));
  }

  lemma PrependAssoc(p: string, q: string, o: Option<string>)
    ensures Prepend(p, Prepend(q, o)) == Prepend(p + q, o)
  {
    if o.Some? {
      assert p + (q + o.value) == (p + q) + o.value;
    }
  }

  /** `'\''` closes the quote, supplies one literal quote and reopens: it reads as `'`. */
  lemma ReadQuoteEscape(tail: string)
    ensures ReadQuoted(QuoteEscape + tail) == Prepend("'", ReadQuoted(tail))
  {
    var w := QuoteEscape + tail;
    assert w[1..] == "\\''" + tail;
    assert ("\\''" + tail)[2..] == "'" + tail;
    assert ReadUnquoted("\\''" + tail) == Prepend("'", ReadUnquoted("'" + tail));
    assert ("'" + tail)[1..] == tail;
  }

  /** Inside an open quote the escaped text reads back as the original message. */
  lemma {:induction false} ReadEscaped(m: string, rest: string)
    ensures ReadQuoted(EscapeSingleQuotes(m) + rest) == Prepend(m, ReadQuoted(rest))
  {
    if m == [] {
      assert EscapeSingleQuotes(m) + rest == rest;
      if ReadQuoted(rest).Some? {
        assert [] + ReadQuoted(rest).value == ReadQuoted(rest).value;
      }
    } else {
      var tail := EscapeSingleQuotes(m[1..]) + rest;
      ReadEscaped(m[1..], rest);
      assert m == [m[0]] + m[1..];
      if m[0] == '\'' {
        assert EscapeSingleQuotes(m) + rest == QuoteEscape + tail;
        ReadQuoteEscape(tail);
      } else {
        var w := [m[0]] + tail;
        assert EscapeSingleQuotes(m) + rest == w;
        assert w[1..] == tail;
      }
      PrependAssoc([m[0]], m[1..], ReadQuoted(rest));
    }
  }

  /** The quoted word `'<escaped>'` hands the shell exactly the message, whatever it holds. */
  lemma QuotedMessageRoundTrip(m: string)
    ensures ReadUnquoted(QuotedWord(m)) == Some(m)
  {
    var w := QuotedWord(m);
    assert w[1..] == EscapeSingleQuotes(m) + "'";
    ReadEscaped(m, "'");
    assert "'"[1..] == [];
    assert m + [] == m;
  }

  // ---------------------------------------------------------------- commands

  /** The last argument of the send command: empty to press Enter, `false` to hold it back. */
  function EnterFlag(sendEnter: bool): string {
    if sendEnter then "" else "false"
  }

  /** The message as one single-quoted shell word, each quote inside it escaped. */
  function QuotedWord(message: string): string {
    "'" + EscapeSingleQuotes(message) + "'"
  }

  /**
   * The send command, trimmed as a whole. For a script path that starts with a visible
   * character it is the script, `send`, the pane number and one shell word that a POSIX
   * shell reads back as exactly the message, followed by `false` exactly when Enter is held
   * back.
   */
  function SendCommand(scriptPath: string, pane: string, message: string, sendEnter: bool): (r: string)
    ensures scriptPath != [] && !IsWhitespace(scriptPath[0]) ==>
              exists word | ReadUnquoted(word) == Some(message) ::
                r == scriptPath + " send " + pane + " " + word + (if sendEnter then "" else " false")
  {
    var word := QuotedWord(message);
    QuotedMessageRoundTrip(message);
    if scriptPath != [] && !IsWhitespace(scriptPath[0]) then
      SendCommandShape(scriptPath, pane, word, sendEnter);
      Trim(scriptPath + " send " + pane + " " + word + " " + EnterFlag(sendEnter))
    else
      Trim(scriptPath + " send " + pane + " " + word + " " + EnterFlag(sendEnter))
  }

  /**
   * For a script path that starts with a visible character and a word that ends with
   * one, trimming the send command removes only the space left by an empty flag.
   */
  lemma SendCommandShape(scriptPath: string, pane: string, word: string, sendEnter: bool)
    requires scriptPath != [] && !IsWhitespace(scriptPath[0])
    requires word != [] && !IsWhitespace(word[|word| - 1])
    ensures Trim(scriptPath + " send " + pane + " " + word + " " + EnterFlag(sendEnter))
              == scriptPath + " send " + pane + " " + word + (if sendEnter then "" else " false")
  {
    var quoted := scriptPath + " send " + pane + " " + word;
    var whole := scriptPath + " send " + pane + " " + word + " " + EnterFlag(sendEnter);
    assert quoted[0] == scriptPath[0];
    assert quoted[|quoted| - 1] == word[|word| - 1];
    if sendEnter {
      assert whole == quoted + " ";
      assert AllWhitespace(" ") by { assert " "[0] == ' '; }
      TrimKeepsText(quoted, " ");
      assert quoted + "" == quoted;
    } else {
      var flagged := quoted + " false";
      assert whole == flagged;
      assert flagged[0] == scriptPath[0];
      assert flagged[|flagged| - 1] == 'e';
      assert AllWhitespace([]);
      assert flagged + [] == flagged;
      TrimKeepsText(flagged, []);
    }
  }

  /**
   * The capture command: the script, `capture` and the pane number, then ` -` and the
   * decimal digits of the line count exactly when a positive count is given; without one
   * (absent, zero or negative) the script's default applies.
   */
  function CaptureCommand(scriptPath: string, pane: string, lines: Option<int>): (r: string)
    ensures var base := scriptPath + " capture " + pane;
            && (r == base <==> lines.None? || lines.value <= 0)
            && (lines.Some? && lines.value > 0 ==>
                  exists digits | AllDigits(digits) ::
                    r == base + " -" + digits && DigitsValue(digits) == lines.value)
  {
    if lines.Some? && lines.value != 0 && lines.value > 0 then
      DigitsRoundTrip(lines.value);
      scriptPath + " capture " + pane + " -" + IntToString(lines.value)
    else scriptPath + " capture " + pane
  }

  // ---------------------------------------------------------------- operations

  /**
   * Types `message` into the pane at `target` and reports what the script said. It fails,
   * with its prefix, exactly when the address is outside the grammar or the command for
   * that pane fails; a reply is cleaned output, with no surrounding whitespace.
   */
  function SendMessage(scriptPath: string, target: string, message: string, sendEnter: bool,
                       run: string -> ExecOutcome): (r: Result<string, string>)
    ensures r.Err? ==> SendErrorPrefix <= r.error
    ensures !MatchesGrammar(target) ==> r == Err(SendErrorPrefix + InvalidTargetMessage(target))
    ensures MatchesGrammar(target) ==>
              && ParseTarget(target).Ok?
              && (r.Err? <==> run(SendCommand(scriptPath, ParseTarget(target).value.paneNumber, message, sendEnter)).Failed?)
    ensures r.Ok? ==> r.value == [] || (!IsWhitespace(r.value[0]) && !IsWhitespace(r.value[|r.value| - 1]))
    ensures ParseTarget(target).Ok? ==>
              var outcome := run(SendCommand(scriptPath, ParseTarget(target).value.paneNumber, message, sendEnter));
              outcome.Completed? ==> r == Ok(FormatOutput(outcome.stdout, outcome.stderr))
  {
    ParseTargetMatchesGrammar(target);
    match ParseTarget(target)
    case Err(msg) => Err(SendErrorPrefix + msg)
    case Ok(t) =>
      match run(SendCommand(scriptPath, t.paneNumber, message, sendEnter))
      case Failed(msg) => Err(SendErrorPrefix + msg)
      case Completed(out, err) => Ok(FormatOutput(out, err))
  }

  /**
   * The screen of the pane at `target`, or the script's complaint when it wrote one. It
   * fails, with its prefix, exactly when the address is outside the grammar or the command
   * for that pane fails; a success is the command's raw output or `Error: ` and its stderr.
   */
  function CaptureScreen(scriptPath: string, target: string, lines: Option<int>,
                         run: string -> ExecOutcome): (r: Result<string, string>)
    ensures r.Err? ==> CaptureErrorPrefix <= r.error
    ensures !MatchesGrammar(target) ==> r == Err(CaptureErrorPrefix + InvalidTargetMessage(target))
    ensures MatchesGrammar(target) ==>
              && ParseTarget(target).Ok?
              && (r.Err? <==> run(CaptureCommand(scriptPath, ParseTarget(target).value.paneNumber, lines)).Failed?)
    ensures ParseTarget(target).Ok? ==>
              var outcome := run(CaptureCommand(scriptPath, ParseTarget(target).value.paneNumber, lines));
              outcome.Completed? && StderrShown(outcome.stderr) ==> r == Ok(ScreenErrorPrefix + outcome.stderr)
    ensures ParseTarget(target).Ok? ==>
              var outcome := run(CaptureCommand(scriptPath, ParseTarget(target).value.paneNumber, lines));
              outcome.Completed? && !StderrShown(outcome.stderr) ==> r == Ok(outcome.stdout)
  {
    ParseTargetMatchesGrammar(target);
    match ParseTarget(target)
    case Err(msg) => Err(CaptureErrorPrefix + msg)
    case Ok(t) =>
      match run(CaptureCommand(scriptPath, t.paneNumber, lines))
      case Failed(msg) => Err(CaptureErrorPrefix + msg)
      case Completed(out, err) => Ok(if StderrShown(err) then ScreenErrorPrefix + err else out)
  }

  // ---------------------------------------------------------------- properties

  /**
   * Progress notes on standard error never reach the caller: two runs of the capture
   * command that print the same screen and stderr that is not shown both return that
   * screen as it is.
   */
  lemma CaptureIgnoresProgressNotes(scriptPath: string, target: string, lines: Option<int>,
                                    run1: string -> ExecOutcome, run2: string -> ExecOutcome,
                                    out: string, e1: string, e2: string)
    requires ParseTarget(target).Ok?
    requires var cmd := CaptureCommand(scriptPath, ParseTarget(target).value.paneNumber, lines);
             run1(cmd) == Completed(out, e1) && run2(cmd) == Completed(out, e2)
    requires !StderrShown(e1) && !StderrShown(e2)
    ensures CaptureScreen(scriptPath, target, lines, run1) == CaptureScreen(scriptPath, target, lines, run2)
    ensures CaptureScreen(scriptPath, target, lines, run1) == Ok(out)
  {
  }

  /**
   * A complaint on standard error replaces the screen: two runs of the capture command
   * that write the same shown stderr give the same `Error: ` result, whatever screens
   * they printed.
   */
  lemma CaptureReportsComplaint(scriptPath: string, target: string, lines: Option<int>,
                                run1: string -> ExecOutcome, run2: string -> ExecOutcome,
                                out1: string, out2: string, err: string)
    requires ParseTarget(target).Ok?
    requires var cmd := CaptureCommand(scriptPath, ParseTarget(target).value.paneNumber, lines);
             run1(cmd) == Completed(out1, err) && run2(cmd) == Completed(out2, err)
    requires StderrShown(err)
    ensures CaptureScreen(scriptPath, target, lines, run1) == CaptureScreen(scriptPath, target, lines, run2)
    ensures CaptureScreen(scriptPath, target, lines, run1) == Ok(ScreenErrorPrefix + err)
  {
  }

  /**
   * Progress notes never reach the sender either: two runs of the send command that print
   * the same output, with stderr that is not shown, both reply with that output's plain
   * text, trimmed.
   */
  lemma SendIgnoresProgressNotes(scriptPath: string, target: string, message: string, sendEnter: bool,
                                 run1: string -> ExecOutcome, run2: string -> ExecOutcome,
                                 out: string, e1: string, e2: string)
    requires ParseTarget(target).Ok?
    requires var cmd := SendCommand(scriptPath, ParseTarget(target).value.paneNumber, message, sendEnter);
             run1(cmd) == Completed(out, e1) && run2(cmd) == Completed(out, e2)
    requires !StderrShown(e1) && !StderrShown(e2)
    ensures SendMessage(scriptPath, target, message, sendEnter, run1)
              == SendMessage(scriptPath, target, message, sendEnter, run2)
    ensures SendMessage(scriptPath, target, message, sendEnter, run1) == Ok(Trim(StripSgr(out)))
  {
    FormatOutputIgnoresInfo(out, e1, e2);
  }

  /**
   * A screen is returned raw, colour codes and all, while the reply to a message is
   * cleaned: for the same coloured output, capturing gives the rendered text and sending
   * gives its plain text, trimmed.
   */
  lemma ScreenKeepsColourReplyDropsIt(scriptPath: string, target: string, message: string, sendEnter: bool,
                                      lines: Option<int>, run: string -> ExecOutcome, spans: seq<Span>)
    requires ParseTarget(target).Ok? && WellFormed(spans)
    requires var pane := ParseTarget(target).value.paneNumber;
             && run(SendCommand(scriptPath, pane, message, sendEnter)) == Completed(Render(spans), "")
             && run(CaptureCommand(scriptPath, pane, lines)) == Completed(Render(spans), "")
    ensures CaptureScreen(scriptPath, target, lines, run) == Ok(Render(spans))
    ensures SendMessage(scriptPath, target, message, sendEnter, run) == Ok(Trim(PlainText(spans)))
  {
    FormatOutputPlain(spans, "");
  }

  /**
   * Only the pane number of the address reaches the script: two addresses naming the same
   * pane number in different sessions or windows issue the same command.
   */
  lemma OnlyPaneNumberUsed(scriptPath: string, t1: string, t2: string, message: string,
                           sendEnter: bool, lines: Option<int>, run: string -> ExecOutcome)
    requires ParseTarget(t1).Ok? && ParseTarget(t2).Ok?
    requires ParseTarget(t1).value.paneNumber == ParseTarget(t2).value.paneNumber
    ensures SendMessage(scriptPath, t1, message, sendEnter, run)
              == SendMessage(scriptPath, t2, message, sendEnter, run)
    ensures CaptureScreen(scriptPath, t1, lines, run) == CaptureScreen(scriptPath, t2, lines, run)
  {
  }

  /** Example: pane `5` of window 0 of `alpha` and of window 3 of `beta` are the same to the script. */
  lemma OtherSessionSamePane()
    ensures ParseTarget("alpha:0.5") == Ok(Target("alpha", "0", "5", "alpha:0.5"))
    ensures ParseTarget("beta:3.5") == Ok(Target("beta", "3", "5", "beta:3.5"))
  {
    ParseTargetAssembled("alpha", "0", "5");
    assert "alpha" + ":" + "0" + "." + "5" == "alpha:0.5";
    ParseTargetAssembled("beta", "3", "5");
    assert "beta" + ":" + "3" + "." + "5" == "beta:3.5";
  }
}
