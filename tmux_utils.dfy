/**
 * The shared tmux helpers: parsing the pane address `session:window.pane` and cleaning
 * the output of a helper script. The same `parseTarget` and `formatOutput` are written
 * out again, character for character, in the agent manager and the pane controller;
 * both of those modules use the definitions here.
 */
module TmuxUtils {
  import opened Wrappers
  import opened Text

  /** A parsed pane address; `fullTarget` is the string it was parsed from. */
  datatype Target = Target(sessionName: string, windowNumber: string, paneNumber: string, fullTarget: string)

  // ---------------------------------------------------------------- the address grammar

  predicate NoLineTerminator(s: string) {
    forall k | 0 <= k < |s| :: !IsLineTerminator(s[k])
  }

  /**
   * `session`, `window` and `pane` are the three groups of a match of
   * `^([^:]+):([^.]+)\.(.+)$` against `s`: `[^:]+` and `[^.]+` are non-empty runs
   * without `:` and without `.`, and `.+` is a non-empty run without line terminators.
   */
  ghost predicate Captures(s: string, session: string, window: string, pane: string) {
    && s == session + ":" + window + "." + pane
    && |session| > 0 && ':' !in session
    && |window| > 0 && '.' !in window
    && |pane| > 0 && NoLineTerminator(pane)
  }

  ghost predicate MatchesGrammar(s: string) {
    exists session, window, pane :: Captures(s, session, window, pane)
  }

  const ExpectedFormat := ". Expected format: \"session:window.pane\" (e.g., \"multiagent:0.5\")"

  function InvalidTargetMessage(target: string): string {
    "Invalid tmux target format: " + "\"" + target + "\"" + ExpectedFormat
  }

  /** The position of the first `c` in `s`. */
  function IndexOf(s: string, c: char): (r: Option<nat>)
    ensures r.Some? ==> r.value < |s| && s[r.value] == c && c !in s[..r.value]
    ensures r.None? ==> c !in s
  {
    if s == [] then None
    else if s[0] == c then Some(0)
    else match IndexOf(s[1..], c)
      case None => None
      case Some(i) => assert s[1..][..i] == s[1..i + 1]; Some(i + 1)
  }

  lemma IndexOfFirst(s: string, c: char, i: nat)
    requires i < |s| && s[i] == c && c !in s[..i]
    ensures IndexOf(s, c) == Some(i)
  {
  }

  /**
   * `parseTarget`: the first `:` ends the session, the first `.` after it ends the
   * window, and the rest is the pane; any other string is refused with a message that
   * quotes it.
   */
  function ParseTarget(target: string): (r: Result<Target, string>)
    ensures r.Ok? ==> r.value.fullTarget == target
                      && Captures(target, r.value.sessionName, r.value.windowNumber, r.value.paneNumber)
    ensures r.Err? ==> r.error == InvalidTargetMessage(target)
  {
    match IndexOf(target, ':')
    case None => Err(InvalidTargetMessage(target))
    case Some(i) =>
      var rest := target[i + 1..];
      match IndexOf(rest, '.')
      case None => Err(InvalidTargetMessage(target))
      case Some(j) =>
        var session, window, pane := target[..i], rest[..j], rest[j + 1..];
        if |session| > 0 && |window| > 0 && |pane| > 0 && NoLineTerminator(pane) then
          assert target == session + ":" + window + "." + pane by {
            assert target == target[..i] + [':'] + rest;
            assert rest == window + ['.'] + pane;
          }
          Ok(Target(session, window, pane, target))
        else
          Err(InvalidTargetMessage(target))
  }

  /** Every decomposition the grammar allows is the one `ParseTarget` returns. */
  lemma ParseTargetComplete(s: string, session: string, window: string, pane: string)
    requires Captures(s, session, window, pane)
    ensures ParseTarget(s) == Ok(Target(session, window, pane, s))
  {
    var i := |session|;
    assert s[..i] == session;
    assert s[i] == ':';
    IndexOfFirst(s, ':', i);
    var rest := s[i + 1..];
    assert rest == window + "." + pane;
    assert rest[..|window|] == window;
    IndexOfFirst(rest, '.', |window|);
    assert rest[|window| + 1..] == pane;
  }

  /** An address assembled from three admissible parts parses back into those parts. */
  lemma ParseTargetAssembled(session: string, window: string, pane: string)
    requires |session| > 0 && ':' !in session
    requires |window| > 0 && '.' !in window
    requires |pane| > 0 && NoLineTerminator(pane)
    ensures var s := session + ":" + window + "." + pane;
            ParseTarget(s) == Ok(Target(session, window, pane, s))
  {
    ParseTargetComplete(session + ":" + window + "." + pane, session, window, pane);
  }

  /** `parseTarget` succeeds exactly on the strings the regular expression matches. */
  lemma ParseTargetMatchesGrammar(s: string)
    ensures ParseTarget(s).Ok? <==> MatchesGrammar(s)
  {
    if MatchesGrammar(s) {
      var session, window, pane :| Captures(s, session, window, pane);
      ParseTargetComplete(s, session, window, pane);
    }
  }

  /** The captures are determined by the address: the grammar is unambiguous. */
  lemma CapturesUnique(s: string, a: string, b: string, c: string, a': string, b': string, c': string)
    requires Captures(s, a, b, c) && Captures(s, a', b', c')
    ensures a == a' && b == b' && c == c'
  {
    ParseTargetComplete(s, a, b, c);
    ParseTargetComplete(s, a', b', c');
  }

  /** Printing the three parts back with `:` and `.` gives the address that was parsed. */
  lemma ParseTargetRoundTrip(s: string)
    requires ParseTarget(s).Ok?
    ensures var t := ParseTarget(s).value;
            t.sessionName + ":" + t.windowNumber + "." + t.paneNumber == s == t.fullTarget
  {
  }

  /** The error message names the rejected input between double quotes. */
  lemma ParseTargetErrorQuotesInput(s: string)
    requires ParseTarget(s).Err?
    ensures Contains(ParseTarget(s).error, "\"" + s + "\"")
  {
    assert ParseTarget(s).error == "Invalid tmux target format: " + ("\"" + s + "\"") + ExpectedFormat;
    ContainsSplice("Invalid tmux target format: ", "\"" + s + "\"", ExpectedFormat);
  }

  /** A string without `:` is never an address. */
  lemma NoColonRejected(s: string)
    requires ':' !in s
    ensures ParseTarget(s) == Err(InvalidTargetMessage(s))
  {
  }

  /** Example: `badtarget`, which has no `:`, is refused with the exact message. */
  lemma BadTargetRejected()
    ensures ParseTarget("badtarget") == Err(InvalidTargetMessage("badtarget"))
  {
    NoColonRejected("badtarget");
  }

  /** The pane part is everything after the first `.` that follows the session, `.` and `:` included. */
  lemma PaneMayHoldDotsAndColons()
    ensures ParseTarget("multiagent:0.5.1:x") == Ok(Target("multiagent", "0", "5.1:x", "multiagent:0.5.1:x"))
  {
    ParseTargetComplete("multiagent:0.5.1:x", "multiagent", "0", "5.1:x");
  }

  // ---------------------------------------------------------------- output cleaning

  const ESC: char := '\U{1B}'

  predicate IsSgrParameter(c: char) {
    IsDigit(c) || c == ';'
  }

  /** The length of the leading run of `[0-9;]` characters. */
  function ParameterRun(s: string): (n: nat)
    ensures n <= |s| && forall k | 0 <= k < n :: IsSgrParameter(s[k])
    ensures n == |s| || !IsSgrParameter(s[n])
  {
    if s != [] && IsSgrParameter(s[0]) then 1 + ParameterRun(s[1..]) else 0
  }

  /** The length of the `ESC [ [0-9;]* m` sequence at the start of `s`, or 0 when there is none. */
  function SgrLength(s: string): (n: nat)
    ensures n <= |s|
  {
    if |s| >= 2 && s[0] == ESC && s[1] == '[' then
      var k := ParameterRun(s[2..]);
      if 2 + k < |s| && s[2 + k] == 'm' then 3 + k else 0
    else 0
  }

  /**
   * `str.replace(/\x1b\[[0-9;]*m/g, '')`: matches are removed left to right, without
   * overlap. Removing never lengthens the text (`StripSgrKeepsCharacters` states which
   * characters remain).
   */
  function StripSgr(s: string): (r: string)
    ensures |r| <= |s|
    decreases |s|
  {
    if s == [] then []
    else if SgrLength(s) > 0 then StripSgr(s[SgrLength(s)..])
    else [s[0]] + StripSgr(s[1..])
  }

  /** Removing never introduces a character: the result is a sub-multiset of the input. */
  lemma {:induction false} StripSgrKeepsCharacters(s: string)
    ensures multiset(StripSgr(s)) <= multiset(s)
    decreases |s|
  {
    if s != [] {
      var n := SgrLength(s);
      if n > 0 {
        StripSgrKeepsCharacters(s[n..]);
        assert s == s[..n] + s[n..];
      } else {
        StripSgrKeepsCharacters(s[1..]);
        assert s == [s[0]] + s[1..];
      }
    }
  }

  /** A piece of coloured script output: plain text or one SGR escape with its parameters. */
  datatype Span = Text(text: string) | Sgr(params: string)

  predicate WellFormed(spans: seq<Span>) {
    forall k | 0 <= k < |spans| ::
      match spans[k]
      case Text(t) => ESC !in t
      case Sgr(p) => forall j | 0 <= j < |p| :: IsSgrParameter(p[j])
  }

  function SgrSequence(params: string): string {
    [ESC, '['] + params + "m"
  }

  function Render(spans: seq<Span>): string {
    if spans == [] then []
    else
      (match spans[0] case Text(t) => t case Sgr(p) => SgrSequence(p)) + Render(spans[1..])
  }

  function PlainText(spans: seq<Span>): string {
    if spans == [] then []
    else (match spans[0] case Text(t) => t case Sgr(_) => []) + PlainText(spans[1..])
  }

  lemma {:induction false} StripSgrPlainPrefix(t: string, rest: string)
    requires ESC !in t
    ensures StripSgr(t + rest) == t + StripSgr(rest)
    decreases |t|
  {
    if t != [] {
      assert (t + rest)[1..] == t[1..] + rest;
      assert (t + rest)[0] == t[0] != ESC;
      assert SgrLength(t + rest) == 0;
      assert StripSgr(t + rest) == [t[0]] + StripSgr(t[1..] + rest);
      StripSgrPlainPrefix(t[1..], rest);
      AppendAssoc([t[0]], t[1..], StripSgr(rest));
      assert [t[0]] + t[1..] == t;
    } else {
      assert t + rest == rest;
    }
  }

  lemma SgrSequenceStripped(p: string, rest: string)
    requires forall j | 0 <= j < |p| :: IsSgrParameter(p[j])
    ensures StripSgr(SgrSequence(p) + rest) == StripSgr(rest)
  {
    var s := SgrSequence(p) + rest;
    assert s[2..] == p + ("m" + rest);
    ParameterRunPrefix(p, "m" + rest);
    assert SgrLength(s) == 3 + |p|;
    assert s[3 + |p|..] == rest;
  }

  lemma {:induction false} ParameterRunPrefix(p: string, rest: string)
    requires forall j | 0 <= j < |p| :: IsSgrParameter(p[j])
    requires rest == [] || !IsSgrParameter(rest[0])
    ensures ParameterRun(p + rest) == |p|
    decreases |p|
  {
    if p != [] {
      assert (p + rest)[1..] == p[1..] + rest;
      ParameterRunPrefix(p[1..], rest);
    } else {
      assert p + rest == rest;
    }
  }

  /** Cleaning coloured output gives back exactly its text: stripping inverts colouring. */
  lemma {:induction false} StripSgrRender(spans: seq<Span>)
    requires WellFormed(spans)
    ensures StripSgr(Render(spans)) == PlainText(spans)
  {
    if spans != [] {
      assert WellFormed(spans[1..]) by {
        forall k | 0 <= k < |spans| - 1 ensures spans[1..][k] == spans[k + 1] { }
      }
      StripSgrRender(spans[1..]);
      match spans[0]
      case Text(t) =>
        assert ESC !in t by { assert spans[0] == Text(t); }
        StripSgrPlainPrefix(t, Render(spans[1..]));
      case Sgr(p) =>
        assert forall j | 0 <= j < |p| :: IsSgrParameter(p[j]);
        SgrSequenceStripped(p, Render(spans[1..]));
    }
  }

  /** Text without an escape character is left unchanged. */
  lemma StripSgrNoEscape(s: string)
    requires ESC !in s
    ensures StripSgr(s) == s
  {
    StripSgrPlainPrefix(s, []);
    assert s + [] == s;
  }

  /** Matches are not searched for again inside the cleaned text, so one can survive. */
  lemma StripSgrSinglePass()
    ensures StripSgr([ESC, '[', ESC, '[', 'm', 'm']) == [ESC, '[', 'm']
  {
    var s := [ESC, '[', ESC, '[', 'm', 'm'];
    assert SgrLength(s) == 0 by { assert ParameterRun(s[2..]) == 0; }
    assert s[1..] == ['[', ESC, '[', 'm', 'm'];
    assert SgrLength(s[1..]) == 0;
    var t := [ESC, '[', 'm', 'm'];
    assert s[1..][1..] == t;
    assert ParameterRun(t[2..]) == 0;
    assert SgrLength(t) == 3;
    assert t[3..] == ['m'];
    assert StripSgr(['m']) == ['m'];
    assert StripSgr(t) == ['m'];
    assert StripSgr(s[1..]) == ['['] + StripSgr(t);
    assert StripSgr(s) == [ESC] + StripSgr(s[1..]);
  }

  /** stderr is shown only when it is non-empty and is neither an `[INFO]` nor a `[SUCCESS]` message. */
  predicate StderrShown(stderr: string) {
    stderr != [] && !Contains(stderr, "[INFO]") && !Contains(stderr, "[SUCCESS]")
  }

  /** `formatOutput(stdout, stderr)`. */
  function FormatOutput(stdout: string, stderr: string): (r: string)
    ensures r == [] || (!IsWhitespace(r[0]) && !IsWhitespace(r[|r| - 1]))
    ensures !StderrShown(stderr) ==> r == Trim(StripSgr(stdout))
    ensures StderrShown(stderr) ==> r == Trim(StripSgr(stdout) + "\n" + StripSgr(stderr))
  {
    assert StripSgr([]) == [];
    var output := if stdout != [] then StripSgr(stdout) else [];
    var output := if StderrShown(stderr) then output + "\n" + StripSgr(stderr) else output;
    Trim(output)
  }

  /** Informational stderr never changes the result. */
  lemma FormatOutputIgnoresInfo(stdout: string, e1: string, e2: string)
    requires !StderrShown(e1) && !StderrShown(e2)
    ensures FormatOutput(stdout, e1) == FormatOutput(stdout, e2)
  {
  }

  /** With nothing on stdout and nothing shown from stderr the result is empty. */
  lemma FormatOutputEmpty(stderr: string)
    requires !StderrShown(stderr)
    ensures FormatOutput("", stderr) == ""
  {
  }

  /** Coloured stdout comes back as its plain text, trimmed. */
  lemma FormatOutputPlain(spans: seq<Span>, stderr: string)
    requires WellFormed(spans) && !StderrShown(stderr)
    ensures FormatOutput(Render(spans), stderr) == Trim(PlainText(spans))
  {
    StripSgrRender(spans);
  }
}
