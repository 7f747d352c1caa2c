/**
 * The terminal-state classifier of the agent manager (`analyzeAgentState`): a total,
 * deterministic function from the captured text of a tmux pane to the state of the
 * coding agent running in it. It is a chain of substring tests with early returns, and
 * the order of the chain is the behaviour: several markers routinely coexist in one
 * scrollback buffer, and the first test that fires decides.
 */
module AgentState {
  import opened Wrappers
  import opened Text

  datatype State = Stopped | ExecutingClaude | RunningClaude | AuthClaude | AuthGemini | RunningGemini

  datatype Agent = NoAgent | Claude | Gemini

  /** Which `details` text a result carries; `DetailText` gives the text itself. */
  datatype Detail =
    | Idle | ShellPrompt | LoggedOut | AuthHelper
    | ClaudeExecuting | ClaudeStarted | ClaudeAuthenticating
    | GeminiAuthenticating | GeminiStarted

  datatype Analysis = Analysis(state: State, agent: Agent, details: Detail)

  /** The agent each state belongs to, read off the state's name. */
  function AgentOf(s: State): Agent {
    match s
    case Stopped => NoAgent
    case ExecutingClaude | RunningClaude | AuthClaude => Claude
    case AuthGemini | RunningGemini => Gemini
  }

  function DetailText(d: Detail): string {
    match d
    case Idle => "停止中"
    case ShellPrompt => "停止中（シェルプロンプト）"
    case LoggedOut => "停止中（ログアウト済み）"
    case AuthHelper => "停止中（AUTH-HELPER）"
    case ClaudeExecuting => "Claude実行中"
    case ClaudeStarted => "Claude起動完了"
    case ClaudeAuthenticating => "Claude認証中"
    case GeminiAuthenticating => "Gemini認証中"
    case GeminiStarted => "Gemini起動完了"
  }

  // ---------------------------------------------------------------- the two views of the text

  /** `replace(/\n/g, ' ')`. */
  function ReplaceNewlines(s: string): string {
    seq(|s|, i requires 0 <= i < |s| => if s[i] == '\n' then ' ' else s[i])
  }

  /**
   * `replace(/\s+/g, ' ')`: every maximal run of whitespace becomes one space.
   * `inRun` says whether the text before `s` ended inside such a run.
   */
  function CollapseRun(s: string, inRun: bool): (r: string)
    ensures |r| <= |s|
    decreases |s|
  {
    if s == [] then []
    else if IsWhitespace(s[0]) then (if inRun then [] else " ") + CollapseRun(s[1..], true)
    else [s[0]] + CollapseRun(s[1..], false)
  }

  function CollapseWhitespace(s: string): string {
    CollapseRun(s, false)
  }

  /** The only whitespace is the plain space, and no two spaces are adjacent. */
  predicate SingleSpaced(s: string) {
    && (forall k | 0 <= k < |s| :: IsWhitespace(s[k]) ==> s[k] == ' ')
    && (forall k | 0 <= k < |s| - 1 :: !(s[k] == ' ' && s[k + 1] == ' '))
  }

  /** Collapsing leaves single spaces only, and none at the front after a run. */
  lemma {:induction false} CollapseRunSpaced(s: string, inRun: bool)
    ensures SingleSpaced(CollapseRun(s, inRun))
    ensures inRun && CollapseRun(s, inRun) != [] ==> CollapseRun(s, inRun)[0] != ' '
    decreases |s|
  {
    if s != [] {
      var run := IsWhitespace(s[0]);
      var head, tail := RunHead(s[0], inRun), CollapseRun(s[1..], run);
      CollapseRunSpaced(s[1..], run);
      CollapseRunStep(s, inRun);
      if head == [] {
        assert head + tail == tail;
      } else {
        assert head == [head[0]];
        SpacedCons(head[0], tail);
      }
    }
  }

  /** One visible character or a single space before a single-spaced text keeps it single-spaced. */
  lemma SpacedCons(c: char, tail: string)
    requires SingleSpaced(tail) && (IsWhitespace(c) ==> c == ' ')
    requires c == ' ' ==> tail == [] || tail[0] != ' '
    ensures SingleSpaced([c] + tail)
  {
    var r := [c] + tail;
    assert forall k | 1 <= k < |r| :: r[k] == tail[k - 1];
  }

  /**
   * `normalizedLower`: newlines flattened, whitespace collapsed, lower-cased. The result
   * is never longer than the screen, holds no ASCII capital and no line break, and its
   * only whitespace is single spaces.
   */
  function NormalizedLower(screen: string): (r: string)
    ensures |r| <= |screen| && SingleSpaced(r)
    ensures forall k | 0 <= k < |r| :: !IsUpperAscii(r[k])
  {
    var c := CollapseWhitespace(ReplaceNewlines(screen));
    CollapseRunSpaced(ReplaceNewlines(screen), false);
    LowerWhitespace(c);
    Lower(c)
  }

  // ---------------------------------------------------------------- the last non-blank line

  /** `!line.trim()`: the line is whitespace only (`BlankLineIsTrimEmpty`). */
  predicate IsBlankLine(line: string) {
    AllWhitespace(line)
  }

  lemma BlankLineIsTrimEmpty(line: string)
    ensures IsBlankLine(line) <==> Trim(line) == []
  {
  }

  /**
   * The backward search for the last line whose trimmed text is not empty: nothing
   * exactly when every line is blank, otherwise one of the lines, and not a blank one.
   */
  function LastNonBlankLine(lines: seq<string>): (r: Option<string>)
    ensures r.None? <==> forall k | 0 <= k < |lines| :: IsBlankLine(lines[k])
    ensures r.Some? ==> r.value in lines && !IsBlankLine(r.value)
  {
    assert forall k | 0 <= k < |lines| - 1 :: lines[..|lines| - 1][k] == lines[k];
    if lines == [] then None
    else if !IsBlankLine(lines[|lines| - 1]) then Some(lines[|lines| - 1])
    else LastNonBlankLine(lines[..|lines| - 1])
  }

  /** `lastValidLine`: the last non-blank line, lower-cased, or `''` when every line is blank. */
  function LastValidLine(screen: string): string {
    Lower(LastNonBlankLine(Split(screen, '\n')).GetOr(""))
  }

  /** `line.match(/\$\s*$/)`. */
  predicate DollarAtEnd(line: string) {
    exists k | 0 <= k < |line| :: line[k] == '$' && AllWhitespace(line[k + 1..])
  }

  /** `content.match(/.*[$#]\s*$/)`. */
  predicate PromptCharAtEnd(content: string) {
    exists k | 0 <= k < |content| :: (content[k] == '$' || content[k] == '#') && AllWhitespace(content[k + 1..])
  }

  // ---------------------------------------------------------------- the rules, in source order

  /** Rule 0: the last non-blank line ends in a shell prompt `$`. */
  predicate ShellPromptTail(screen: string) {
    DollarAtEnd(LastValidLine(screen))
  }

  /** Rule 1: Claude shows its interrupt hint while a request runs. */
  predicate InterruptHint(content: string) {
    Contains(content, "esc to interrupt") || Contains(content, "escape to interrupt")
  }

  /** Rule 2; its third alternative tests lower-cased text for a capitalised phrase and never holds. */
  predicate LoggedOutResidue(content: string, normalizedLower: string) {
    || Contains(normalizedLower, "successfully logged out")
    || (Contains(content, "$") && Contains(normalizedLower, "logged out"))
    || (Contains(content, "Successfully logged out") && Contains(content, "$"))
  }

  /** Rule 2.5; the upper-case alternative never holds. */
  predicate AuthHelperPrompt(content: string) {
    Contains(content, "(auth-helper)") || Contains(content, "(AUTH-HELPER)")
  }

  /** "bypassing permissions", as the source tests it; the capitalised alternative never holds. */
  predicate BypassingPermissions(content: string) {
    || (Contains(content, "bypassing") && Contains(content, "permissions"))
    || (Contains(content, "Bypassing") && Contains(content, "Permissions"))
  }

  /** Rule 3a: the help hint with the permissions-bypass banner. */
  predicate HelpWithBypass(content: string, normalizedLower: string) {
    && (Contains(content, "/help for help") || Contains(normalizedLower, "/help for help"))
    && BypassingPermissions(content)
  }

  /** Rule 3b: the help hint with the current-setup line, and no authentication prompt. */
  predicate HelpWithSetup(content: string, normalizedLower: string) {
    && (|| (Contains(content, "/help for help") && Contains(content, "current setup"))
        || (Contains(content, "/help for help") && Contains(content, "for your current setup"))
        || (Contains(normalizedLower, "/help for help") && Contains(normalizedLower, "current setup")))
    && !Contains(content, "claude.ai/oauth/authorize")
    && !Contains(content, "paste code here")
    && !Contains(content, "oauth error")
    && !Contains(content, "browser didn't open")
  }

  /** Rule 3c: a greeting or tip, unless the deny-list suppresses it. */
  predicate StartupGreeting(content: string) {
    && (Contains(content, "how can i help") || Contains(content, "try \"edit") || Contains(content, "tip:"))
    && !Contains(content, "preview")
    && !Contains(content, "console.log")
    && !Contains(content, "press enter to continue")
    && !Contains(content, "esc to interrupt")
    && !Contains(content, "(auth-helper)") && !Contains(content, "(AUTH-HELPER)")
  }

  /** Rule 3d: the bypass banner with an input prompt, and no paste-code or interrupt marker. */
  predicate BypassAtPrompt(content: string) {
    && BypassingPermissions(content)
    && Contains(content, ">")
    && !Contains(content, "paste code here")
    && !Contains(content, "esc to interrupt")
  }

  /** Rule 4: Claude's login, OAuth, security-notice and theme screens. */
  predicate ClaudeAuthMarker(content: string) {
    || Contains(content, "select login method")
    || Contains(content, "claude account with subscription")
    || Contains(content, "anthropic console account")
    || Contains(content, "paste code here if prompted")
    || Contains(content, "browser didn't open")
    || Contains(content, "use the url below")
    || Contains(content, "claude.ai/oauth/authorize")
    || Contains(content, "press enter to continue")
    || Contains(content, "press enter to retry")
    || Contains(content, "security notes")
    || Contains(content, "login successful")
    || Contains(content, "logged in as")
    || Contains(content, "oauth error")
    || Contains(content, "paste code here")
    || (Contains(content, "dangerous") && Contains(content, "yes, i accept"))
    || (Contains(content, "use claude code's terminal setup") && !Contains(content, "/help for help"))
    || (Contains(content, "choose the text style") && Contains(content, "preview"))
    || (Contains(content, "preview") && (Contains(content, "dark mode") || Contains(content, "light mode")))
  }

  /** Rule 5: Gemini's authentication screens. */
  predicate GeminiAuthMarker(content: string) {
    || Contains(content, "waiting for auth")
    || Contains(content, "login with google")
    || Contains(content, "vertex ai")
    || Contains(content, "gemini api key")
  }

  /** Rule 6a: Gemini's input prompt, also when the phrase is wrapped across lines. */
  predicate GeminiPrompt(content: string, normalizedLower: string) {
    && (Contains(content, "type your message") || Contains(normalizedLower, "type your message"))
    && !Contains(content, "waiting for auth")
  }

  /** Rule 6b: a Gemini model name. */
  predicate GeminiModel(content: string) {
    || Contains(content, "gemini-2.")
    || Contains(content, "gemini-1.")
    || (Contains(content, "gemini-")
        && (Contains(content, "2.5-pro") || Contains(content, "2.0-pro") || Contains(content, "1.5-pro")))
  }

  /** Rule 6c: Gemini's help line. */
  predicate GeminiHelp(content: string) {
    Contains(content, "/help") && Contains(content, "information") && !Contains(content, "waiting for auth")
  }

  /** Rule 7: a bare shell with neither agent named. */
  predicate ShellOnly(content: string) {
    && (PromptCharAtEnd(content) || Contains(content, "bash") || Contains(content, "sh-"))
    && !Contains(content, "claude")
    && !Contains(content, "gemini")
  }

  /**
   * The outcome of every test of the chain on one text. The tests are pure and total,
   * so computing all of them up front and then taking the first that holds gives the
   * same answer as the early returns of the source.
   */
  datatype Signals = Signals(
    shellPromptTail: bool, interruptHint: bool, loggedOutResidue: bool, authHelperPrompt: bool,
    helpWithBypass: bool, helpWithSetup: bool, startupGreeting: bool, bypassAtPrompt: bool,
    claudeAuthMarker: bool, geminiAuthMarker: bool,
    geminiPrompt: bool, geminiModel: bool, geminiHelp: bool, shellOnly: bool)

  function SignalsOf(screenContent: string): Signals {
    var content := Lower(screenContent);
    var normalizedLower := NormalizedLower(screenContent);
    Signals(
      ShellPromptTail(screenContent), InterruptHint(content),
      LoggedOutResidue(content, normalizedLower), AuthHelperPrompt(content),
      HelpWithBypass(content, normalizedLower), HelpWithSetup(content, normalizedLower),
      StartupGreeting(content), BypassAtPrompt(content),
      ClaudeAuthMarker(content), GeminiAuthMarker(content),
      GeminiPrompt(content, normalizedLower), GeminiModel(content), GeminiHelp(content),
      ShellOnly(content))
  }

  /** The priority chain: the first test that holds decides. */
  function Decide(g: Signals): (r: Analysis)
    ensures r.agent == AgentOf(r.state)
  {
    if g.shellPromptTail then Analysis(Stopped, NoAgent, ShellPrompt)
    else if g.interruptHint then Analysis(ExecutingClaude, Claude, ClaudeExecuting)
    else if g.loggedOutResidue then Analysis(Stopped, NoAgent, LoggedOut)
    else if g.authHelperPrompt then Analysis(Stopped, NoAgent, AuthHelper)
    else if g.helpWithBypass then Analysis(RunningClaude, Claude, ClaudeStarted)
    else if g.helpWithSetup then Analysis(RunningClaude, Claude, ClaudeStarted)
    else if g.startupGreeting then Analysis(RunningClaude, Claude, ClaudeStarted)
    else if g.bypassAtPrompt then Analysis(RunningClaude, Claude, ClaudeStarted)
    else if g.claudeAuthMarker then Analysis(AuthClaude, Claude, ClaudeAuthenticating)
    else if g.geminiAuthMarker then Analysis(AuthGemini, Gemini, GeminiAuthenticating)
    else if g.geminiPrompt then Analysis(RunningGemini, Gemini, GeminiStarted)
    else if g.geminiModel then Analysis(RunningGemini, Gemini, GeminiStarted)
    else if g.geminiHelp then Analysis(RunningGemini, Gemini, GeminiStarted)
    else if g.shellOnly then Analysis(Stopped, NoAgent, Idle)
    else Analysis(Stopped, NoAgent, Idle)
  }

  /** `analyzeAgentState(screenContent)`. */
  function AnalyzeAgentState(screenContent: string): (r: Analysis)
    ensures r.agent == AgentOf(r.state)
  {
    if screenContent == [] || Trim(screenContent) == [] then Analysis(Stopped, NoAgent, Idle)
    else Decide(SignalsOf(screenContent))
  }

  // ---------------------------------------------------------------- the trailing prompt

  lemma DollarAtEndIff(line: string)
    ensures DollarAtEnd(line) <==> LastNonSpace(line) == Some('$')
  {
    if DollarAtEnd(line) {
      var k :| 0 <= k < |line| && line[k] == '$' && AllWhitespace(line[k + 1..]);
      LastNonSpaceAt(line, k);
    }
    if LastNonSpace(line) == Some('$') {
      LastNonSpaceWitness(line);
    }
  }

  lemma AllWhitespaceSnoc(s: string, c: char)
    ensures AllWhitespace(s + [c]) <==> AllWhitespace(s) && IsWhitespace(c)
  {
    if AllWhitespace(s + [c]) {
      assert (s + [c])[|s|] == c;
      forall i | 0 <= i < |s| ensures IsWhitespace(s[i]) { assert (s + [c])[i] == s[i]; }
    }
  }

  /** The last non-blank line ends where the whole text's last non-blank character is. */
  lemma {:induction false} LastLineKeepsLastNonSpace(s: string)
    ensures LastNonSpace(LastNonBlankLine(Split(s, '\n')).GetOr("")) == LastNonSpace(s)
    decreases |s|
  {
    if s == [] {
      assert LastNonBlankLine([[]]) == LastNonBlankLine([]);
    } else {
      var p, c := s[..|s| - 1], s[|s| - 1];
      assert s == p + [c];
      LastLineKeepsLastNonSpace(p);
      SplitSnoc(p, c, '\n');
      var f := Split(p, '\n');
      var n := |f|;
      if c == '\n' {
        LastNonBlankLineSnoc(f, []);
        LastNonSpaceAppendSpace(p, c);
      } else {
        var init, last := f[..n - 1], f[n - 1];
        assert f == init + [last];
        LastNonBlankLineSnoc(init, last);
        LastNonBlankLineSnoc(init, last + [c]);
        AllWhitespaceSnoc(last, c);
        if !IsWhitespace(c) {
          assert LastNonSpace(last + [c]) == Some(c) == LastNonSpace(p + [c]);
        } else {
          LastNonSpaceAppendSpace(last, c);
          LastNonSpaceAppendSpace(p, c);
        }
      }
    }
  }

  /** The backward search either skips a blank final line or stops at it. */
  lemma LastNonBlankLineSnoc(init: seq<string>, line: string)
    ensures LastNonBlankLine(init + [line]) == if IsBlankLine(line) then LastNonBlankLine(init) else Some(line)
  {
    assert (init + [line])[..|init|] == init;
  }

  /** The backward search finds the last line that is not blank, and nothing only when all are. */
  lemma {:induction false} LastNonBlankLineSpec(lines: seq<string>)
    ensures LastNonBlankLine(lines).None? <==> forall k | 0 <= k < |lines| :: IsBlankLine(lines[k])
    ensures LastNonBlankLine(lines).Some? ==>
              exists k | 0 <= k < |lines| :: && lines[k] == LastNonBlankLine(lines).value
                                             && !IsBlankLine(lines[k])
                                             && forall j | k < j < |lines| :: IsBlankLine(lines[j])
  {
    if lines != [] {
      var init := lines[..|lines| - 1];
      LastNonBlankLineSpec(init);
      assert forall k | 0 <= k < |init| :: init[k] == lines[k];
      if IsBlankLine(lines[|lines| - 1]) {
        if LastNonBlankLine(init).Some? {
          var k :| 0 <= k < |init| && init[k] == LastNonBlankLine(init).value && !IsBlankLine(init[k])
                   && forall j | k < j < |init| :: IsBlankLine(init[j]);
          assert forall j | k < j < |lines| :: IsBlankLine(lines[j]);
        }
      }
    }
  }

  /** There is no non-blank line exactly when the whole text is whitespace. */
  lemma NoLastLineIffBlank(s: string)
    ensures LastNonBlankLine(Split(s, '\n')).None? <==> AllWhitespace(s)
  {
    LastLineKeepsLastNonSpace(s);
    var last := LastNonBlankLine(Split(s, '\n'));
    if last.None? {
      assert LastNonSpace("") == None;
    } else {
      LastNonBlankLineSpec(Split(s, '\n'));
      assert !IsBlankLine(last.value);
    }
  }

  /** Rule 0 fires exactly when the last non-blank character of the whole text is `$`. */
  lemma ShellPromptTailIff(screen: string)
    ensures ShellPromptTail(screen) <==> LastNonSpace(screen) == Some('$')
  {
    LastLineKeepsLastNonSpace(screen);
    var last := LastNonBlankLine(Split(screen, '\n')).GetOr("");
    LastNonSpaceLower(last);
    assert LastValidLine(screen) == Lower(last);
    DollarAtEndIff(Lower(last));
  }

  /** Empty or whitespace-only text is Stopped with no agent. */
  lemma BlankScreenStopped(screen: string)
    requires AllWhitespace(screen)
    ensures AnalyzeAgentState(screen) == Analysis(Stopped, NoAgent, Idle)
  {
  }

  /** Text that is not blank is decided by the chain alone. */
  lemma AnalyzeVisible(screen: string)
    requires !AllWhitespace(screen)
    ensures AnalyzeAgentState(screen) == Decide(SignalsOf(screen))
  {
  }

  /**
   * A trailing `$` prompt wins over everything, however many authentication or
   * startup markers the scrollback holds above it.
   */
  lemma TrailingPromptWins(screen: string)
    requires LastNonSpace(screen) == Some('$')
    ensures AnalyzeAgentState(screen) == Analysis(Stopped, NoAgent, ShellPrompt)
  {
    ShellPromptTailIff(screen);
  }

  lemma DecideShellPrompt(g: Signals)
    ensures Decide(g).details == ShellPrompt <==> g.shellPromptTail
  {
  }

  /** The shell-prompt detail is reported exactly when the text ends in `$`. */
  lemma ShellPromptDetailIff(screen: string)
    ensures AnalyzeAgentState(screen).details == ShellPrompt <==> LastNonSpace(screen) == Some('$')
  {
    ShellPromptTailIff(screen);
    if !AllWhitespace(screen) {
      DecideShellPrompt(SignalsOf(screen));
    }
  }

  lemma LowerNotBlank(screen: string, p: string)
    requires |p| > 0 && !IsWhitespace(p[0]) && Contains(Lower(screen), p)
    ensures !AllWhitespace(screen)
  {
    ContainsNotBlank(Lower(screen), p, 0);
    LowerWhitespace(screen);
  }

  lemma DecideExecuting(g: Signals)
    ensures Decide(g).state == ExecutingClaude <==> !g.shellPromptTail && g.interruptHint
  {
  }

  lemma InterruptHintNotBlank(screen: string)
    requires InterruptHint(Lower(screen))
    ensures !AllWhitespace(screen)
  {
    if Contains(Lower(screen), "esc to interrupt") {
      LowerNotBlank(screen, "esc to interrupt");
    } else {
      LowerNotBlank(screen, "escape to interrupt");
    }
  }

  /**
   * Claude is executing exactly when the interrupt hint appears and the text does not
   * end in a shell prompt: the hint outranks every later rule.
   */
  lemma ExecutingIff(screen: string)
    ensures AnalyzeAgentState(screen).state == ExecutingClaude
            <==> LastNonSpace(screen) != Some('$') && InterruptHint(Lower(screen))
  {
    ShellPromptTailIff(screen);
    if AllWhitespace(screen) {
      BlankScreenStopped(screen);
      if InterruptHint(Lower(screen)) {
        InterruptHintNotBlank(screen);
      }
    } else {
      AnalyzeVisible(screen);
      var g := SignalsOf(screen);
      assert g.shellPromptTail == ShellPromptTail(screen) && g.interruptHint == InterruptHint(Lower(screen));
      DecideExecuting(g);
    }
  }

  /** The interrupt hint is found whatever its letter case in the pane. */
  lemma InterruptHintAnyCase(screen: string, hint: string)
    requires Lower(hint) == "esc to interrupt" && Contains(screen, hint)
    ensures InterruptHint(Lower(screen))
  {
    ContainsLower(screen, hint);
  }

  /** The capitalised phrases the source tests against the lower-cased text never match. */
  lemma MixedCaseChecksNeverFire(screen: string)
    ensures !Contains(Lower(screen), "Successfully logged out")
    ensures !Contains(Lower(screen), "(AUTH-HELPER)")
    ensures !Contains(Lower(screen), "Bypassing") && !Contains(Lower(screen), "Permissions")
  {
    LowerExcludesUpper(screen, "Successfully logged out", 0);
    LowerExcludesUpper(screen, "(AUTH-HELPER)", 1);
    LowerExcludesUpper(screen, "Bypassing", 0);
    LowerExcludesUpper(screen, "Permissions", 0);
  }

  /** No test before the help-with-bypass one holds. */
  predicate BeforeHelpSilent(g: Signals) {
    !g.shellPromptTail && !g.interruptHint && !g.loggedOutResidue && !g.authHelperPrompt
  }

  lemma DecideHelpBypass(g: Signals)
    requires BeforeHelpSilent(g) && g.helpWithBypass
    ensures Decide(g) == Analysis(RunningClaude, Claude, ClaudeStarted)
  {
  }

  /** Text showing the bypass banner is never blank. */
  lemma BannerNotBlank(screen: string)
    requires BypassingPermissions(Lower(screen))
    ensures !AllWhitespace(screen)
  {
    if Contains(Lower(screen), "bypassing") {
      LowerNotBlank(screen, "bypassing");
    } else {
      LowerNotBlank(screen, "Bypassing");
    }
  }

  /**
   * The help hint with the bypass banner wins before the authentication list is
   * consulted: a paste-code prompt or an OAuth URL in the same text changes nothing.
   */
  lemma HelpBypassBeforeAuthentication(screen: string)
    requires BeforeHelpSilent(SignalsOf(screen)) && HelpWithBypass(Lower(screen), NormalizedLower(screen))
    ensures AnalyzeAgentState(screen) == Analysis(RunningClaude, Claude, ClaudeStarted)
  {
    BannerNotBlank(screen);
    AnalyzeVisible(screen);
    DecideHelpBypass(SignalsOf(screen));
  }

  /** A screen past the interrupt rule that shows logout residue or the helper prompt is stopped. */
  lemma DecideResidue(g: Signals)
    requires !g.shellPromptTail && !g.interruptHint
    ensures g.loggedOutResidue ==> Decide(g) == Analysis(Stopped, NoAgent, LoggedOut)
    ensures !g.loggedOutResidue && g.authHelperPrompt ==> Decide(g) == Analysis(Stopped, NoAgent, AuthHelper)
  {
  }

  /** Logout residue or the helper prompt stops the screen once the prompt and interrupt rules are silent. */
  lemma ResidueStopped(screen: string)
    requires !AllWhitespace(screen) && LastNonSpace(screen) != Some('$') && !InterruptHint(Lower(screen))
    requires LoggedOutResidue(Lower(screen), NormalizedLower(screen)) || AuthHelperPrompt(Lower(screen))
    ensures AnalyzeAgentState(screen).state == Stopped && AnalyzeAgentState(screen).agent == NoAgent
    ensures AnalyzeAgentState(screen).details
            == if LoggedOutResidue(Lower(screen), NormalizedLower(screen)) then LoggedOut else AuthHelper
  {
    ShellPromptTailIff(screen);
    DecideResidue(SignalsOf(screen));
  }

  /** No test before the Claude authentication list holds. */
  predicate BeforeAuthSilent(g: Signals) {
    BeforeHelpSilent(g) && !g.helpWithBypass && !g.helpWithSetup && !g.startupGreeting && !g.bypassAtPrompt
  }

  /**
   * The startup rules after help-with-bypass, in order: help-with-setup, the greeting,
   * the bypass banner at a prompt, and then the Claude authentication list.
   */
  lemma DecideClaudeStartup(g: Signals)
    requires BeforeHelpSilent(g) && !g.helpWithBypass
    ensures g.helpWithSetup ==> Decide(g) == Analysis(RunningClaude, Claude, ClaudeStarted)
    ensures !g.helpWithSetup && g.startupGreeting ==> Decide(g) == Analysis(RunningClaude, Claude, ClaudeStarted)
    ensures !g.helpWithSetup && !g.startupGreeting && g.bypassAtPrompt
            ==> Decide(g) == Analysis(RunningClaude, Claude, ClaudeStarted)
    ensures BeforeAuthSilent(g) && g.claudeAuthMarker ==> Decide(g) == Analysis(AuthClaude, Claude, ClaudeAuthenticating)
    ensures BeforeAuthSilent(g) ==> (Decide(g).state == AuthClaude <==> g.claudeAuthMarker)
  {
  }

  /** A blank screen normalises to at most one space. */
  lemma BlankScreenNormalized(screen: string)
    requires AllWhitespace(screen)
    ensures |NormalizedLower(screen)| <= 1
  {
    ReplaceNewlinesBlank(screen);
    CollapseBlank(ReplaceNewlines(screen));
  }

  /** The help hint, in either view, rules out the blank rule. */
  lemma HelpHintNotBlank(screen: string)
    requires Contains(Lower(screen), "/help for help") || Contains(NormalizedLower(screen), "/help for help")
    ensures !AllWhitespace(screen)
  {
    if Contains(Lower(screen), "/help for help") {
      LowerNotBlank(screen, "/help for help");
    } else if AllWhitespace(screen) {
      BlankScreenNormalized(screen);
    }
  }

  /** The help hint with the current-setup line and no authentication prompt gives running Claude. */
  lemma HelpWithSetupRunning(screen: string)
    requires BeforeHelpSilent(SignalsOf(screen)) && !HelpWithBypass(Lower(screen), NormalizedLower(screen))
    requires HelpWithSetup(Lower(screen), NormalizedLower(screen))
    ensures AnalyzeAgentState(screen) == Analysis(RunningClaude, Claude, ClaudeStarted)
  {
    HelpHintNotBlank(screen);
    AnalyzeVisible(screen);
    DecideClaudeStartup(SignalsOf(screen));
  }

  /** A greeting or tip with none of the deny-list markers gives running Claude. */
  lemma StartupGreetingRunning(screen: string)
    requires BeforeHelpSilent(SignalsOf(screen)) && !HelpWithBypass(Lower(screen), NormalizedLower(screen))
    requires !HelpWithSetup(Lower(screen), NormalizedLower(screen)) && StartupGreeting(Lower(screen))
    ensures AnalyzeAgentState(screen) == Analysis(RunningClaude, Claude, ClaudeStarted)
  {
    GreetingSignals(screen);
    AnalyzeVisible(screen);
    DecideClaudeStartup(SignalsOf(screen));
  }

  lemma GreetingSignals(screen: string)
    requires StartupGreeting(Lower(screen))
    ensures !AllWhitespace(screen) && SignalsOf(screen).startupGreeting
  {
    if Contains(Lower(screen), "how can i help") {
      LowerNotBlank(screen, "how can i help");
    } else if Contains(Lower(screen), "try \"edit") {
      LowerNotBlank(screen, "try \"edit");
    } else {
      LowerNotBlank(screen, "tip:");
    }
  }

  /** `press enter to continue` suppresses the greeting and is an authentication marker. */
  lemma ContinuePromptMarks(content: string)
    requires Contains(content, "press enter to continue")
    ensures !StartupGreeting(content) && ClaudeAuthMarker(content)
  {
  }

  /** `paste code here` vetoes the setup and banner rules and is an authentication marker. */
  lemma PasteCodeMarks(content: string, normalizedLower: string)
    requires Contains(content, "paste code here")
    ensures !HelpWithSetup(content, normalizedLower) && !BypassAtPrompt(content) && ClaudeAuthMarker(content)
  {
  }

  /**
   * The deny-list at work: a greeting shown together with "press enter to continue" is
   * not taken for a started Claude; the prompt puts the screen in the authentication list.
   */
  lemma GreetingDeniedByContinuePrompt(screen: string)
    requires BeforeHelpSilent(SignalsOf(screen)) && !HelpWithBypass(Lower(screen), NormalizedLower(screen))
    requires !HelpWithSetup(Lower(screen), NormalizedLower(screen)) && !BypassAtPrompt(Lower(screen))
    requires Contains(Lower(screen), "how can i help") && Contains(Lower(screen), "press enter to continue")
    ensures !StartupGreeting(Lower(screen))
    ensures AnalyzeAgentState(screen) == Analysis(AuthClaude, Claude, ClaudeAuthenticating)
  {
    ContinuePromptSignals(screen);
    AnalyzeVisible(screen);
    DecideClaudeStartup(SignalsOf(screen));
  }

  lemma ContinuePromptSignals(screen: string)
    requires Contains(Lower(screen), "how can i help") && Contains(Lower(screen), "press enter to continue")
    ensures !AllWhitespace(screen) && !StartupGreeting(Lower(screen))
    ensures var g := SignalsOf(screen); !g.startupGreeting && g.claudeAuthMarker
  {
    LowerNotBlank(screen, "how can i help");
    ContinuePromptMarks(Lower(screen));
  }

  /**
   * The bypass banner at an input prompt, with no paste-code or interrupt marker, gives
   * running Claude once the earlier startup rules are silent.
   */
  lemma BypassAtPromptRunning(screen: string)
    requires BeforeHelpSilent(SignalsOf(screen)) && !HelpWithBypass(Lower(screen), NormalizedLower(screen))
    requires !HelpWithSetup(Lower(screen), NormalizedLower(screen)) && !StartupGreeting(Lower(screen))
    requires BypassAtPrompt(Lower(screen))
    ensures AnalyzeAgentState(screen) == Analysis(RunningClaude, Claude, ClaudeStarted)
  {
    BypassSignals(screen);
    AnalyzeVisible(screen);
    DecideClaudeStartup(SignalsOf(screen));
  }

  lemma BypassSignals(screen: string)
    requires BypassAtPrompt(Lower(screen))
    ensures !AllWhitespace(screen) && SignalsOf(screen).bypassAtPrompt
  {
    LowerNotBlank(screen, ">");
  }

  /**
   * A paste-code prompt outranks both the setup line and the bypass banner: with the
   * help-with-bypass rule and the greeting silent, the screen is authenticating Claude.
   */
  lemma PasteCodePromptIsAuthentication(screen: string)
    requires BeforeHelpSilent(SignalsOf(screen)) && !HelpWithBypass(Lower(screen), NormalizedLower(screen))
    requires !StartupGreeting(Lower(screen)) && Contains(Lower(screen), "paste code here")
    ensures AnalyzeAgentState(screen) == Analysis(AuthClaude, Claude, ClaudeAuthenticating)
  {
    PasteCodeSignals(screen);
    AnalyzeVisible(screen);
    DecideClaudeStartup(SignalsOf(screen));
  }

  lemma PasteCodeSignals(screen: string)
    requires Contains(Lower(screen), "paste code here")
    ensures !AllWhitespace(screen)
    ensures var g := SignalsOf(screen); !g.helpWithSetup && !g.bypassAtPrompt && g.claudeAuthMarker
  {
    LowerNotBlank(screen, "paste code here");
    PasteCodeMarks(Lower(screen), NormalizedLower(screen));
  }

  /** Once every startup rule is silent, a Claude authentication marker gives AuthClaude. */
  lemma ClaudeAuthentication(screen: string)
    requires !AllWhitespace(screen) && BeforeAuthSilent(SignalsOf(screen)) && ClaudeAuthMarker(Lower(screen))
    ensures AnalyzeAgentState(screen) == Analysis(AuthClaude, Claude, ClaudeAuthenticating)
  {
    AnalyzeVisible(screen);
    DecideClaudeStartup(SignalsOf(screen));
  }

  /** None of the tests before the Gemini ones holds. */
  predicate ClaudeRulesSilent(g: Signals) {
    && BeforeHelpSilent(g)
    && !g.helpWithBypass && !g.helpWithSetup && !g.startupGreeting && !g.bypassAtPrompt
    && !g.claudeAuthMarker
  }

  lemma DecideGemini(g: Signals)
    requires ClaudeRulesSilent(g)
    ensures g.geminiAuthMarker ==> Decide(g) == Analysis(AuthGemini, Gemini, GeminiAuthenticating)
    ensures !g.geminiAuthMarker && (g.geminiPrompt || g.geminiModel || g.geminiHelp)
            ==> Decide(g) == Analysis(RunningGemini, Gemini, GeminiStarted)
    ensures !g.geminiAuthMarker && !g.geminiPrompt && !g.geminiModel && !g.geminiHelp
            ==> Decide(g) == Analysis(Stopped, NoAgent, Idle)
  {
  }

  /** When no Claude rule fires, a Gemini authentication marker gives AuthGemini. */
  lemma GeminiAuthentication(screen: string)
    requires !AllWhitespace(screen) && ClaudeRulesSilent(SignalsOf(screen)) && GeminiAuthMarker(Lower(screen))
    ensures AnalyzeAgentState(screen) == Analysis(AuthGemini, Gemini, GeminiAuthenticating)
  {
    DecideGemini(SignalsOf(screen));
  }

  /** Otherwise the Gemini input prompt, found in either view, gives RunningGemini. */
  lemma GeminiPromptRunning(screen: string)
    requires !AllWhitespace(screen) && ClaudeRulesSilent(SignalsOf(screen)) && !GeminiAuthMarker(Lower(screen))
    requires Contains(Lower(screen), "type your message") || Contains(NormalizedLower(screen), "type your message")
    ensures AnalyzeAgentState(screen) == Analysis(RunningGemini, Gemini, GeminiStarted)
  {
    DecideGemini(SignalsOf(screen));
  }

  /** Whatever the last test decides, a text no earlier test classifies is Stopped with no agent. */
  lemma FallbackStopped(screen: string)
    requires ClaudeRulesSilent(SignalsOf(screen))
    requires var g := SignalsOf(screen); !g.geminiAuthMarker && !g.geminiPrompt && !g.geminiModel && !g.geminiHelp
    ensures AnalyzeAgentState(screen) == Analysis(Stopped, NoAgent, Idle)
  {
    DecideGemini(SignalsOf(screen));
  }

  lemma DecideNotRunningGemini(g: Signals)
    requires g.geminiAuthMarker
    ensures Decide(g).state != RunningGemini
  {
  }

  /** While "waiting for auth" is on screen Gemini is never reported as running. */
  lemma WaitingForAuthNeverRunningGemini(screen: string)
    requires Contains(Lower(screen), "waiting for auth")
    ensures AnalyzeAgentState(screen).state != RunningGemini
  {
    WaitingForAuthSignals(screen);
    DecideNotRunningGemini(SignalsOf(screen));
  }

  lemma WaitingForAuthSignals(screen: string)
    requires Contains(Lower(screen), "waiting for auth")
    ensures SignalsOf(screen).geminiAuthMarker
  {
  }

  // ---------------------------------------------------------------- phrases wrapped across lines

  /** Whether collapsing is inside a whitespace run after reading `x`. */
  function EndsInRun(x: string, inRun: bool): bool {
    if x == [] then inRun else IsWhitespace(x[|x| - 1])
  }

  /** Collapsing distributes over concatenation, threading the run flag across the cut. */
  lemma {:induction false} CollapseRunAppend(x: string, y: string, inRun: bool)
    ensures CollapseRun(x + y, inRun) == CollapseRun(x, inRun) + CollapseRun(y, EndsInRun(x, inRun))
    decreases |x|
  {
    if x == [] {
      assert x + y == y;
    } else {
      var run := IsWhitespace(x[0]);
      var h, a, b := RunHead(x[0], inRun), CollapseRun(x[1..], run), CollapseRun(y, EndsInRun(x, inRun));
      assert (x + y)[0] == x[0] && (x + y)[1..] == x[1..] + y;
      CollapseRunStep(x + y, inRun);
      CollapseRunStep(x, inRun);
      CollapseRunAppend(x[1..], y, run);
      EndsInRunStep(x, inRun);
      AppendAssoc(h, a, b);
    }
  }

  /** What collapsing writes for the character `c`. */
  function RunHead(c: char, inRun: bool): string {
    if IsWhitespace(c) then (if inRun then [] else " ") else [c]
  }

  lemma CollapseRunStep(s: string, inRun: bool)
    requires s != []
    ensures CollapseRun(s, inRun) == RunHead(s[0], inRun) + CollapseRun(s[1..], IsWhitespace(s[0]))
  {
  }

  lemma EndsInRunStep(x: string, inRun: bool)
    requires x != []
    ensures EndsInRun(x[1..], IsWhitespace(x[0])) == EndsInRun(x, inRun)
  {
    if x[1..] != [] {
      assert x[1..][|x| - 2] == x[|x| - 1];
    }
  }

  lemma {:induction false} CollapseWord(s: string, inRun: bool)
    requires forall k | 0 <= k < |s| :: !IsWhitespace(s[k])
    ensures CollapseRun(s, inRun) == s
    decreases |s|
  {
    if s != [] {
      CollapseWord(s[1..], false);
      assert s == [s[0]] + s[1..];
    }
  }

  lemma {:induction false} CollapseBlank(w: string)
    requires AllWhitespace(w)
    ensures CollapseRun(w, true) == []
    ensures w != [] ==> CollapseRun(w, false) == " "
    decreases |w|
  {
    if w != [] {
      assert AllWhitespace(w[1..]) by {
        var t := w[1..];
        forall i | 0 <= i < |t| ensures IsWhitespace(t[i]) { assert t[i] == w[i + 1]; }
      }
      CollapseBlank(w[1..]);
    }
  }

  /** A word followed by a whitespace gap collapses to the word and one space. */
  lemma CollapseWordGap(x: string, a: string, v: string, inRun: bool)
    requires a != [] && (forall k | 0 <= k < |a| :: !IsWhitespace(a[k]))
    requires v != [] && AllWhitespace(v)
    ensures CollapseRun(x + a + v, inRun) == CollapseRun(x, inRun) + a + " "
  {
    CollapseWordAfter(x, a, inRun);
    CollapseRunAppend(x + a, v, inRun);
    CollapseBlank(v);
  }

  lemma CollapseWordAfter(x: string, a: string, inRun: bool)
    requires a != [] && (forall k | 0 <= k < |a| :: !IsWhitespace(a[k]))
    ensures CollapseRun(x + a, inRun) == CollapseRun(x, inRun) + a
    ensures !EndsInRun(x + a, inRun)
  {
    CollapseRunAppend(x, a, inRun);
    CollapseWord(a, EndsInRun(x, inRun));
    assert (x + a)[|x + a| - 1] == a[|a| - 1];
  }

  lemma CollapseThreeWords(a: string, v1: string, b: string, v2: string, c: string, inRun: bool)
    requires a != [] && (forall k | 0 <= k < |a| :: !IsWhitespace(a[k]))
    requires b != [] && (forall k | 0 <= k < |b| :: !IsWhitespace(b[k]))
    requires forall k | 0 <= k < |c| :: !IsWhitespace(c[k])
    requires v1 != [] && AllWhitespace(v1) && v2 != [] && AllWhitespace(v2)
    ensures CollapseRun(a + v1 + b + v2 + c, inRun) == a + " " + b + " " + c
  {
    CollapseWordGap([], a, v1, inRun);
    assert [] + a + v1 == a + v1;
    CollapseWordGap(a + v1, b, v2, inRun);
    CollapseRunAppend(a + v1 + b + v2, c, inRun);
    CollapseWord(c, true);
    if c != [] {
      assert (a + v1 + b + v2)[|a + v1 + b + v2| - 1] == v2[|v2| - 1];
    }
  }

  lemma CollapsePhrase(v1: string, v2: string, inRun: bool)
    requires v1 != [] && AllWhitespace(v1) && v2 != [] && AllWhitespace(v2)
    ensures CollapseRun("type" + v1 + "your" + v2 + "message", inRun) == "type your message"
  {
    CollapseThreeWords("type", v1, "your", v2, "message", inRun);
    var a := "type" + " " + "your" + " " + "message";
    assert |a| == 17;
    assert forall i | 0 <= i < 17 :: a[i] == "type your message"[i];
  }

  lemma ReplaceNewlinesAppend(a: string, b: string)
    ensures ReplaceNewlines(a + b) == ReplaceNewlines(a) + ReplaceNewlines(b)
  {
  }

  lemma ReplaceNewlinesBlank(w: string)
    requires AllWhitespace(w)
    ensures AllWhitespace(ReplaceNewlines(w)) && |ReplaceNewlines(w)| == |w|
  {
  }

  lemma ReplaceNewlinesPhrase(pre: string, w1: string, w2: string, post: string)
    ensures ReplaceNewlines(pre + "type" + w1 + "your" + w2 + "message" + post)
            == ReplaceNewlines(pre) + ("type" + ReplaceNewlines(w1) + "your" + ReplaceNewlines(w2) + "message")
               + ReplaceNewlines(post)
  {
    ReplaceNewlinesAppend(pre, "type");
    ReplaceNewlinesAppend(pre + "type", w1);
    ReplaceNewlinesAppend(pre + "type" + w1, "your");
    ReplaceNewlinesAppend(pre + "type" + w1 + "your", w2);
    ReplaceNewlinesAppend(pre + "type" + w1 + "your" + w2, "message");
    ReplaceNewlinesAppend(pre + "type" + w1 + "your" + w2 + "message", post);
    assert ReplaceNewlines("type") == "type";
    assert ReplaceNewlines("your") == "your";
    assert ReplaceNewlines("message") == "message";
  }

  /**
   * "type your message" wrapped across lines (or spaced out) by any runs of whitespace
   * is still found in `normalizedLower`.
   */
  lemma PhraseIsLower()
    ensures Lower("type your message") == "type your message"
  {
    LowerNoUpper("type your message");
  }

  lemma WrappedPhraseFound(pre: string, w1: string, w2: string, post: string)
    requires w1 != [] && AllWhitespace(w1) && w2 != [] && AllWhitespace(w2)
    ensures Contains(NormalizedLower(pre + "type" + w1 + "your" + w2 + "message" + post), "type your message")
  {
    var v1, v2 := ReplaceNewlines(w1), ReplaceNewlines(w2);
    ReplaceNewlinesBlank(w1);
    ReplaceNewlinesBlank(w2);
    var m := "type" + v1 + "your" + v2 + "message";
    var rp, rq := ReplaceNewlines(pre), ReplaceNewlines(post);
    ReplaceNewlinesPhrase(pre, w1, w2, post);
    CollapseRunAppend(rp + m, rq, false);
    CollapseRunAppend(rp, m, false);
    CollapsePhrase(v1, v2, EndsInRun(rp, false));
    var cp, cq := CollapseWhitespace(rp), CollapseRun(rq, EndsInRun(rp + m, false));
    LowerAppend(cp + "type your message", cq);
    LowerAppend(cp, "type your message");
    PhraseIsLower();
    ContainsSplice(Lower(cp), "type your message", Lower(cq));
  }

  // ---------------------------------------------------------------- worked examples

  /** A stale login menu above a fresh shell prompt: the prompt decides. */
  lemma StaleLoginAbovePrompt()
    ensures AnalyzeAgentState("Select login method\nuser@host:~/project$ ") == Analysis(Stopped, NoAgent, ShellPrompt)
  {
    var s := "Select login method\nuser@host:~/project$ ";
    assert s[..|s| - 1][|s| - 2] == '$';
    TrailingPromptWins(s);
  }
}
