/**
 * The status report of the agent manager (`getStatus`) and its small helpers: state
 * names and icons, the pane-title rule of `getPaneName`, and the aggregation of one
 * classification per tmux pane into a six-way count. Every tmux call is an oracle
 * parameter: `capture` (capture-pane at an address), `listPanes` (list-panes of a
 * session) and `paneTitle` (display-message of a pane's title). Each returns the
 * command's standard output, or the message of the error it failed with.
 */
module AgentManager {
  import opened Wrappers
  import opened Text
  import opened TmuxUtils
  import opened AgentState

  // ---------------------------------------------------------------- state names and icons

  /** The `state` string the source reports. */
  function StateName(s: State): string {
    match s
    case Stopped => "stopped"
    case ExecutingClaude => "executing_claude"
    case RunningClaude => "running_claude"
    case AuthClaude => "auth_claude"
    case AuthGemini => "auth_gemini"
    case RunningGemini => "running_gemini"
  }

  const AllStates: set<State> :=
    {Stopped, ExecutingClaude, RunningClaude, AuthClaude, AuthGemini, RunningGemini}

  const UnknownIcon := "❓"

  /** `getStateIcon(state)`: the icon table; `❓` exactly for a name that is not a state's. */
  function StateIcon(state: string): (r: string)
    ensures r == UnknownIcon <==> forall s: State :: state != StateName(s)
  {
    assert StateName(RunningClaude) == "running_claude" && StateName(RunningGemini) == "running_gemini";
    assert StateName(AuthClaude) == "auth_claude" && StateName(AuthGemini) == "auth_gemini";
    assert StateName(ExecutingClaude) == "executing_claude" && StateName(Stopped) == "stopped";
    if state == "running_claude" then "✅"
    else if state == "running_gemini" then "💎"
    else if state == "auth_claude" then "🔐"
    else if state == "auth_gemini" then "🔑"
    else if state == "executing_claude" then "⚡"
    else if state == "stopped" then "⚫"
    else UnknownIcon
  }

  /** The six states the count table lists are all the states there are (a one-line enumeration). */
  lemma AllStatesComplete(s: State)
    ensures s in AllStates
  {
  }

  /** The state names are distinct, and each one has its own icon, never the fallback. */
  lemma StateIconsDistinct(s: State, t: State)
    ensures StateIcon(StateName(s)) != UnknownIcon
    ensures s != t ==> StateName(s) != StateName(t) && StateIcon(StateName(s)) != StateIcon(StateName(t))
  {
  }

  // ---------------------------------------------------------------- pane names

  /** `getPaneName`: the trimmed title, `''` for a default shell title or a failed call. */
  function PaneName(title: Result<string, string>): (r: string)
    ensures title.Err? ==> r == []
    ensures title.Ok? ==> (r == [] || r == Trim(title.value))
    ensures title.Ok? && Trim(title.value) !in {"bash", "zsh", "sh"} ==> r == Trim(title.value)
  {
    match title
    case Err(_) => []
    case Ok(out) =>
      var t := Trim(out);
      if t == "bash" || t == "zsh" || t == "sh" || t == "" then [] else t
  }

  lemma DefaultShellTitlesHidden(out: string)
    requires Trim(out) in {"bash", "zsh", "sh"}
    ensures PaneName(Ok(out)) == []
  {
  }

  // ---------------------------------------------------------------- addresses

  /** A non-empty target without `*` names one pane; anything else asks for a session. */
  predicate SinglePaneMode(target: string) {
    target != [] && '*' !in target
  }

  /** The session of the overview: the text before the first `:`, or `multiagent`. */
  function SessionOf(target: string): (r: string)
    ensures ':' !in r
  {
    if target != [] && '*' in target then
      SplitFieldsFree(target, ':');
      Split(target, ':')[0]
    else "multiagent"
  }

  /** `currentTarget`: every listed pane is addressed in window 0. */
  function PaneTarget(session: string, pane: string): string {
    session + ":0." + pane
  }

  /** `const [a, b] = xs` on a JavaScript array: a missing element reads as `undefined`. */
  function FieldOr(fields: seq<string>, k: nat): string {
    if k < |fields| then fields[k] else "undefined"
  }

  /**
   * The address `getPaneName` is asked for: the window and pane are read back out of
   * `currentTarget` by splitting at `:` and then at `.`. For a pane number without `:` or
   * `.` that is the pane's own address.
   */
  function TitleAddress(session: string, pane: string): (r: string)
    ensures ':' !in session && ':' !in pane && '.' !in pane ==> r == PaneTarget(session, pane)
  {
    var windowPane := FieldOr(Split(PaneTarget(session, pane), ':'), 1);
    var parts := Split(windowPane, '.');
    if ':' !in session && ':' !in pane && '.' !in pane then
      PaneTargetFields(session, pane);
      assert ':' !in "0." + pane;
      SplitNoSeparator("0." + pane, ':');
      WindowPaneFields(pane);
      SplitNoSeparator(pane, '.');
      assert session + ":" + "0" + "." + pane == session + ":0." + pane;
      session + ":" + FieldOr(parts, 0) + "." + FieldOr(parts, 1)
    else
      session + ":" + FieldOr(parts, 0) + "." + FieldOr(parts, 1)
  }

  lemma PaneTargetFields(session: string, pane: string)
    requires ':' !in session
    ensures Split(PaneTarget(session, pane), ':') == [session] + Split("0." + pane, ':')
  {
    assert PaneTarget(session, pane) == session + [':'] + ("0." + pane);
    SplitAfterField(session, "0." + pane, ':');
  }

  lemma WindowPaneFields(pane: string)
    ensures Split("0." + pane, '.') == ["0"] + Split(pane, '.')
  {
    assert "0." + pane == "0" + ['.'] + pane;
    SplitAfterField("0", pane, '.');
  }

  /** Example: a pane number holding a `.` is looked up at a different pane. */
  lemma DottedPaneLooksElsewhere()
    ensures TitleAddress("multiagent", "1.2") == "multiagent:0.1"
  {
    DottedTargetFields();
    DottedWindowPaneFields();
    assert "multiagent" + ":" + "0" + "." + "1" == "multiagent:0.1";
  }

  /** Example step: the fields of the dotted pane's address split at `:`. */
  lemma DottedTargetFields()
    ensures Split(PaneTarget("multiagent", "1.2"), ':') == ["multiagent", "0.1.2"]
  {
    PaneTargetFields("multiagent", "1.2");
    assert "0." + "1.2" == "0.1.2";
    assert ':' !in "0.1.2";
    SplitNoSeparator("0.1.2", ':');
  }

  /** Example step: the fields of the dotted pane's `0.1.2` split at `.`. */
  lemma DottedWindowPaneFields()
    ensures Split("0.1.2", '.') == ["0", "1", "2"]
  {
    assert "0." + "1.2" == "0.1.2";
    WindowPaneFields("1.2");
    assert "1.2" == "1" + ['.'] + "2";
    SplitAfterField("1", "2", '.');
    SplitNoSeparator("2", '.');
  }

  // ---------------------------------------------------------------- pane listing

  /** `filter(p => p.trim())`: the lines that are not blank, in order, untrimmed. */
  function NonBlankLines(lines: seq<string>): (r: seq<string>)
    ensures forall k | 0 <= k < |r| :: !IsBlankLine(r[k])
    ensures forall k | 0 <= k < |lines| :: !IsBlankLine(lines[k]) ==> lines[k] in r
    ensures forall x | x in r :: x in lines
    ensures |r| <= |lines|
  {
    if lines == [] then []
    else
      var rest := NonBlankLines(lines[1..]);
      assert forall k | 1 <= k < |lines| :: lines[k] == lines[1..][k - 1];
      if IsBlankLine(lines[0]) then rest else [lines[0]] + rest
  }

  /** Filtering works line by line: it keeps order and multiplicity. */
  lemma {:induction false} NonBlankLinesAppend(a: seq<string>, b: seq<string>)
    ensures NonBlankLines(a + b) == NonBlankLines(a) + NonBlankLines(b)
  {
    if a == [] {
      assert a + b == b;
    } else {
      assert (a + b)[0] == a[0];
      assert (a + b)[1..] == a[1..] + b;
      NonBlankLinesAppend(a[1..], b);
    }
  }

  /** A single line is dropped exactly when it is blank. */
  lemma NonBlankLinesSingle(line: string)
    ensures NonBlankLines([line]) == if IsBlankLine(line) then [] else [line]
  {
    assert [line][1..] == [];
  }

  /** Filtering keeps a character out of every line it was out of. */
  lemma {:induction false} NonBlankLinesFree(lines: seq<string>, c: char)
    requires forall k | 0 <= k < |lines| :: c !in lines[k]
    ensures forall k | 0 <= k < |NonBlankLines(lines)| :: c !in NonBlankLines(lines)[k]
  {
    if lines != [] {
      assert forall k | 0 <= k < |lines| - 1 :: lines[1..][k] == lines[k + 1];
      NonBlankLinesFree(lines[1..], c);
    }
  }

  /**
   * `paneList.trim().split('\n').filter(p => p.trim())`: the listing's lines that are not
   * blank, so every pane number is one whole, non-blank line of the listing.
   */
  function PaneNumbers(listing: string): (r: seq<string>)
    ensures forall k | 0 <= k < |r| :: !IsBlankLine(r[k]) && '\n' !in r[k]
    ensures forall k | 0 <= k < |r| :: r[k] in Split(Trim(listing), '\n')
  {
    SplitFieldsFree(Trim(listing), '\n');
    NonBlankLinesFree(Split(Trim(listing), '\n'), '\n');
    NonBlankLines(Split(Trim(listing), '\n'))
  }

  // ---------------------------------------------------------------- one pane of the overview

  datatype PaneRow =
    | Classified(target: string, paneName: string, analysis: Analysis, lastLine: string)
    | CaptureFailed(target: string)

  /** The state a row is counted under: a failed capture counts as stopped. */
  function RowState(row: PaneRow): State {
    match row
    case Classified(_, _, a, _) => a.state
    case CaptureFailed(_) => Stopped
  }

  /** `lines[i].slice(0, 50)`. */
  function Prefix(s: string, n: nat): (r: string)
    ensures r <= s && |r| == if |s| <= n then |s| else n
  {
    if |s| <= n then s else s[..n]
  }

  const EmptyLine := "(empty)"

  /** The last non-blank line of a capture, cut to 50 characters, or `(empty)`. */
  function LastLineOf(lines: seq<string>): string {
    var last := LastNonBlankLine(lines);
    if last.Some? then Prefix(last.value, 50) else EmptyLine
  }

  /** The backward search of the overview loop. */
  method LastLine(lines: seq<string>) returns (lastLine: string)
    ensures lastLine == LastLineOf(lines)
  {
    lastLine := EmptyLine;
    var i := |lines|;
    assert lines[..i] == lines;
    while i > 0
      invariant 0 <= i <= |lines|
      invariant LastNonBlankLine(lines) == LastNonBlankLine(lines[..i])
    {
      i := i - 1;
      if !IsBlankLine(lines[i]) {
        assert lines[..i + 1][i] == lines[i];
        lastLine := Prefix(lines[i], 50);
        return;
      }
      assert lines[..i + 1][..i] == lines[..i];
    }
  }

  /** What the overview records for one listed pane. */
  function PaneEntry(session: string, pane: string, capture: string -> Result<string, string>,
                     paneTitle: string -> Result<string, string>): PaneRow
  {
    var target := PaneTarget(session, pane);
    match capture(target)
    case Err(_) => CaptureFailed(target)
    case Ok(out) =>
      Classified(target, PaneName(paneTitle(TitleAddress(session, pane))),
                 AnalyzeAgentState(out), LastLineOf(Split(out, '\n')))
  }

  function Rows(session: string, panes: seq<string>, capture: string -> Result<string, string>,
                paneTitle: string -> Result<string, string>): (r: seq<PaneRow>)
    ensures |r| == |panes|
  {
    seq(|panes|, k requires 0 <= k < |panes| => PaneEntry(session, panes[k], capture, paneTitle))
  }

  // ---------------------------------------------------------------- the counts

  function CountState(rows: seq<PaneRow>, s: State): nat {
    if rows == [] then 0
    else CountState(rows[..|rows| - 1], s) + (if RowState(rows[|rows| - 1]) == s then 1 else 0)
  }

  /** `stateSummary`: how many rows fall under each of the six states. */
  function SummaryOf(rows: seq<PaneRow>): (r: map<State, nat>)
    ensures forall s: State :: s in r
  {
    assert forall s: State :: s in AllStates by {
      forall s: State ensures s in AllStates { AllStatesComplete(s); }
    }
    map s | s in AllStates :: CountState(rows, s)
  }

  function SummaryTotal(summary: map<State, nat>): nat
    requires AllStates <= summary.Keys
  {
    summary[RunningClaude] + summary[RunningGemini] + summary[AuthClaude]
      + summary[AuthGemini] + summary[ExecutingClaude] + summary[Stopped]
  }

  /** Every row is counted exactly once: the six counts add up to the number of rows. */
  lemma {:induction false} CountsSumToRows(rows: seq<PaneRow>)
    ensures SummaryTotal(SummaryOf(rows)) == |rows|
  {
    if rows != [] {
      var init := rows[..|rows| - 1];
      CountsSumToRows(init);
      assert SummaryOf(init)[Stopped] == CountState(init, Stopped);
      assert SummaryOf(rows)[Stopped] == CountState(rows, Stopped);
    }
  }

  lemma CountSnoc(rows: seq<PaneRow>, row: PaneRow)
    ensures forall s: State :: CountState(rows + [row], s) == CountState(rows, s) + (if RowState(row) == s then 1 else 0)
  {
    assert (rows + [row])[..|rows|] == rows;
  }

  lemma SummaryExtensional(m: map<State, nat>, rows: seq<PaneRow>)
    requires forall s: State :: s in m && m[s] == CountState(rows, s)
    ensures m == SummaryOf(rows)
  {
    var e := SummaryOf(rows);
    assert m.Keys == e.Keys by {
      forall s: State ensures s in e { AllStatesComplete(s); }
    }
  }

  /** One more row raises exactly its own state's count by one. */
  lemma SummaryStep(rows: seq<PaneRow>, row: PaneRow)
    ensures SummaryOf(rows + [row]) == SummaryOf(rows)[RowState(row) := SummaryOf(rows)[RowState(row)] + 1]
  {
    assert (rows + [row])[..|rows|] == rows;
    AllStatesComplete(RowState(row));
    var a, b := SummaryOf(rows + [row]), SummaryOf(rows)[RowState(row) := SummaryOf(rows)[RowState(row)] + 1];
    assert a.Keys == b.Keys;
    forall s | s in a.Keys ensures a[s] == b[s] {
    }
  }

  // ---------------------------------------------------------------- the report

  datatype StatusReport =
    | PaneDetail(fullTarget: string, analysis: Analysis, recentLines: string)
    | SessionOverview(session: string, rows: seq<PaneRow>, summary: map<State, nat>)
    | SessionNotFound(session: string, reason: string)

  const CaptureErrorPrefix := "キャプチャエラー: "

  const StatusErrorPrefix := "Failed to get status: "

  /** `slice(-n)` on an array. */
  function LastLines(lines: seq<string>, n: nat): (r: seq<string>)
    ensures |r| == if |lines| <= n then |lines| else n
    ensures r == lines[|lines| - |r|..]
  {
    if |lines| <= n then lines else lines[|lines| - n..]
  }

  /**
   * `screenContent.split('\n').slice(-20).join('\n')`: the tail of the screen that holds
   * its last 20 lines, or all of it.
   */
  function RecentLines(screen: string): (r: string)
    ensures |r| <= |screen| && r == screen[|screen| - |r|..]
    ensures Split(r, '\n') == LastLines(Split(screen, '\n'), 20)
  {
    JoinedTail(screen);
    Join(LastLines(Split(screen, '\n'), 20), '\n')
  }

  /**
   * The detail report shown for one pane: it fails, with the parser's message, exactly
   * when the address is malformed, and otherwise reports on the address as given.
   */
  function SinglePaneStatus(target: string, capture: string -> Result<string, string>): (r: Result<StatusReport, string>)
    ensures r.Err? <==> !MatchesGrammar(target)
    ensures r.Err? ==> r.error == StatusErrorPrefix + InvalidTargetMessage(target)
    ensures r.Ok? ==> r.value.PaneDetail? && r.value.fullTarget == target
  {
    ParseTargetMatchesGrammar(target);
    match ParseTarget(target)
    case Err(msg) => Err(StatusErrorPrefix + msg)
    case Ok(t) =>
      var screen := match capture(t.fullTarget) case Ok(out) => out case Err(e) => CaptureErrorPrefix + e;
      Ok(PaneDetail(t.fullTarget, AnalyzeAgentState(screen), RecentLines(screen)))
  }

  /**
   * The overview of a session's panes: session-not-found exactly when the listing fails;
   * otherwise one row per listed pane and a count table whose counts add up to them.
   */
  function SessionStatus(session: string, capture: string -> Result<string, string>,
                         listPanes: string -> Result<string, string>,
                         paneTitle: string -> Result<string, string>): (r: StatusReport)
    ensures r.SessionNotFound? <==> listPanes(session).Err?
    ensures r.SessionNotFound? ==> r.session == session && r.reason == listPanes(session).error
    ensures r.SessionOverview? ==>
              && r.session == session
              && |r.rows| == |PaneNumbers(listPanes(session).value)|
              && AllStates <= r.summary.Keys && SummaryTotal(r.summary) == |r.rows|
  {
    match listPanes(session)
    case Err(e) => SessionNotFound(session, e)
    case Ok(listing) =>
      var rows := Rows(session, PaneNumbers(listing), capture, paneTitle);
      CountsSumToRows(rows);
      SessionOverview(session, rows, SummaryOf(rows))
  }

  /**
   * `getStatus(target)`: a non-empty target without `*` gets the detail report of its pane,
   * and only that request can fail; any other target gets the overview of a session.
   */
  function StatusOf(target: string, capture: string -> Result<string, string>,
                    listPanes: string -> Result<string, string>,
                    paneTitle: string -> Result<string, string>): (r: Result<StatusReport, string>)
    ensures r.Err? ==> SinglePaneMode(target) && !MatchesGrammar(target)
    ensures r.Ok? && r.value.PaneDetail? <==> SinglePaneMode(target) && MatchesGrammar(target)
  {
    if SinglePaneMode(target) then SinglePaneStatus(target, capture)
    else Ok(SessionStatus(SessionOf(target), capture, listPanes, paneTitle))
  }

  lemma TakeSnoc<T>(a: seq<T>, i: nat)
    requires i < |a|
    ensures a[..i + 1] == a[..i] + [a[i]]
  {
  }

  /** The overview loop: one row and one count per listed pane, whatever each capture does. */
  method ClassifyPanes(session: string, panes: seq<string>, capture: string -> Result<string, string>,
                       paneTitle: string -> Result<string, string>)
    returns (rows: seq<PaneRow>, summary: map<State, nat>)
    ensures rows == Rows(session, panes, capture, paneTitle)
    ensures summary == SummaryOf(rows)
  {
    ghost var all := Rows(session, panes, capture, paneTitle);
    rows := [];
    summary := map s | s in AllStates :: 0;
    forall s: State ensures s in AllStates { AllStatesComplete(s); }
    var i := 0;
    while i < |panes|
      invariant 0 <= i <= |panes|
      invariant rows == all[..i]
      invariant forall s: State :: s in summary && summary[s] == CountState(rows, s)
    {
      var currentTarget := PaneTarget(session, panes[i]);
      var out := capture(currentTarget);
      var row;
      if out.Ok? {
        var analysis := AnalyzeAgentState(out.value);
        var lastLine := LastLine(Split(out.value, '\n'));
        var paneName := PaneName(paneTitle(TitleAddress(session, panes[i])));
        row := Classified(currentTarget, paneName, analysis, lastLine);
      } else {
        row := CaptureFailed(currentTarget);
      }
      var st := RowState(row);
      summary := summary[st := summary[st] + 1];
      CountSnoc(rows, row);
      assert all[i] == row;
      TakeSnoc(all, i);
      rows := rows + [row];
      i := i + 1;
    }
    assert rows == all;
    SummaryExtensional(summary, rows);
  }

  /** `getStatus(target)`. */
  method GetStatus(target: string, capture: string -> Result<string, string>,
                   listPanes: string -> Result<string, string>,
                   paneTitle: string -> Result<string, string>)
    returns (r: Result<StatusReport, string>)
    ensures r == StatusOf(target, capture, listPanes, paneTitle)
  {
    if target != [] && '*' !in target {
      r := SinglePaneStatus(target, capture);
    } else {
      var session := "multiagent";
      if target != [] && '*' in target {
        session := Split(target, ':')[0];
      }
      var listed := listPanes(session);
      if listed.Err? {
        r := Ok(SessionNotFound(session, listed.error));
      } else {
        var panes := NonBlankLines(Split(Trim(listed.value), '\n'));
        var rows, summary := ClassifyPanes(session, panes, capture, paneTitle);
        r := Ok(SessionOverview(session, rows, summary));
      }
    }
  }

  // ---------------------------------------------------------------- what the report promises

  /** A pane that captures is reported with its classification and the tail of its screen. */
  lemma SinglePaneReportsScreen(target: string, capture: string -> Result<string, string>,
                                listPanes: string -> Result<string, string>,
                                paneTitle: string -> Result<string, string>)
    requires SinglePaneMode(target) && MatchesGrammar(target) && capture(target).Ok?
    ensures var out := capture(target).value;
            StatusOf(target, capture, listPanes, paneTitle)
              == Ok(PaneDetail(target, AnalyzeAgentState(out), RecentLines(out)))
  {
    ParseTargetMatchesGrammar(target);
  }

  /** A failed capture is not an error: its message, prefixed, is what gets classified. */
  lemma CaptureErrorIsClassified(target: string, capture: string -> Result<string, string>,
                                 listPanes: string -> Result<string, string>,
                                 paneTitle: string -> Result<string, string>)
    requires SinglePaneMode(target) && MatchesGrammar(target) && capture(target).Err?
    ensures var text := CaptureErrorPrefix + capture(target).error;
            StatusOf(target, capture, listPanes, paneTitle)
              == Ok(PaneDetail(target, AnalyzeAgentState(text), RecentLines(text)))
  {
    ParseTargetMatchesGrammar(target);
  }

  lemma JoinedTail(screen: string)
    ensures var r := Join(LastLines(Split(screen, '\n'), 20), '\n');
            && |r| <= |screen| && r == screen[|screen| - |r|..]
            && Split(r, '\n') == LastLines(Split(screen, '\n'), 20)
  {
    var f := Split(screen, '\n');
    JoinSplit(screen, '\n');
    SplitFieldsFree(screen, '\n');
    var tail := LastLines(f, 20);
    if |f| > 20 {
      var k := |f| - 20;
      JoinAt(f, k, '\n');
      assert forall j | 0 <= j < |tail| :: tail[j] == f[j + k];
    }
    SplitJoin(tail, '\n');
  }

  /** Without a single-pane target the request never fails; the session is `multiagent` or the text before `:`. */
  lemma SessionModeNeverFails(target: string, capture: string -> Result<string, string>,
                              listPanes: string -> Result<string, string>,
                              paneTitle: string -> Result<string, string>)
    requires !SinglePaneMode(target)
    ensures StatusOf(target, capture, listPanes, paneTitle).Ok?
    ensures target == [] ==> SessionOf(target) == "multiagent"
    ensures target != [] ==> SessionOf(target) <= target && ':' !in SessionOf(target)
    ensures target != [] && |SessionOf(target)| < |target| ==> target[|SessionOf(target)|] == ':'
  {
    SplitFirstField(target, ':');
  }

  /**
   * Each listed pane yields exactly one row, addressed as `session:0.N`; a failed
   * capture gives a failed row counted as stopped, and the six counts add up to the
   * number of listed panes.
   */
  lemma OverviewAccountsForEveryPane(session: string, capture: string -> Result<string, string>,
                                     listPanes: string -> Result<string, string>,
                                     paneTitle: string -> Result<string, string>)
    requires listPanes(session).Ok?
    ensures var r := SessionStatus(session, capture, listPanes, paneTitle);
            var panes := PaneNumbers(listPanes(session).value);
            && r.SessionOverview?
            && |r.rows| == |panes|
            && SummaryTotal(r.summary) == |panes|
            && forall k | 0 <= k < |panes| ::
                 && r.rows[k].target == session + ":0." + panes[k]
                 && (r.rows[k].CaptureFailed? <==> capture(session + ":0." + panes[k]).Err?)
                 && (r.rows[k].CaptureFailed? ==> RowState(r.rows[k]) == Stopped)
                 && (r.rows[k].Classified? ==>
                       var out := capture(session + ":0." + panes[k]).value;
                       && r.rows[k].analysis == AnalyzeAgentState(out)
                       && r.rows[k].paneName == PaneName(paneTitle(TitleAddress(session, panes[k])))
                       && r.rows[k].lastLine == LastLineOf(Split(out, '\n')))
  {
    var panes := PaneNumbers(listPanes(session).value);
    CountsSumToRows(Rows(session, panes, capture, paneTitle));
  }

  /** The count table of an empty session starts every state at zero. */
  lemma EmptySummaryZero(s: State)
    ensures s in SummaryOf([]) && SummaryOf([])[s] == 0
  {
    AllStatesComplete(s);
  }

  /** The last-line column: `(empty)` for a blank capture, else the start of its last non-blank line. */
  lemma LastLineColumn(out: string)
    ensures AllWhitespace(out) ==> LastLineOf(Split(out, '\n')) == EmptyLine
    ensures !AllWhitespace(out) ==>
              exists k | 0 <= k < |Split(out, '\n')| ::
                && !IsBlankLine(Split(out, '\n')[k])
                && (forall j | k < j < |Split(out, '\n')| :: IsBlankLine(Split(out, '\n')[j]))
                && LastLineOf(Split(out, '\n')) == Prefix(Split(out, '\n')[k], 50)
  {
    NoLastLineIffBlank(out);
    LastNonBlankLineSpec(Split(out, '\n'));
  }
}
