# Agent Collaboration MCP — a Dafny model of the agent-state core

Agent Collaboration MCP is a tool server that drives coding agents (Claude, Gemini) running
in tmux panes. This project models its decision logic and proves properties of the model.
It covers six parts:

- **Pane addresses** (`parseTarget`). A `session:window.pane` string is parsed by the
  grammar `^([^:]+):([^.]+)\.(.+)$` into its three parts, or rejected with a message that
  quotes it. Module `TmuxUtils`.
- **Output cleaning** (`formatOutput`). ANSI SGR colour sequences are removed from a
  script's standard output and standard error. Standard error is appended only when it is
  not a progress note tagged `[INFO]` or `[SUCCESS]`, and the result is trimmed. Module
  `TmuxUtils`.
- **The classifier** (`analyzeAgentState`). It maps the captured text of a pane to one of
  six states, the agent the state belongs to, and a detail text. It is an ordered chain of
  case-insensitive substring tests, and the first test that fires wins. Module `AgentState`.
- **The status report** (`getStatus`), with its small helpers. In single-pane mode it
  classifies one pane and keeps the last 20 screen lines. In session mode it classifies
  every listed pane of a session and counts the panes in each state. The helpers are the
  state icons, the pane-title rule and the per-pane last line. Module `AgentManager`.
- **The pane controller.** It builds the exact shell commands that type a message into a
  pane (single-quote escaping, the Enter flag) and that capture a pane's screen (the
  optional line count). Module `PaneController`.
- **The setup wizard's custom layout** (`generateCustomLayout`). With `orgCount`
  organisations of one boss and `workersPerOrg` workers each, then a president and an
  authentication helper, it builds the table of panes keyed by position. Module
  `SetupWizard`.

`Wrappers` holds `Option` and `Result`. `Text` holds the JavaScript string operations the
code relies on:

- `trim` and the `\s` whitespace class
- `split` (`"".split(c)` is `[""]`)
- `includes`
- ASCII `toLowerCase`
- number `toString` and `padStart`

Every tmux or shell call is a parameter of the operation that makes it. The parameter is a
function from the command's argument (an address, a session name, a command line) to its
outcome. The model never performs any I/O.

Modelling choices that keep the source's behaviour:

- `parseTarget` and `formatOutput` are written three times in the source, identically.
  `parseTarget` is at src/utils/tmuxUtils.js:10-23, src/tools/agentManager.js:31-44 and
  src/tools/paneController.js:27-40. `formatOutput` is at src/utils/tmuxUtils.js:31-43,
  src/tools/agentManager.js:363-375 and src/tools/paneController.js:83-95. Each is
  modelled once, and the table cites the shared utility's copy.
- The classifier evaluates every test of the chain into a `Signals` record first, then
  takes the first that holds (`Decide`). The tests are pure and total, so this gives the
  same answer as the early returns of the source. `SignalsOf` lists the tests in source
  order, under the source's own literals. That includes the mixed-case ones on lines 90,
  95, 103, 127 and 133, which test text that is already lower-cased and so never match
  (`MixedCaseChecksNeverFire`).
- The code has six states. When no rule fires it returns `stopped`/`none`, and so does the
  model.
- In single-pane mode a capture failure is not returned as an error. The code classifies
  the text `キャプチャエラー: <message>` like a screen, and so does the model
  (`CaptureErrorIsClassified`).
- The layout's `totalPanes` is computed by a formula that agrees with the table for all
  non-negative counts, and for some negative ones (`TotalPanesAgreesIff` states exactly
  which). With two organisations of `-1` workers, `totalPanes` is 2 while the table holds
  four panes (`NegativeWorkersMiscounted`). The model reproduces this.
- `getStatus` returns a report datatype (`StatusReport`) that holds the data the report
  text is made of. The text layout itself is left out.

## Model

| member | source | states |
|---|---|---|
| TmuxUtils.ParseTarget | src/utils/tmuxUtils.js:10-23 | a success carries the three groups of a match of the grammar and the input as `fullTarget`; a failure is exactly the invalid-format message for the input |
| TmuxUtils.ParseTargetMatchesGrammar | src/utils/tmuxUtils.js:11-14 | parsing succeeds if and only if the address matches the grammar |
| TmuxUtils.ParseTargetComplete | src/utils/tmuxUtils.js:11-22 | any split of the address that satisfies the grammar is the one returned |
| TmuxUtils.CapturesUnique | src/utils/tmuxUtils.js:11 | the grammar's three groups are determined by the address |
| TmuxUtils.ParseTargetRoundTrip | src/utils/tmuxUtils.js:16-22 | session, `:`, window, `.`, pane rebuild the input, which is also `fullTarget` |
| TmuxUtils.ParseTargetErrorQuotesInput | src/utils/tmuxUtils.js:12-14 | a rejection message contains the address in double quotes |
| TmuxUtils.NoColonRejected | src/utils/tmuxUtils.js:11-14 | an address without `:` is rejected |
| TmuxUtils.BadTargetRejected | src/utils/tmuxUtils.js:11-14 | `badtarget` is rejected with its message |
| TmuxUtils.PaneMayHoldDotsAndColons | src/utils/tmuxUtils.js:11 | the session stops at the first `:`, the window at the next `.`, and the pane keeps later `.` and `:` |
| TmuxUtils.StripSgr | src/utils/tmuxUtils.js:33 | removing colour sequences never lengthens the text |
| TmuxUtils.StripSgrKeepsCharacters | src/utils/tmuxUtils.js:33 | removing colour sequences never introduces a character: the result's characters are a sub-multiset of the input's |
| TmuxUtils.StripSgrRender | src/utils/tmuxUtils.js:33 | removing SGR sequences from text interleaved with them leaves exactly the plain text |
| TmuxUtils.SgrSequenceStripped | src/utils/tmuxUtils.js:33 | one `ESC [ digits-and-semicolons m` sequence is removed entirely |
| TmuxUtils.StripSgrNoEscape | src/utils/tmuxUtils.js:33 | text without ESC is unchanged |
| TmuxUtils.StripSgrPlainPrefix | src/utils/tmuxUtils.js:33 | text without ESC before the rest passes through unchanged |
| TmuxUtils.StripSgrSinglePass | src/utils/tmuxUtils.js:33 | a single left-to-right pass: a sequence that appears only once an inner one is removed stays |
| TmuxUtils.FormatOutput | src/utils/tmuxUtils.js:31-43 | the result is the whole of the cleaned stdout, plus a newline and the cleaned stderr when stderr is shown, trimmed as one text; it has no surrounding whitespace |
| TmuxUtils.FormatOutputIgnoresInfo | src/utils/tmuxUtils.js:39-41 | a suppressed stderr (`[INFO]`, `[SUCCESS]` or empty) never changes the output |
| TmuxUtils.FormatOutputEmpty | src/utils/tmuxUtils.js:35-42 | empty stdout with suppressed stderr gives the empty string |
| TmuxUtils.FormatOutputPlain | src/utils/tmuxUtils.js:31-43 | colour-coded stdout with suppressed stderr gives its trimmed plain text |
| AgentState.AnalyzeAgentState | src/tools/agentManager.js:47-196 | every result's agent is the one its state belongs to: none for stopped, Claude for the Claude states, Gemini for the Gemini states |
| AgentState.Decide | src/tools/agentManager.js:76-195 | each branch of the priority chain pairs a state with its agent |
| AgentState.BlankScreenStopped | src/tools/agentManager.js:49-52 | empty or whitespace-only text is stopped, with no agent |
| AgentState.BlankLineIsTrimEmpty | src/tools/agentManager.js:67 | a line counts as blank exactly when trimming empties it |
| AgentState.NormalizedLower | src/tools/agentManager.js:55-57 | the normalized text is no longer than the screen, has no ASCII capital, and its only whitespace is single spaces, never two in a row |
| AgentState.LastNonBlankLine | src/tools/agentManager.js:64-71 | the search finds nothing exactly when every line is blank; what it finds is one of the lines and not a blank one |
| AgentState.LastNonBlankLineSpec | src/tools/agentManager.js:64-71 | the backward search finds nothing exactly when every line is blank; otherwise a non-blank line with only blank lines after it |
| AgentState.NoLastLineIffBlank | src/tools/agentManager.js:64-71 | there is no last valid line exactly when the text is all whitespace |
| AgentState.LastLineKeepsLastNonSpace | src/tools/agentManager.js:64-71 | the last valid line ends in the same visible character as the whole text |
| AgentState.DollarAtEndIff | src/tools/agentManager.js:77 | `$` followed only by whitespace matches exactly when `$` is the line's last visible character |
| AgentState.ShellPromptTailIff | src/tools/agentManager.js:64-80 | the shell-prompt rule fires exactly when the text's last visible character is `$` |
| AgentState.TrailingPromptWins | src/tools/agentManager.js:76-80 | text whose last visible character is `$` is stopped at the shell prompt, whatever it holds above |
| AgentState.DecideShellPrompt | src/tools/agentManager.js:76-80 | the chain reports the shell-prompt detail exactly when the first test fires |
| AgentState.ShellPromptDetailIff | src/tools/agentManager.js:62-80 | the shell-prompt detail is reported exactly when the text ends in `$` |
| AgentState.StaleLoginAbovePrompt | src/tools/agentManager.js:64-80 | a login menu scrolled above a shell prompt is still stopped at the prompt |
| AgentState.DecideExecuting | src/tools/agentManager.js:82-85 | the chain says executing exactly when the prompt test fails and the interrupt test holds |
| AgentState.ExecutingIff | src/tools/agentManager.js:49-85 | executing Claude is reported exactly when the text does not end in `$` and contains an interrupt hint in any case |
| AgentState.InterruptHintAnyCase | src/tools/agentManager.js:56-85 | `esc to interrupt` in any mix of case counts |
| AgentState.InterruptHintNotBlank | src/tools/agentManager.js:49-85 | text holding an interrupt hint is never blank, so the blank rule cannot pre-empt it |
| AgentState.MixedCaseChecksNeverFire | src/tools/agentManager.js:88-138 | the literals `Successfully logged out`, `(AUTH-HELPER)`, `Bypassing` and `Permissions` never occur in lower-cased text |
| AgentState.DecideHelpBypass | src/tools/agentManager.js:99-106 | with the earlier rules silent, `/help for help` with bypassing permissions is running Claude |
| AgentState.HelpBypassBeforeAuthentication | src/tools/agentManager.js:99-160 | that rule decides before the authentication list, so pasted codes or OAuth markers in the same text do not change the result |
| AgentState.DecideResidue | src/tools/agentManager.js:87-97 | past the prompt and interrupt rules, logout residue gives stopped (logged out), and otherwise the helper prompt gives stopped (auth helper) |
| AgentState.ResidueStopped | src/tools/agentManager.js:49-97 | a visible screen not ending in `$`, without an interrupt hint, that shows logout residue or the helper prompt is stopped with no agent, with the matching detail |
| AgentState.DecideClaudeStartup | src/tools/agentManager.js:108-160 | after help-with-bypass, in order: help-with-setup, then the greeting, then the bypass banner at a prompt give running Claude; once all are silent the screen is authenticating Claude exactly when a Claude authentication marker is present |
| AgentState.HelpWithSetupRunning | src/tools/agentManager.js:108-119 | the help hint with the current-setup line and none of the four authentication markers gives running Claude once the earlier rules are silent |
| AgentState.StartupGreetingRunning | src/tools/agentManager.js:121-129 | a greeting, an edit suggestion or a tip without any deny-list marker gives running Claude once the earlier rules are silent |
| AgentState.GreetingDeniedByContinuePrompt | src/tools/agentManager.js:121-160 | a greeting shown with `press enter to continue` is not taken as a started Claude, and the screen is authenticating Claude |
| AgentState.BypassAtPromptRunning | src/tools/agentManager.js:131-138 | the bypassing-permissions banner with `>` and neither `paste code here` nor an interrupt hint gives running Claude once the earlier startup rules are silent |
| AgentState.PasteCodePromptIsAuthentication | src/tools/agentManager.js:108-160 | a `paste code here` prompt vetoes both the setup rule and the banner rule: without help-with-bypass or a greeting the screen is authenticating Claude |
| AgentState.ClaudeAuthentication | src/tools/agentManager.js:140-160 | a Claude authentication marker gives authenticating Claude once every startup rule is silent |
| AgentState.DecideGemini | src/tools/agentManager.js:162-195 | with the Claude rules silent: a Gemini auth marker gives auth Gemini; otherwise a Gemini prompt, model or help gives running Gemini; otherwise stopped |
| AgentState.GeminiAuthentication | src/tools/agentManager.js:162-168 | `waiting for auth`, `login with google`, `vertex ai` or `gemini api key` gives auth Gemini once the Claude rules are silent |
| AgentState.GeminiPromptRunning | src/tools/agentManager.js:170-174 | `type your message` in the raw or the collapsed text gives running Gemini when no Gemini auth marker is present |
| AgentState.FallbackStopped | src/tools/agentManager.js:186-195 | when no rule fires the result is stopped, whatever the shell-only test says |
| AgentState.DecideNotRunningGemini | src/tools/agentManager.js:162-184 | a Gemini auth marker rules out running Gemini |
| AgentState.WaitingForAuthNeverRunningGemini | src/tools/agentManager.js:162-184 | text containing `waiting for auth` is never running Gemini |
| AgentState.CollapseBlank | src/tools/agentManager.js:55 | a whitespace run becomes one space |
| AgentState.CollapseWord | src/tools/agentManager.js:55 | text without whitespace is kept |
| AgentState.CollapseRunAppend | src/tools/agentManager.js:55 | collapsing distributes over concatenation, carrying whether the left part ended in whitespace |
| AgentState.CollapsePhrase | src/tools/agentManager.js:55 | `type`, `your`, `message` separated by any whitespace runs collapse to `type your message` |
| AgentState.ReplaceNewlinesAppend | src/tools/agentManager.js:55 | newline replacement distributes over concatenation |
| AgentState.ReplaceNewlinesBlank | src/tools/agentManager.js:55 | replacing newlines keeps whitespace whitespace and keeps length |
| AgentState.WrappedPhraseFound | src/tools/agentManager.js:55-171 | a `type your message` broken across lines or by space runs is found in the normalized text |
| AgentManager.AllStatesComplete | src/tools/agentManager.js:260 | every state is one of the six the count table lists |
| AgentManager.StateIcon | src/tools/agentManager.js:350-360 | the icon is `❓` exactly for a name that is not one of the six state names |
| AgentManager.StateIconsDistinct | src/tools/agentManager.js:350-360 | different states have different names and different icons |
| AgentManager.PaneName | src/tools/agentManager.js:336-346 | a failed lookup gives no name; otherwise the trimmed title, except that default shell titles give none |
| AgentManager.DefaultShellTitlesHidden | src/tools/agentManager.js:338-340 | the titles `bash`, `zsh` and `sh` give no name |
| AgentManager.SessionOf | src/tools/agentManager.js:252-255 | the session named by an overview target contains no `:` |
| AgentManager.SessionModeNeverFails | src/tools/agentManager.js:250-320 | an overview target never fails; the session is `multiagent` for the empty target, else the text before the first `:` |
| AgentManager.PaneTargetFields | src/tools/agentManager.js:294 | splitting a pane's address at `:` gives back the session first |
| AgentManager.WindowPaneFields | src/tools/agentManager.js:295 | splitting `0.<pane>` at `.` gives the window `0` first |
| AgentManager.TitleAddress | src/tools/agentManager.js:294-296 | for a session without `:` and a pane number without `:` or `.`, the title lookup uses the pane's own address `<session>:0.<pane>` |
| AgentManager.DottedPaneLooksElsewhere | src/tools/agentManager.js:294-296 | a listed pane `1.2` has its title looked up at pane `1` |
| AgentManager.NonBlankLines | src/tools/agentManager.js:269 | the listing keeps every non-blank line, and every line it keeps is a non-blank line of the input |
| AgentManager.NonBlankLinesAppend | src/tools/agentManager.js:269 | filtering distributes over concatenation, so order and multiplicity are kept |
| AgentManager.NonBlankLinesSingle | src/tools/agentManager.js:269 | one line is dropped exactly when it is blank |
| AgentManager.PaneNumbers | src/tools/agentManager.js:269 | every pane number is a whole line of the trimmed listing, not blank and without a line break |
| AgentManager.Prefix | src/tools/agentManager.js:288 | the last line is cut to its first 50 characters |
| AgentManager.LastLine | src/tools/agentManager.js:284-291 | the backward loop returns the specified last line |
| AgentManager.LastLineColumn | src/tools/agentManager.js:284-291 | an all-whitespace capture shows `(empty)`; otherwise the first 50 characters of a non-blank line after which every line is blank |
| AgentManager.Rows | src/tools/agentManager.js:271-305 | the overview has one row per listed pane |
| AgentManager.SummaryOf | src/tools/agentManager.js:260-302 | the count table has an entry for every state |
| AgentManager.CountsSumToRows | src/tools/agentManager.js:260-305 | the six counts add up to the number of rows |
| AgentManager.SummaryStep | src/tools/agentManager.js:281-302 | one more row raises exactly its own state's count by one |
| AgentManager.LastLines | src/tools/agentManager.js:248 | the result is the suffix of the lines of length 20, or all of them when there are fewer |
| AgentManager.RecentLines | src/tools/agentManager.js:247-248 | the recent lines are a suffix of the screen, and its lines are the last 20 lines of the screen |
| AgentManager.SinglePaneStatus | src/tools/agentManager.js:219-248 | it fails exactly when the address is malformed, with `Failed to get status: ` and the parse message; otherwise a detail report on the address as given |
| AgentManager.SessionStatus | src/tools/agentManager.js:260-308 | session-not-found, with the listing's error, exactly when listing the panes fails; otherwise one row per listed pane and a count table for all six states whose counts add up to the rows |
| AgentManager.StatusOf | src/tools/agentManager.js:215-325 | only a single-pane request with a malformed address fails; a detail report is returned exactly for a single-pane request with a well-formed address |
| AgentManager.ClassifyPanes | src/tools/agentManager.js:271-305 | the loop builds the specified rows and the count table of those rows |
| AgentManager.GetStatus | src/tools/agentManager.js:215-325 | the dispatch between the two modes computes the specified report |
| AgentManager.SinglePaneReportsScreen | src/tools/agentManager.js:219-248 | a pane that captures is reported with the classification of its screen and the screen's last 20 lines |
| AgentManager.CaptureErrorIsClassified | src/tools/agentManager.js:224-237 | a capture error in single-pane mode is classified as the text `キャプチャエラー: <message>` |
| AgentManager.EmptySummaryZero | src/tools/agentManager.js:260 | the count table starts with every state at zero |
| AgentManager.OverviewAccountsForEveryPane | src/tools/agentManager.js:260-308 | every listed pane gets one row at `<session>:0.<pane>`; it is a capture failure, counted as stopped, exactly when its capture fails, else it carries the pane name from its title, the classification of the captured text and its last-line column; the counts add up to the number of panes |
| PaneController.EscapeSingleQuotes | src/tools/paneController.js:46 | each `'` grows by three characters and nothing else changes length |
| PaneController.EscapeWithoutQuotes | src/tools/paneController.js:46 | a message without `'` is sent unchanged |
| PaneController.EscapeAppend | src/tools/paneController.js:46 | escaping works character by character, so it distributes over concatenation |
| PaneController.ReadEscaped | src/tools/paneController.js:46-48 | inside an open single quote, the escaped text reads back as the message |
| PaneController.UnquotedCommandRefused | src/tools/paneController.js:46-48 | example: the word reader refuses `a b; rm x` and `a;b` placed unquoted, because a blank or `;` would end the word |
| PaneController.QuotedMessageRoundTrip | src/tools/paneController.js:46-48 | a POSIX shell reads the word `'<escaped>'` as exactly the message, whatever quotes it holds |
| PaneController.SendCommandShape | src/tools/paneController.js:47-48 | the send command is script, `send`, pane and quoted message, plus ` false` exactly when Enter is held back; trimming leaves no trailing space |
| PaneController.SendCommand | src/tools/paneController.js:46-48 | for a script path starting with a visible character: script, `send`, pane, then one plain shell word (no unquoted blank, operator, expansion or glob character) that a POSIX shell reads back as exactly the message, then ` false` exactly when Enter is held back |
| PaneController.CaptureCommand | src/tools/paneController.js:60-65 | the bare capture command exactly when no positive line count is given; otherwise ` -` and decimal digits whose value is the count |
| PaneController.SendMessage | src/tools/paneController.js:42-54 | fails with `Failed to send message: ` exactly when the address is malformed (with the parse message) or the send command for its pane fails; when the command completes, the reply is `FormatOutput` of its stdout and stderr, so it has no surrounding whitespace |
| PaneController.CaptureScreen | src/tools/paneController.js:56-80 | fails with `Failed to capture screen: ` exactly when the address is malformed (with the parse message) or the capture command for its pane fails; when the command completes, the result is `Error: ` and the stderr if stderr is shown, otherwise the raw stdout |
| PaneController.CaptureIgnoresProgressNotes | src/tools/paneController.js:67-76 | stderr that is not shown never changes a capture: the screen is returned as printed |
| PaneController.CaptureReportsComplaint | src/tools/paneController.js:73-75 | a shown stderr replaces the screen: the result is `Error: ` and the stderr whatever the stdout was |
| PaneController.SendIgnoresProgressNotes | src/tools/paneController.js:49-50 | stderr that is not shown never changes a send's reply: it is the cleaned stdout, trimmed |
| PaneController.ScreenKeepsColourReplyDropsIt | src/tools/paneController.js:49-95 | for the same colour-coded output, a capture returns it with its colour codes while a send returns its plain text, trimmed |
| PaneController.OnlyPaneNumberUsed | src/tools/paneController.js:44-58 | addresses with the same pane number give the same results: session and window are discarded |
| PaneController.OtherSessionSamePane | src/tools/paneController.js:44 | `alpha:0.5` and `beta:3.5` both name pane `5` |

| SetupWizard.OrgNum | setup/setup-wizard.js:134 | the organisation number is at least two decimal digits |
| SetupWizard.OrgNumValue | setup/setup-wizard.js:134 | the padded number reads back as the organisation number |
| SetupWizard.OrgNumInjective | setup/setup-wizard.js:134 | different organisations get different numbers |
| SetupWizard.FirstOrgNum | setup/setup-wizard.js:134-138 | organisation 1 is `01` and 12 is `12` |
| SetupWizard.WorkerLetterCode | setup/setup-wizard.js:150 | worker `k` (for `k < 26`) gets the letter with code `'a' + k`, so the first 26 workers are lettered `a` to `z` in order |
| SetupWizard.TotalPanes | setup/setup-wizard.js:126 | for non-negative counts, `totalPanes` is the number of organisation positions plus the two closing panes |
| SetupWizard.LayoutKeys | setup/setup-wizard.js:123-187 | the keys are exactly the positions from 0 to one past the last organisation position, and for non-negative counts exactly 0 to `totalPanes - 1` |
| SetupWizard.LayoutDescriptionNumerals | setup/setup-wizard.js:125 | the description is the fixed text with two decimal numerals, whose values are the organisation count and the workers per organisation |
| SetupWizard.GenerateCustomLayout | setup/setup-wizard.js:123-187 | the nested loops build exactly the specified layout |
| SetupWizard.TotalPanesAgreesIff | setup/setup-wizard.js:126-184 | `totalPanes` equals the number of positions written exactly when there are no organisations, or a positive number of them with a non-negative worker count, or a negative number of them with `-1` workers |
| SetupWizard.NegativeWorkersMiscounted | setup/setup-wizard.js:126-161 | two organisations of `-1` workers: `totalPanes` is 2, the table has four panes |
| SetupWizard.PositionOf | setup/setup-wizard.js:132-161 | position `q * slots + r` (with `r < slots`) belongs to organisation `q + 1`, slot `r` |
| SetupWizard.OrgSlot | setup/setup-wizard.js:132-161 | slot `s` of organisation `k` is at position `(k-1)*(workers+1) + s` and holds that slot's pane |
| SetupWizard.BossPosition | setup/setup-wizard.js:132-146 | organisation `k`'s boss is at `(k-1)*(workers+1)`, named `boss<NN>` |
| SetupWizard.WorkerPosition | setup/setup-wizard.js:148-161 | worker `j` of organisation `k` follows its boss at offset `1 + j`, named `worker-<letter><NN>` in `org-<NN>` |
| SetupWizard.ClosingPanes | setup/setup-wizard.js:164-184 | the president and then the authentication helper close the table, both in `main` |
| SetupWizard.EveryPaneClaude | setup/setup-wizard.js:137-181 | every pane runs `claude` in `.`; organisation positions hold exactly the bosses and workers |
| SetupWizard.OrgPaneNamesDiffer | setup/setup-wizard.js:138-153 | different organisation slots get different names |
| SetupWizard.NamesDistinct | setup/setup-wizard.js:132-184 | with at most 26 workers per organisation, no two panes share a name |
| SetupWizard.DescriptionNamesCounts | setup/setup-wizard.js:125 | two layouts with the same description have the same organisation count and the same workers per organisation, for all integers |

## Left out

- Process execution (tmux, the helper scripts) and its timeouts. Each call is a parameter
  that returns the command's output or its error message. The whole of `startAgent`,
  which only runs a script, is left out.
- Console logging interleaved with the classifier and the status report. It is a side
  effect only.
- The constructors that choose script paths by probing the file system, and
  `src/utils/pathUtils.js`. The script path is a parameter.
- `index.js` (tool registration, schemas, transport, configuration loading) and
  `src/tools/parallelImplementation.js` (script orchestration and git worktree merging).
  Both are outside the core.
- The rest of `setup/setup-wizard.js`: prompts, file writes, the tmux check, and the
  `parseInt(...) || default` reading of the two counts. `GenerateCustomLayout` takes the
  counts as integers.
- `calculator.py` and the scripts under `test/`. The tests exercise a module that is not
  part of this model.
- The text layout of the status report (emoji, `padEnd` columns, the Japanese headings).
  `StatusReport` holds the data the text is made of.
- AgentState.AnalyzeAgentState: lower-casing is ASCII only. Full Unicode `toLowerCase` also
  maps non-ASCII capitals, and some of them become ASCII letters: U+212A (Kelvin sign)
  becomes `k`, and U+0130 becomes `i` followed by U+0307. A screen showing
  `GEMINI API \u212AEY` or `DAR\u212A MODE` therefore matches a marker in the source but
  not in the model. The model does not capture these matches for markers holding `k` or
  `i`.
- AgentManager.Prefix: counts characters (code points). JavaScript's `slice(0, 50)` counts
  UTF-16 units, so a last line with characters beyond U+FFFF is cut at a different
  place.
- AgentManager.StateIcon: the lookup is modelled on the six state names.
  JavaScript's object lookup would also find inherited properties such as `constructor`;
  the classifier never produces such a name.
- PaneController.ReadUnquoted: the reader of a plain shell word is stricter than a shell.
  It refuses `#` and `~` anywhere, not only at the start of a word, and does not read a
  backslash-newline continuation. Double quotes and expansions are not read at all. The
  quoted words the commands build use none of these.
- PaneController.CaptureCommand: the line count is an optional integer. A fractional
  count, which JavaScript would format as `-2.5`, is not modelled.
- SetupWizard.WorkerLetter: the code is reduced to 16 bits, as `String.fromCharCode` does.
  A code unit in the UTF-16 surrogate range has no Dafny character, so the model uses
  U+FFFD there. Letters past `z` are upper-cased only in the ASCII range, unlike
  `toUpperCase`. None of this matters with at most 26 workers.
- SetupWizard.LayoutDescription: integers are unbounded and rendered in plain decimal.
  JavaScript switches to exponent notation from 10^21.
