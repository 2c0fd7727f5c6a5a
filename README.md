# LogLens Pro in Dafny

LogLens Pro is a browser extension that finds CI/CD log output on a page
(GitHub Actions, GitLab CI, Jenkins and generic `pre`/`code` dumps) and
enhances it in four ways:

- it turns terminal colour escape sequences into styled `<span>`s;
- it wraps error-looking text in highlight spans;
- it attaches controls for search, fold and stats;
- it keeps a small configuration and a "Pro" flag in synced storage.

This project models the three scripts of the extension and proves properties of the model.

- **Content script.** `content.js` is modelled by five modules.
  - `AnsiRenderer` models the escape-sequence renderer as two left-to-right replace passes.
  - `ErrorHighlighter` models the eight highlight patterns, including the two stack-frame patterns, applied one after another.
  - `LogStats` models the line, error and warning counts.
  - `LogSearch` models the escaping of a search query.
  - `LogLens` models the rest:
    - the configuration merge at start-up;
    - the generic-log test;
    - the enhancement of one container;
    - the discovery passes that mark containers as processed;
    - the fold toggle.

    It does so as a class whose methods update the page state in place.
- **Background worker.** `background.js` is modelled by `Background`:
  - the install defaults;
  - the context-menu dispatch;
  - the message handler, as a state machine over the two storage keys `loglensPro` and `loglensConfig`. A `SyncStorage` class updates them in place.
- **Popup.** `popup.js` is modelled by `Popup`: the mapping from a configuration to the four switches, and back. A `PopupForm` class holds the switches.
- **Shared and cross-script modules.**
  - `Common` holds the shared vocabulary: JavaScript values and truthiness, options, character classes, and string split and join.
  - `Integration` relates the scripts to one another: a popup save as the worker stores it, and as the content script then reads it.

Strings are sequences of characters (`seq<char>`). Each `char` stands for one UTF-16 code unit of the Basic Multilingual Plane. Text holding characters outside that plane is not representable (see "Left out"). A stored configuration is a map from property names to values. A missing key stands for `undefined`.

Three behaviours of the code that are easy to misread:

- **Reset sequences.** A reset sequence `ESC[0m` does not close the open span. The first replace pass already matches `ESC[0m`. Its only code, `0`, has no style, so the sequence is deleted. A `</span>` is produced only when deletions splice a new `ESC[0m` together (`AnsiRenderer.SplicedReset`). For input whose escapes all start complete sequences, no `</span>` is produced at all (`AnsiRenderer.WellFormedNoClose`).
- **Stats counts.** For `"[ERROR] build failed\n[WARN] retry\nok\n"` the code counts 4 lines, 2 errors and 1 warning:
  - lines are the number of newlines plus one, so the trailing newline adds a fourth line (`LogStats.LineCount`);
  - errors are matched case-insensitively, so `failed` counts too (`LogStats.ErrorsAreSum`).
- **Generic-log test.** A `pre` or `code` text longer than 100 characters is a log when it shows one of seven markers: `[ERROR]`, `[WARN]`, `ERROR:`, `FAILED`, a leading `YYYY-MM-DD` date, `ansi`, or an escape character followed by `[` (`LogLens.IsGenericLog`, `LogLens.EscapeSequenceDetected`).

Two notes on how the scripts talk to each other:

- The content script has no message listener. So `configUpdated`, which the popup sends, and `enhanceLogs` and `copyLogs`, which the context menu sends, reach no receiver. The model therefore gives them no effect on the page.
- The content script reads the stored configuration only once, when it starts (`Integration.ContentConfig`).

## Model

| member | source | states |
|---|---|---|
| AnsiRenderer.RenderAnsiColors | content.js:169-189 | the definition of `renderANSIColors`: the first pass, then the second; its properties are stated by `NoEscUnchanged`, `WellFormedNoClose`, `ResetDoesNotClose` and `SplicedReset` |
| AnsiRenderer.ReplaceSequences | content.js:171-187 | the definition of the first pass, a global left-to-right replace; its properties are stated by `ScanPlain`, `ScanSequence`, `PlainPrefix`, `SequenceAtFront`, `FirstPassSequence`, `FirstPassText` and `WellFormedConsumed` |
| AnsiRenderer.ReplaceResets | content.js:188 | the definition of the second pass; its properties are stated by `ResetsPlain` and `SplicedReset` |
| AnsiRenderer.Replacement | content.js:171-187 | the definition of the replacement callback; its properties are stated by `SequenceStyle`, `UnrecognisedDeleted`, `ResetDeleted` and `ReplacementNoEsc` |
| AnsiRenderer.ColorOf | content.js:15-20 | a code has a colour exactly when it is `30`-`37` or `90`-`97` |
| AnsiRenderer.ColorTableEntries | content.js:15-20 | `3d` maps to the d-th standard colour and `9d` to the d-th bright colour of the table |
| AnsiRenderer.StyleOf | content.js:175-185 | a code yields a declaration exactly when it has a colour or is `1`, `4` or `7`; a coloured code yields `color: <hex>` |
| AnsiRenderer.StyleTable | content.js:176-184 | the declarations for bold, underline, inverse and a colour (`31` gives `color: #ff0000`) |
| AnsiRenderer.UnstyledCodes | content.js:176-184 | `0`, an empty code, `38`, `39`, `49` and `99` yield no declaration |
| AnsiRenderer.Styles | content.js:172-185 | at most one declaration per code; none at all exactly when no code is recognised |
| AnsiRenderer.StylesAppend | content.js:175-185 | declarations are collected code by code, in code order |
| AnsiRenderer.StylesDeclared | content.js:175-185 | every declaration comes from a code of the sequence |
| AnsiRenderer.SequenceStyle | content.js:172-187 | a sequence becomes `<span style="…">` with its declarations joined by `"; "`, or nothing when it has none |
| AnsiRenderer.UnrecognisedDeleted | content.js:187 | a sequence whose codes are all unrecognised is replaced by the empty string |
| AnsiRenderer.ResetDeleted | content.js:171-187 | the first pass matches `ESC[0m` and deletes it |
| AnsiRenderer.SequenceLength | content.js:171 | a match found is `ESC[`, a non-empty run of digits and `;`, then `m` |
| AnsiRenderer.RunLengthExact | content.js:171 | the greedy `[0-9;]+` run ends at the first other character |
| AnsiRenderer.SequenceUnique | content.js:171 | the match at a position is unique |
| AnsiRenderer.ScanPlain | content.js:171 | text without ESC is passed through character by character |
| AnsiRenderer.ScanSequence | content.js:171 | a sequence at the front is consumed whole, and scanning resumes after it |
| AnsiRenderer.PlainPrefix | content.js:171-187 | characters before a sequence are kept in order |
| AnsiRenderer.SequenceAtFront | content.js:171-187 | a sequence at the front is replaced and the rest is processed on its own |
| AnsiRenderer.FirstPassSequence | content.js:171-187 | the first pass output starts with the replacement of a sequence at the front, followed by the output for the rest |
| AnsiRenderer.FirstPassText | content.js:171-187 | where no sequence starts, the first pass keeps the first character and goes on with the rest |
| AnsiRenderer.EmitAppend | content.js:171 | the output is the concatenation of the outputs of the pieces |
| AnsiRenderer.EmitTexts | content.js:171 | text tokens are emitted unchanged |
| AnsiRenderer.NoEscUnchanged | content.js:169-189 | input without ESC comes back unchanged |
| AnsiRenderer.ResetsPlain | content.js:188 | the second pass leaves text without ESC alone |
| AnsiRenderer.ReplacementNoEsc | content.js:172-187 | a replacement never contains ESC |
| AnsiRenderer.StyleNoEsc | content.js:176-184 | no declaration contains ESC |
| AnsiRenderer.JoinNoEsc | content.js:187 | joining ESC-free parts with an ESC-free separator gives an ESC-free string |
| AnsiRenderer.WellFormedConsumed | content.js:171-187 | when every ESC starts a complete sequence, no ESC survives the first pass |
| AnsiRenderer.WellFormedNoClose | content.js:169-189 | when every ESC starts a complete sequence, the second pass changes nothing, so no `</span>` is emitted |
| AnsiRenderer.ResetDoesNotClose | content.js:171-188 | a styled run followed by `ESC[0m` renders as the opening span and the run, with no closing tag |
| AnsiRenderer.ResetThenText | content.js:171-187 | a reset at the front is deleted and the rest is kept |
| AnsiRenderer.SplicedTail | content.js:171-187 | deleting an inner reset joins `[0` and `m` |
| AnsiRenderer.SplicedFirstPass | content.js:171-187 | `ESC[0ESC[0mm` becomes `ESC[0m` after the first pass |
| AnsiRenderer.SplicedReset | content.js:169-189 | `ESC[0ESC[0mm` renders as `</span>`: the second pass fires on a reset that deletions spliced together |
| ErrorHighlighter.HighlightErrors | content.js:191-211 | the definition of `highlightErrors`: the eight patterns in order; its properties are stated by `LeadChars`, `NoPatternUnchanged` and `NoLeadCharUnchanged` |
| ErrorHighlighter.HighlightWith | content.js:204-210 | the definition of one global replace with one pattern; its properties are stated by `WrapsSegment`, `NotWrappedAcrossLine`, `KeepsFirst`, `SkipPrefix` and `NoMatchUnchanged` |
| ErrorHighlighter.HighlightAll | content.js:204-210 | the definition of the `forEach` over the patterns; its properties are stated by `NoPatternUnchanged` and `SkipAll` |
| ErrorHighlighter.Wrap | content.js:205-207 | the matched text is kept verbatim inside the error span |
| ErrorHighlighter.DigitRunLongest | content.js:198-199 | `\d+` takes the longest run of digits: all digits, stopping at a non-digit or the end |
| ErrorHighlighter.DigitsThenAt | content.js:198-199 | a digit run followed by a non-digit literal ends at a given position exactly when the text there is digits and then that literal |
| ErrorHighlighter.DigitsThen | content.js:198-199 | a digit run followed by the given character ends on that character |
| ErrorHighlighter.TailLength | content.js:194-201 | the keyword tail matches, with length 0, exactly before `<` or at the end |
| ErrorHighlighter.TailLengthShape | content.js:194-201 | a tail matches with length `n` exactly when the text has the tail's shape: nothing before `<` or the end; `.java:`, digits and `)`; `.js:`, digits, `:`, digits and `)` |
| ErrorHighlighter.TailStart | content.js:194-201 | the lazy `.*?` stops at a position where the tail matches |
| ErrorHighlighter.TailStartFirst | content.js:194-201 | it stops at the first such position on the current line, and fails only when there is none |
| ErrorHighlighter.TailStartFound | content.js:194-201 | a stop found lies on the starting line, and the tail matches at no earlier position |
| ErrorHighlighter.TailStartOnLine | content.js:194-201 | a stop found lies on the starting line |
| ErrorHighlighter.TailStartNearest | content.js:194-201 | the tail matches at no position before the stop found |
| ErrorHighlighter.TailStartMissing | content.js:194-201 | when the scan finds nothing, the tail matches nowhere on the rest of the line |
| ErrorHighlighter.MatchEnd | content.js:193-202 | a match begins with the pattern's lead text |
| ErrorHighlighter.BoundaryStop | content.js:194-201 | the keyword patterns stop exactly at the first `<` or the end, with no line terminator in between |
| ErrorHighlighter.TerminatorBlocks | content.js:194-201 | a line terminator before any `<` means no match |
| ErrorHighlighter.BoundaryMatch | content.js:194-201 | a keyword match is exactly lead, then clean text, then `<` or end |
| ErrorHighlighter.NotWrappedAcrossLine | content.js:194-208 | a keyword whose line ends before any `<` is not wrapped |
| ErrorHighlighter.WrapsSegment | content.js:204-208 | a keyword segment followed by `<` or the end is wrapped, and the scan resumes after it |
| ErrorHighlighter.FrameMatch | content.js:198-199 | a stack-frame match is `at `, a one-line stretch, then the first position where `.java:`, digits and `)` (or `.js:`, digits, `:`, digits and `)`) follow |
| ErrorHighlighter.FrameMatchEnd | content.js:198-199 | the tail of a stack-frame match runs to the match's end and reads `.java:`, digits and `)`, or `.js:`, digits, `:`, digits and `)` |
| ErrorHighlighter.FrameMatchNearest | content.js:198-199 | the stretch after the lead holds no line terminator and no earlier position where the tail matches |
| ErrorHighlighter.KeepsFirst | content.js:205 | a character where the pattern cannot start is kept |
| ErrorHighlighter.SkipPrefix | content.js:205 | a stretch where the pattern cannot start is kept verbatim |
| ErrorHighlighter.NoMatchUnchanged | content.js:205-207 | a pattern that matches nowhere leaves the markup unchanged |
| ErrorHighlighter.NoPatternUnchanged | content.js:204-210 | markup no pattern matches comes back unchanged |
| ErrorHighlighter.LeadChars | content.js:193-202 | each of the eight patterns can start only at `[`, `e`/`E`, `f`/`F`, `a` or U+201A |
| ErrorHighlighter.SkipAll | content.js:204-210 | markup without those characters passes every pattern unchanged |
| ErrorHighlighter.NoLeadCharUnchanged | content.js:191-211 | `highlightErrors` is the identity on markup without those characters |
| LogStats.StatsOf | content.js:346-350 | the definition of the three counts of `updateStats`; its properties are stated by `LineCount` and `ErrorsAreSum` |
| LogStats.CountMatches | content.js:346-350 | the definition of a global, case-insensitive match count; its properties are stated by `CountBound`, `SkipNoStart`, `SingleMatched`, `SingleSkipped` and `ErrorsAreSum` |
| LogStats.AltMatch | content.js:348 | an alternation match has length between 1 and the rest of the text |
| LogStats.AltMatchSome | content.js:348 | the alternation matches exactly when one of its words matches, ignoring case |
| LogStats.AltErrorWords | content.js:348 | the alternation of `ERROR`, `FAILED` and `Exception` tries the words in that order |
| LogStats.LineCount | content.js:347 | lines = newlines + 1; a trailing newline adds a line |
| LogStats.CountBound | content.js:349 | a one-word count times the word's length is at most the text length, since matches do not overlap |
| LogStats.SkipNoStart | content.js:348-349 | positions where no word starts add nothing |
| LogStats.DiffersAt | content.js:348 | a character that differs, ignoring case, rules the word out |
| LogStats.InsideError | content.js:348 | no other error word starts inside `ERROR` |
| LogStats.InsideFailed | content.js:348 | no other error word starts inside `FAILED` |
| LogStats.InsideException | content.js:348 | no other error word starts inside `Exception` |
| LogStats.SingleMatched | content.js:349 | a match counts one and the scan resumes after it |
| LogStats.SingleSkipped | content.js:349 | positions where the word does not start add nothing |
| LogStats.StepError | content.js:348 | an `ERROR` at the front counts one for the alternation and one for the separate counts |
| LogStats.StepFailed | content.js:348 | the same for `FAILED` |
| LogStats.StepException | content.js:348 | the same for `Exception` |
| LogStats.StepNone | content.js:348 | no error word at the front: both counts move on by one character |
| LogStats.ErrorsAreSum | content.js:348 | the error count equals the sum of the separate counts of the three words |
| LogSearch.Blank | content.js:286-287 | the definition of `!query.trim()`; `SearchPattern` states that a blank query starts no search |
| LogSearch.EscapeQuery | content.js:289 | escaping never shortens the query |
| LogSearch.SearchPattern | content.js:286-289 | no search exactly when the query is blank after trimming; otherwise one group around the escaped query |
| LogSearch.EscapeParses | content.js:289 | removing the inserted backslashes returns the query |
| LogSearch.ParseEscapes | content.js:289 | every literal-only pattern is the escape of the text it matches |
| LogSearch.EscapeLength | content.js:289 | one backslash is added per special character |
| LogSearch.CountSpecial | content.js:289 | there are no more special characters than characters |
| LogSearch.PlainQueryUnchanged | content.js:289 | a query without special characters is used as typed |
| LogSearch.SearchIsLiteral | content.js:286-289 | the group body is a literal pattern for the query: every special character is escaped, and it stands for the query as typed; matching then ignores ASCII case (flag `i`) |
| LogLens.IsGenericLog | content.js:127-137 | the definition of the generic-log test; its properties are stated by `GenericLogExtends` and `EscapeSequenceDetected` |
| LogLens.EnhancedMarkup | content.js:146-161 | the definition of the markup `enhanceLogContainer` computes; its properties are stated by `StepWritesOnChange`, `TransformsOffNoop`, `PlainMarkupUnchanged` and `DefaultsRunBoth` |
| LogLens.PageVisits | content.js:55-144 | the definition of the visits of one `processLogs` pass, in discovery order; `LogLens.ProcessLogs` runs them and `FirstVisitWins` states who enhances a container found twice |
| LogLens.Steps | content.js:55-144 | the definition of a run of visits; its properties are stated by `StepsAppend`, `StepsConsistent`, `StepsProcessed`, `StepsCalls`, `StepsSplit` and `RepeatedPassIsNoop` |
| LogLens.MergeConfig | content.js:28-30 | saved keys override and the other keys are kept; nothing saved means nothing changes |
| LogLens.Step | content.js:78-167 | a container is marked processed, and enhanced only if not yet marked |
| LogLens.ToggledFolds | content.js:303-315 | every line gets the negation of the first line's folded state |
| LogLens.LogLens.constructor | content.js:5-13 | default configuration; nothing processed yet |
| LogLens.LogLens.Init | content.js:25-37 | the saved configuration is merged in, then every container is visited once in discovery order; the invariant is kept |
| LogLens.LogLens.VisitElement | content.js:79-167 | one container is visited |
| LogLens.LogLens.ProcessSelector | content.js:79-84 | the containers of one selector are visited, in order |
| LogLens.LogLens.ProcessPlatform | content.js:69-123 | the selectors of a platform are processed, in order |
| LogLens.LogLens.ProcessGeneric | content.js:125-144 | `pre, code` elements that pass the generic test are visited |
| LogLens.LogLens.ProcessLogs | content.js:55-67 | the four passes run in order, and each container is enhanced at most once; "once" is per element identity, not per piece of log content (see "Left out" on nested containers) |
| LogLens.LogLens.ToggleFold | content.js:303-315 | the folded flags are set in place to the toggled flags; no lines means no change |
| LogLens.StepsAppend | content.js:55-67 | consecutive passes compose |
| LogLens.StepConsistent | content.js:78-85 | one visit keeps the invariant: marked containers are exactly the ones enhanced, each at most once |
| LogLens.StepsConsistent | content.js:55-144 | any run of visits keeps the invariant; each element identity is enhanced at most once, which says nothing of log content copied into a new element |
| LogLens.StepsProcessed | content.js:78-141 | every visited container is marked, whether or not it changed |
| LogLens.StepsCalls | content.js:80-81 | only containers not yet marked are enhanced, and earlier enhancements stay |
| LogLens.StepsSingle | content.js:79-83 | a run of one visit is that visit |
| LogLens.StepsSplit | content.js:79-83 | a run splits around any one visit |
| LogLens.NotYetVisited | content.js:80-82 | a container not visited so far is neither marked nor enhanced |
| LogLens.FirstVisitWins | content.js:78-141 | an element found by several selectors or platforms is enhanced once, for the first; this is per element identity, not per piece of log content |
| LogLens.MarkedSkipped | content.js:80 | marked containers are skipped |
| LogLens.RepeatedPassIsNoop | content.js:40-67 | running discovery again over the same containers changes nothing |
| LogLens.StepWritesOnChange | content.js:146-167 | markup and controls are written exactly when the enhanced markup differs; other containers are untouched |
| LogLens.TransformsOffNoop | content.js:151-161 | with both transforms off the page is never rewritten and no controls are added |
| LogLens.PlainMarkupUnchanged | content.js:146-161 | markup with neither escapes nor error lead characters is left unchanged |
| LogLens.DefaultsRunBoth | content.js:6-158 | under the defaults, the renderer runs first and the highlighter after it |
| LogLens.EscapeSequenceDetected | content.js:129-136 | a long text that holds an escape sequence passes the generic test |
| LogLens.GenericLogExtends | content.js:129-137 | text appended after a log leaves it a log: every marker found, and a leading date, survive |
| LogLens.ToggleTwice | content.js:303-315 | toggling twice sets every line to the first line's state, and restores the page exactly when all lines agreed |
| Background.Handle | background.js:48-80 | the definition of the message handler: the new storage and the response; its properties are stated by `CheckProIff`, `ActivateMakesPro`, `SaveReplaces` and `SyncStorage.OnMessage` |
| Background.Run | background.js:9-80 | the definition of the storage after a run of install events and messages; its properties are stated by `ProSticky`, `LastWrittenPrefix` and `GetConfigReturnsLast` |
| Background.ProStatus | background.js:64-66 | `isPro` is truthy exactly when `loglensPro` is truthy or the stored `proFeatures` is `true` |
| Background.WithProFeatures | background.js:74 | the given configuration with `proFeatures` set to `true`, and no other key added |
| Background.Install | background.js:9-19 | the defaults are written and `loglensPro` is left alone |
| Background.MenuAction | background.js:36-45 | only the two menu ids send a message |
| Background.MenuDispatch | background.js:36-45 | each of the two ids sends its own action |
| Background.SyncStorage.constructor | background.js:48 | the storage as found |
| Background.SyncStorage.OnInstalled | background.js:5-19 | the storage holds the install defaults afterwards |
| Background.SyncStorage.OnMessage | background.js:48-80 | the new storage and the response are those of the handler |
| Background.CheckProIff | background.js:62-67 | `checkProStatus` changes nothing and reports Pro exactly by the rule above |
| Background.ActivateMakesPro | background.js:62-78 | `activatePro` sets the flag, forces `proFeatures` on, and Pro is reported afterwards |
| Background.SaveReplaces | background.js:56-60 | `saveConfig` replaces the configuration wholesale, keeps the flag and answers success |
| Background.ProSticky | background.js:48-80 | once `loglensPro` is truthy, no later install or message makes the user non-Pro |
| Background.LastWrittenPrefix | background.js:9-75 | the last configuration written after one event and then more is computed from that event on |
| Background.GetConfigReturnsLast | background.js:50-53 | `getConfig` answers the configuration most recently written by an install, save or activation |
| Popup.FormOf | popup.js:20-25 | the definition of the switches `updateUI` shows for a configuration; its properties are stated by `PopupForm.UpdateUI`, `FormRoundTrip`, `ResaveIsLossy` and `NothingStoredAllOn` |
| Popup.ShowsPro | popup.js:85 | the definition of the `response?.isPro` test; `Integration.ActivateThenSave` states that the popup shows Pro after activation |
| Popup.ConfigOf | popup.js:53-60 | a saved configuration has exactly five keys: the theme is `default` or `light`, `proFeatures` is `false`, and there is no `searchEnabled` or `jumpToFailure` |
| Popup.LoadConfig | popup.js:12-18 | a missing answer is read as `{}` |
| Popup.PopupForm.constructor | popup.js:3-6 | the switches as the page loaded them |
| Popup.PopupForm.UpdateUI | popup.js:20-25 | the switches are set from the configuration |
| Popup.PopupForm.ReadConfig | popup.js:53-60 | the configuration built from the switches shows the same switches when reopened, and nothing changes |
| Popup.FormRoundTrip | popup.js:20-60 | saving and reopening shows the same switches |
| Popup.ResaveIsLossy | popup.js:20-60 | showing and saving a configuration keeps boolean switches and turns other values into `true`; the theme becomes `default` exactly when it was `default` or missing, `light` otherwise; `proFeatures` is reset and the other keys are dropped |
| Popup.NothingStoredAllOn | popup.js:12-25 | with nothing stored every switch is on |
| Integration.ContentConfig | content.js:27-30 | with nothing stored the content script runs on its defaults; otherwise every default key is still present |
| Integration.SaveThenReopen | popup.js:12-66 | a popup save is answered with success, and reopening shows the same switches |
| Integration.SaveKeepsOnlyFlag | background.js:56-66 | after a popup save (which sends `proFeatures: false`, popup.js:59), Pro is reported exactly when `loglensPro` is set |
| Integration.ActivateThenSave | background.js:56-78 | activation survives a later popup save, and the popup shows Pro |
| Integration.ContentFollowsPopup | content.js:27-158 | after a popup save, the content script renders and highlights exactly as the switches say, and keeps search and jump on |
| Integration.InstallAllOn | background.js:9-19 | after install, every switch is on in the popup (popup.js:22-25) and both transforms run in the content script (content.js:150-158) |
| Integration.SwitchesAgree | popup.js:22-24 | the popup and the content script (content.js:151 and 156) agree on a switch whose stored value is boolean or missing |
| Integration.NullDisagrees | popup.js:22-24 | a stored `null` for one of the three boolean switches shows as on in the popup but is off in the content script (content.js:151 and 156) |

## Left out

- Page-mutation observer and asynchronous start-up (content.js:25-53): event plumbing. `Init` takes the stored configuration as a parameter. The observer callback (content.js:40-45) calls `processLogs()` once for every mutation record that has added nodes. The model runs one discovery pass per call: a further pass over the same containers changes nothing (`LogLens.RepeatedPassIsNoop`).
- Controls markup and its click listeners (content.js:213-281): user interface. The model records only that controls were added to a container.
- The stats label. `updateStats` runs only from the controls code; the model gives its counts (`LogStats.StatsOf`), not the label text.
- Search rewriting and `clearHighlights` (content.js:290-300): DOM surgery. Only the query handling is modelled.
- `jumpToError` and `copyLogs` (content.js:317-340): scrolling, clipboard and timers.
- Selector matching and `textContent`: a page is given as the ids each selector finds and the text of each element.
- Containers nested in other containers: in the model, a rewrite of one container's markup does not change another's, and a visit never fails (`LogLens.Step`). The source behaves differently on the common nesting `<pre><code>` with a log text of more than 100 characters:
  - `querySelectorAll('pre, code')` (content.js:127) returns a static list `[pre, code]`.
  - Enhancing `pre` sets its `innerHTML` (content.js:162), which detaches the old `code`.
  - The detached `code` keeps its text, so it passes the generic test and is enhanced too.
  - `addControls` then calls `insertBefore` on its `parentNode`, which is `null` (content.js:228). The TypeError ends the whole `processLogs` call, so the detached `code` is not marked and the rest of that pass is skipped.
  - The observer was installed before the first pass (content.js:33-45), so the rewrite of `pre` starts a new pass. That pass finds the new, unmarked inner `code` and enhances its already enhanced markup a second time: `[ERROR] …` before the `<` of `</span>` is wrapped again. It then inserts a second controls bar inside the `pre`.
  - So the "at most once" of `ProcessLogs`, `StepsConsistent` and `FirstVisitWins` holds per element identity, not per piece of log content.
- LogLens.StepWritesOnChange: the enhanced markup is stored exactly as computed. The real `container.innerHTML = enhancedHTML` (content.js:162) is parsed, so the browser closes the renderer's unclosed `<span style=…>` tags, and a later read of `innerHTML` differs from what was written; this matters only for a later pass over the same markup, as in the nested case above.
- Characters outside the Basic Multilingual Plane: a Dafny `char` is a Unicode scalar value, so a lone surrogate code unit cannot be one, and such text is not representable. JavaScript counts such a character as two units, both in `text.length > 100` (content.js:129) and for `.` in the highlight patterns; the model does not capture that.
- Numbers are integers: no floating point, `NaN` or `-0`. Arrays and objects are one opaque value.
- A stored configuration that is not an object, and a `saveConfig` or `activatePro` whose `config` is not an object: the worker's messages carry configuration maps.
- Popup toast, tab opening, options page and the `checkProStatus` styling (popup.js:31-51, 62-141): user interface. `Popup.ShowsPro` keeps only the test `response?.isPro`.
- Background alarms, uninstall URL, icon click and logging (background.js:82-98): platform calls.
- Background.Handle: every `chrome.storage.sync.set` is taken to succeed. The worker never checks `runtime.lastError` and answers `{ success: true }` even when a write fails on quota or rate limits (background.js:57-59, 72-77), and the popup then shows "Settings saved" (popup.js:62-66). `SaveReplaces`, `ActivateMakesPro`, `GetConfigReturnsLast` and `Integration.SaveThenReopen` hold only for writes that succeed.
- LogSearch.SearchIsLiteral: case-insensitive matching (flag `i`, content.js:289) is not modelled. The lemma states that the pattern is the escaped query, not which texts it matches: `a.b` also matches `A.B`.
- Messages with no receiver: `configUpdated`, `enhanceLogs` and `copyLogs` are sent, but nothing in the content script listens for them.
