# Caption engine of the video scene player

This project models the caption engine of a browser video player. The player shows timed
captions from an SRT file next to a local video. It offers an auto-pause mode that stops
playback at the end of every caption, a hide-letters mode and a typing-practice mode that
reveals a caption letter by letter. The model covers the following parts, with every time
held as integer milliseconds:

- **SRT loader** (`FileUploader`): normalises line endings and splits the text into
  blank-line-separated blocks. It validates and parses each block, cleans the caption text,
  numbers the records from 0 and refuses a file that yields none.
- **Hide-letters transform** (`TextUtils`): in every maximal run of word characters it keeps
  the first character and replaces the rest with `•`.
- **Displayed caption and key judgement** (`VideoPlayer`): decides which caption is shown at
  a time, under the strict policy or the extended auto-pause policy. It judges a key press in
  typing mode and picks how each line of the caption is rendered.
- **Session state** (`App`): the class `App.Session` holds the caption list and the mode
  flags. It holds the auto-pause tracking (`lastPaused`, `manualSeekInProgress`) and the
  handlers that update them: time ticks, seeking, toggles, per-record typed text and
  selection, select-all, clear, preview and export of the selection.
- **Time labels and the preview** (`SubtitleLine`, `PreviewModal`): `MM:SS` labels, the
  preview's index label and its list of entries.
- `JsString` and `JsArray` model the JavaScript built-ins the code relies on: `trim`,
  `split`, `join`, literal global `replace`, `parseInt`, `toString`, `padStart`,
  `findIndex` and `filter`.

Regular expressions are modelled as the scanners they denote. Each is leftmost, greedy and
non-overlapping: `/\n\s*\n/` in `FileUploader.SplitBlocks`, the unanchored timecode search in
`FileUploader.FindTimecode`, every `replace` of the cleaner, and `/\b\w+\b/g` in
`TextUtils.ConvertLettersToUnderscores`. `\s` and `trim` use ECMAScript's white-space and
line-terminator set.

Two helpers, `extractLettersOnly` and `revealTypedCharacters`, are called by the player but
their definitions are not part of this model. They are function parameters: `extract` in
`VideoPlayer.JudgeKey` and `revealTyped` in `VideoPlayer.RenderLine`. Every property stated
about them holds whatever the helpers do.

Some behaviour of the code is easy to misread:
- No record is dropped for `end <= start`. `FileUploader.ParseBlockResult` bounds both times
  but does not order them.
- Record indices are the 0-based output position (`index` of the `i`-th record is `i`).
- Only SRT is parsed. A WebVTT timecode has a `.` before the milliseconds, so it never
  matches (`FileUploader.NoCommaNoTimecode`).
- The timecode search is not anchored. Text before the first stamp is passed over, and
  whatever follows the second stamp, cue settings included, is ignored
  (`FileUploader.DecoratedTimecodeExample`). The cleaner never sees the timecode line.
- The hide-letters transform treats brackets like any other non-word character: `[Music]`
  becomes `[M••••]` (`TextUtils.BracketedWordExample`).
- The "just passed" auto-pause branch tests the tracking value against -1. That value is
  never -1, so the branch also runs when nothing has been paused yet
  (`App.PauseBetweenCaptions`).
- Toggling auto-pause forgets the last pause in both directions.
- A rejected key changes nothing.
- Typing mode always has hide-letters on. Enabling typing turns hide-letters on, and the
  hide-letters checkbox is disabled while typing is on (`App.Session.Valid`).

## Model

| member | source | states |
|---|---|---|
| FileUploader.NormalizeLineEndingsShape | src/components/FileUploader.tsx:27-31 | after normalisation no carriage return is left and the text has no white space at either end |
| FileUploader.NormalizeLineEndings | src/components/FileUploader.tsx:27-31 | the two carriage-return replaces and `trim()`; its contract is `NormalizeLineEndingsShape` |
| FileUploader.SplitBlocks | src/components/FileUploader.tsx:64 | `split(/\n\s*\n/)`: at least one block; what it splits is stated by `SplitBlocksHaveNoBlankLine`, `SplitBlocksLossless`, `SplitSeparatorsAreSeparators` and `SplitBlockEdges` |
| FileUploader.SplitBlocksHaveNoBlankLine | src/components/FileUploader.tsx:64 | no block produced by the split contains a blank line: every line break, white space, line break sequence was consumed as a separator |
| FileUploader.SplitBlocksLossless | src/components/FileUploader.tsx:64 | the split loses and reorders nothing: the blocks, with the separators it consumed between them, rebuild the text exactly |
| FileUploader.SplitSeparatorsAreSeparators | src/components/FileUploader.tsx:64 | every separator the split consumed is a line break, white space and a line break, one between each two blocks |
| FileUploader.NoBlankLineIsOneBlock | src/components/FileUploader.tsx:64 | a text without a blank line is one block, itself |
| FileUploader.SplitBlockEdges | src/components/FileUploader.tsx:64 | the match is leftmost and its `\s*` greedy: no block after the first opens with white space holding a line break, and no block before the last closes with one |
| FileUploader.NoCommaNoTimecode | src/components/FileUploader.tsx:78-81 | a timecode line without a comma (a WebVTT `.` separator, a `;`) never yields a timecode, wherever the search starts |
| FileUploader.StampExample | src/components/FileUploader.tsx:83-85 | the twelve characters `HH:MM:SS,mmm` denote `(H*3600 + M*60 + S)*1000 + ms`, each field read as decimal digits |
| FileUploader.TimecodeOfStamps | src/components/FileUploader.tsx:79-85 | two stamps joined by ` --> ` at the start of the line are found by the search, with the start and end read from the two stamps, whatever follows them |
| FileUploader.TimecodeExample | src/components/FileUploader.tsx:79-85 | `01:02:03,004 --> 01:02:05,006` reads as 3723004 to 3725006 ms |
| FileUploader.FindTimecode | src/components/FileUploader.tsx:79 | a found timecode has both times within 0..362439999 ms (99:99:99,999) |
| FileUploader.FindTimecodeLeftmost | src/components/FileUploader.tsx:79 | the search returns the match at the least position where the pattern matches |
| FileUploader.FindTimecodeNoMatch | src/components/FileUploader.tsx:79 | when the pattern matches at no position, the search finds nothing |
| FileUploader.TimecodeOfStampsAt | src/components/FileUploader.tsx:79-85 | two stamps joined by ` --> ` match at their position, with the two stamps' values, whatever follows them |
| FileUploader.DigitFreePrefixSkipped | src/components/FileUploader.tsx:79 | the search is not anchored: positions before the timecode that hold no digit are passed over |
| FileUploader.DecoratedTimecodeExample | src/components/FileUploader.tsx:79-85 | `X 01:02:03,004 --> 01:02:05,006` followed by cue settings still reads as 3723004 to 3725006 ms |
| FileUploader.IsNonBlankIsTrimTest | src/components/FileUploader.tsx:88 | the `line.trim()` filter keeps exactly the lines that are not all white space |
| FileUploader.ParseBlockSkips | src/components/FileUploader.tsx:67-81 | a block is skipped when it is blank, has fewer than three lines, has a non-numeric first line, or has a second line with no comma |
| FileUploader.ParseBlock | src/components/FileUploader.tsx:67-97 | one block trimmed and read, or skipped; its contract is `ParseBlockSkips`, `ParseBlockResult` and `ParseBlockAccepts` |
| FileUploader.ParseBlockResult | src/components/FileUploader.tsx:83-97 | an accepted block gives both times within 0..MaxStamp, with no ordering check, and a non-empty text that is its non-blank lines after the timecode joined by `\n` |
| FileUploader.TextTestNeverSkips | src/components/FileUploader.tsx:88-91 | the `if (text)` test never rejects a block: a trimmed block of three lines or more always has a non-blank last line |
| FileUploader.ParseBlockAccepts | src/components/FileUploader.tsx:67-97 | a block is accepted if and only if it is non-blank, has three lines or more, an all-digit first line and a timecode on its second line |
| FileUploader.ParseThreeLines | src/components/FileUploader.tsx:70-96 | a numeric line, a timecode line and a non-blank third line give a cue with that timecode and the third line as text |
| FileUploader.ParseBlockExample | src/components/FileUploader.tsx:66-97 | the block `1`, `01:02:03,004 --> 01:02:05,006`, `Hello` parses to 3723004..3725006 "Hello" |
| FileUploader.SemicolonBlockSkipped | src/components/FileUploader.tsx:79-81 | a block whose timecode has `;` before the milliseconds is skipped |
| FileUploader.ParseBlocksAppend | src/components/FileUploader.tsx:66-98 | parsing two runs of blocks one after the other gives their cues one after the other, so output order is block order |
| FileUploader.SkippedBlockIsInvisible | src/components/FileUploader.tsx:66-98 | a skipped block contributes nothing, wherever it stands in the file |
| FileUploader.ParseBlocksBounds | src/components/FileUploader.tsx:84-97 | every parsed cue comes from some block of the input, has both times within 0..MaxStamp and a non-empty text |
| FileUploader.ParseOneBlock | src/components/FileUploader.tsx:67-97 | the loop body, with its `continue`s, yields the cue of the block or skips it as `ParseBlock` defines |
| FileUploader.ManualSrtParse | src/components/FileUploader.tsx:60-102 | the loop pushes, in block order, exactly the cues of the blocks that are not skipped |
| FileUploader.StripDelimited | src/components/FileUploader.tsx:109-111 | after tag or brace stripping no opening character is followed anywhere by a closing one, no character is introduced, and a text without an opening character is kept as it is |
| FileUploader.CollapseBlanksKeepsText | src/components/FileUploader.tsx:121 | collapsing blanks changes only spaces and tabs: every other character is kept, in order |
| FileUploader.DropSpacesAfterNewlinesKeepsText | src/components/FileUploader.tsx:122 | the step removes spaces only: every other character is kept, in order |
| FileUploader.DropSpacesBeforeNewlinesKeepsText | src/components/FileUploader.tsx:123 | the step removes spaces only: every other character is kept, in order |
| FileUploader.CapNewlineRunsKeepsText | src/components/FileUploader.tsx:124 | capping removes line breaks only: every other character is kept, in order |
| FileUploader.CollapseBlanksNoDoubleSpace | src/components/FileUploader.tsx:121 | after collapsing blanks no two spaces stand side by side |
| FileUploader.DropSpacesAfterNewlinesShape | src/components/FileUploader.tsx:122 | after the step no space follows a line break, and no double space is created |
| FileUploader.DropSpacesBeforeNewlinesNoSpaceBreak | src/components/FileUploader.tsx:123 | after the step no space precedes a line break |
| FileUploader.CapNewlineRunsNoTriple | src/components/FileUploader.tsx:124 | after capping no run of three line breaks is left |
| FileUploader.NormalizeSpacingShape | src/components/FileUploader.tsx:121-124 | the four white-space steps, in their order, leave no tab, no double space, no space next to a line break and at most two line breaks in a row |
| FileUploader.CleanSubtitleText | src/components/FileUploader.tsx:104-126 | tags, braces, escapes, entities and spacing in source order; its contract is `CleanSubtitleTextShape` and the examples below |
| FileUploader.CleanSubtitleTextShape | src/components/FileUploader.tsx:104-126 | the cleaned text is well spaced in that sense, has no white space at either end, and the empty text stays empty |
| FileUploader.CleanSubtitleTextUnescapesOnly | src/components/FileUploader.tsx:104-125 | on a text without `<`, `{` and `\` whose unescaped form has no white space, cleaning only unescapes entities |
| FileUploader.AmpersandUnescapedFirst | src/components/FileUploader.tsx:115-116 | `&amp;` is unescaped before `&lt;`, so `&amp;lt;` cleans to `<` |
| FileUploader.EscapedTagSurvives | src/components/FileUploader.tsx:109-117 | tags are stripped before entities are unescaped, so `&lt;b&gt;` cleans to the visible text `<b>` |
| FileUploader.TagOnlyTextCleansToEmpty | src/components/FileUploader.tsx:105-109 | a caption that is only a tag, `<i>`, cleans to the empty text, which is still kept as a record |
| FileUploader.ToSubtitles | src/components/FileUploader.tsx:44-49 | one record per parsed cue; `LoadedRecord` states each record |
| FileUploader.LoadSubtitleText | src/components/FileUploader.tsx:25-52 | normalise, split, parse, refuse an empty result, number the records; its contract is `LoadFailsIffNoBlockAccepted` and `LoadedRecord` |
| FileUploader.HandleSubtitleText | src/components/FileUploader.tsx:25-52 | normalising, parsing, the empty check and the numbering give the outcome `LoadSubtitleText` defines |
| FileUploader.LoadFailsIffNoBlockAccepted | src/components/FileUploader.tsx:40-42 | loading fails with "no subtitles found" if and only if no block of the file is accepted |
| FileUploader.LoadedRecord | src/components/FileUploader.tsx:44-49 | the `i`-th loaded record has index `i`, the times of the `i`-th cue, the cleaned cue text, is not selected and has no typed text |
| TextUtils.ConvertLettersToUnderscores | src/utils/textUtils.ts:8-18 | the transform keeps the length of the text |
| TextUtils.ConvertPointwise | src/utils/textUtils.ts:9-17 | character by character, a word character that follows a word character becomes `•` and every other character is kept in place: the first character of every run stays, a run of one is untouched |
| TextUtils.ConvertLeavesNoWordPair | src/utils/textUtils.ts:9-17 | after the transform no two word characters stand side by side |
| TextUtils.ConvertIdempotent | src/utils/textUtils.ts:9-17 | applying the transform twice is applying it once |
| TextUtils.ConvertAppendAtBreak | src/utils/textUtils.ts:9 | text after a non-word character is transformed independently of what precedes it |
| TextUtils.BracketedWordExample | src/utils/textUtils.ts:9-17 | brackets give no exemption: `[Music]` becomes `[M••••]` |
| TextUtils.DocExample | src/utils/textUtils.ts:3 | "He is a soccer player." becomes "H• i• a s••••• p•••••." |
| VideoPlayer.FindActive | src/components/VideoPlayer.tsx:60 | the first caption whose closed interval holds `t`, or -1 exactly when none does |
| VideoPlayer.FindUpcoming | src/components/VideoPlayer.tsx:74 | the first caption that starts after `t`, or -1 exactly when none does |
| VideoPlayer.Resolve | src/components/VideoPlayer.tsx:52-94 | the displayed index is -1 or a caption of the list; which one is stated by `ResolveStrict`, `ResolveAutoPauseStrictMatch`, `ResolveAutoPauseFallback`, `ResolveNothing` and `ResolveConsistent` |
| VideoPlayer.LastEnded | src/components/VideoPlayer.tsx:67-72 | the head of the ended captions stably sorted by decreasing end: none exactly when no caption ended, otherwise an ended caption whose end is the greatest, the lowest index among equals |
| VideoPlayer.ResolveStrict | src/components/VideoPlayer.tsx:84-90 | with auto-pause off the displayed index is the first caption whose closed interval holds `t`, and -1 exactly when none does |
| VideoPlayer.ResolveAutoPauseStrictMatch | src/components/VideoPlayer.tsx:58-64 | with auto-pause on and a caption holding `t`, the display is the strict one |
| VideoPlayer.ResolveAutoPauseFallback | src/components/VideoPlayer.tsx:65-81 | with auto-pause on, no caption holding `t` and one ended, the displayed caption is an ended one with the greatest end, the lowest index among equals |
| VideoPlayer.ResolveNothing | src/components/VideoPlayer.tsx:55-93 | when no caption holds `t` and none has ended, nothing is displayed under either policy |
| VideoPlayer.ResolveConsistent | src/components/VideoPlayer.tsx:55-93 | the displayed caption is always the caption at the displayed index, and nothing is displayed exactly when the index is -1 |
| VideoPlayer.UpcomingCheckNeverRejects | src/components/VideoPlayer.tsx:74-77 | `find(t < start)` returns only a caption starting after `t`, so the test that no caption is coming or `t` precedes it never fails |
| VideoPlayer.GapDisplayExample | src/components/VideoPlayer.tsx:58-81 | captions 0..1000 and 1500..2000 with auto-pause: at 1200 ms the first stays shown, at 1600 ms the second is shown |
| VideoPlayer.JudgeKey | src/components/VideoPlayer.tsx:97-121 | the key handler; its contract is `JudgeKeyGuards`, `JudgeKeyAccepts` and `JudgeKeyKeepsPrefix` |
| VideoPlayer.JudgeKeyGuards | src/components/VideoPlayer.tsx:98-108 | a key counts only in typing mode, with a caption displayed and in range, when it is a single `[a-zA-Z0-9]` character |
| VideoPlayer.JudgeKeyAccepts | src/components/VideoPlayer.tsx:110-119 | past the guards a key is accepted if and only if the typed text is shorter than the target and the lower-cased key is the target's next character; the typed text then grows by it, absent typed text counting as empty |
| VideoPlayer.JudgeKeyKeepsPrefix | src/components/VideoPlayer.tsx:114-118 | a typed text that is a prefix of the target stays a prefix, grows by one character when a key is accepted, and so never exceeds the target |
| VideoPlayer.RenderLine | src/components/VideoPlayer.tsx:238-250 | one line: the typing reveal, else the hidden letters, else the line; its contract is `TypingRevealTakesPriority`, `PlainRenderShowsText` and `HiddenRenderHidesText` |
| VideoPlayer.RenderLines | src/components/VideoPlayer.tsx:237 | one rendered line per `\n`-separated line of the caption |
| VideoPlayer.TypingRevealTakesPriority | src/components/VideoPlayer.tsx:240-246 | in typing mode with a caption displayed the hide-letters flag has no effect on the rendering |
| VideoPlayer.PlainRenderShowsText | src/components/VideoPlayer.tsx:237-250 | with neither mode active the rendered lines join back to the caption's text |
| VideoPlayer.HiddenRenderHidesText | src/components/VideoPlayer.tsx:237-246 | with hide-letters on and typing off, hiding line by line gives the hidden form of the whole caption |
| App.PauseTarget | src/App.tsx:82-120 | a pause names an existing caption and never the caption last paused at |
| App.PauseInsideCaption | src/App.tsx:87-106 | inside a caption the auto-pause stops at the first caption holding `t` if and only if `t >= end - 100` and it is not the caption last paused at |
| App.PauseBetweenCaptions | src/App.tsx:109-119 | between captions it stops at the first caption with `end < t <= end + 200` unless that caption was the last paused at; the `!== -1` test decides nothing |
| App.NoPauseAwayFromCaptions | src/App.tsx:108-120 | between captions with none just passed there is no pause |
| App.PauseIdempotent | src/App.tsx:97-118 | re-evaluating a tick after its pause was recorded pauses no second time |
| App.EndPauseSuppressesJustPassed | src/App.tsx:97-118 | over two ticks: after a pause near a caption's end, a later tick in the gap at which that caption is the first one just passed does not pause again |
| App.WithTyped | src/App.tsx:169-175 | only the addressed record's typed text changes; an index out of range changes nothing |
| App.WithSelected | src/App.tsx:177-183 | only the addressed record's selection changes; an index out of range changes nothing |
| App.SetAllSelected | src/App.tsx:218-228 | every record's selection becomes the given flag and nothing else changes |
| App.ClearTyped | src/App.tsx:159-162 | every record's typed text becomes empty and nothing else changes |
| App.Selected | src/App.tsx:186 | the selection holds exactly the selected records |
| App.SelectedKeepsOrder | src/App.tsx:186 | the selection keeps the list's order |
| App.SelectAllSelectsEverything | src/App.tsx:218-222 | after select-all the selection is the whole list, in order |
| App.ClearSelectionSelectsNothing | src/App.tsx:224-228 | after clearing nothing is selected |
| App.ClearedTypingIsPrefix | src/App.tsx:154-162 | after typing mode is enabled every typed text is a prefix of its target, whatever the target |
| App.Session.constructor | src/App.tsx:11-37 | the initial state: no captions, time 0, all flags off except the two saved settings, nothing paused; typing mode only with hide-letters on |
| App.Session.SetVideo | src/App.tsx:14 | the video reference changes and nothing else |
| App.Session.LoadSubtitleFile | src/App.tsx:52-54 | a file with captions replaces the list; a failed load leaves the previous list; the pause tracking is not reset |
| App.Session.SubtitleClick | src/App.tsx:56-76 | with a video, seeks to the caption's start and plays, marks a manual seek and forgets the last pause; without one nothing happens |
| App.Session.SeekGuardExpired | src/App.tsx:72-74 | the manual seek ends and nothing else changes |
| App.Session.TimeUpdate | src/App.tsx:78-122 | records the time; pauses only when auto-pause is on, a video is present, captions are loaded and no manual seek is in progress, at the caption `PauseTarget` names, which becomes the last paused; the tracking stays null or an index |
| App.Session.ToggleAutoPause | src/App.tsx:128-132 | flips auto-pause and forgets the last pause in both directions |
| App.Session.ToggleHideLetters | src/App.tsx:143-147 | runs only with typing off, since its checkbox (line 329) is disabled in typing mode; flips hide-letters and nothing else |
| App.Session.ToggleTextTyping | src/App.tsx:149-167 | flips typing mode and forgets the last pause; enabling also turns hide-letters and auto-pause on and empties every typed text, disabling leaves them |
| App.Session.TextTyped | src/App.tsx:169-175 | only the addressed record's typed text changes |
| App.Session.SelectionChange | src/App.tsx:177-183 | only the addressed record's selection changes |
| App.Session.SetSelection | src/App.tsx:218-228 | every selection flag is set and nothing else changes |
| App.Session.PreviewSelected | src/App.tsx:207-216 | the preview opens if and only if some record is selected |
| App.Session.ClosePreview | src/App.tsx:418 | closes the preview and changes nothing else |
| App.Session.DownloadSelected | src/App.tsx:185-191 | exports exactly the selected records, and aborts when there are none |
| App.Session.KeyDown | src/components/VideoPlayer.tsx:97-121 | the caption displayed at the current time judges the key, and an accepted key becomes that record's typed text |
| SubtitleLine.JsRem | src/components/SubtitleLine.tsx:24 | JavaScript's `%`: the remainder has the sign of the dividend and is smaller than the divisor |
| SubtitleLine.FormatTime | src/components/SubtitleLine.tsx:21-26 | `formatTime`; its contract is `FormatTimeFields`, `NoHourRollover` and `SubSecondDropped` |
| SubtitleLine.TimeRange | src/components/SubtitleLine.tsx:39 | the caption's two labels joined by ` - `; `PreviewEntriesInOrder` states it for the preview (PreviewModal.tsx:74) |
| SubtitleLine.FormatTimeFields | src/components/SubtitleLine.tsx:21-26 | for a non-negative time the label is `M:SS`: the minutes field has at least two digits and reads as the whole minutes, the seconds field is exactly two digits and reads as the seconds within the minute (0 to 59) |
| SubtitleLine.NoHourRollover | src/components/SubtitleLine.tsx:23-25 | minutes are never cut to two digits: 3723004 ms is `62:03` |
| SubtitleLine.SubSecondDropped | src/components/SubtitleLine.tsx:22 | milliseconds are dropped: 999 ms is `00:00` |
| SubtitleLine.FormatTimeOfNat | src/components/PreviewModal.tsx:24-29 | the preview's label is the same: padded `⌊ms/60000⌋`, a colon, padded `⌊ms/1000⌋ mod 60` |
| PreviewModal.IndexSlotAsWritten | src/components/PreviewModal.tsx:70-72 | a `#` label appears if and only if the index is truthy (present and not 0) |
| PreviewModal.LoadedLabelAsWritten | src/components/PreviewModal.tsx:70-72 | a loaded record gets a label if and only if it is not the first one; the first shows a bare `0` |
| PreviewModal.IndexSlot | src/components/PreviewModal.tsx:70-72 | corrected slot: empty exactly when the index is absent, otherwise a `#` label |
| PreviewModal.LoadedLabel | src/components/PreviewModal.tsx:70-72 | with the corrected slot every loaded record, the first included, is labelled `#` followed by its index's digits |
| PreviewModal.PreviewDiffersOnlyAtIndexZero | src/components/PreviewModal.tsx:63-87 | the page as written and the intended page `PreviewIntended` have the same entries, times and lines; an entry's index slot differs exactly when its record's index is 0 |
| PreviewModal.EntryOf | src/components/PreviewModal.tsx:64-84 | one entry as rendered; its contract is `PreviewEntriesInOrder` |
| PreviewModal.EntryIntended | src/components/PreviewModal.tsx:64-84 | one entry with the corrected slot; compared by `PreviewDiffersOnlyAtIndexZero` |
| PreviewModal.PreviewIntended | src/components/PreviewModal.tsx:31-87 | the corrected page: nothing when closed, otherwise the page of `Preview` with the corrected slot |
| PreviewModal.Preview | src/components/PreviewModal.tsx:31 | a closed modal renders nothing |
| PreviewModal.PreviewMessageIffEmpty | src/components/PreviewModal.tsx:60-62 | the open preview shows the no-selection message if and only if the list is empty |
| PreviewModal.PreviewEntriesInOrder | src/components/PreviewModal.tsx:63-87 | one entry per record in list order; the k-th shows the k-th record's index slot as written (a bare `0` for index 0), its time range and its lines, and its lines join back to the text |

## Left out

- Video control: `play`, `pause` and `currentTime` writes are returned as signals. `App.Session.TimeUpdate` returns the caption paused at; `App.Session.SubtitleClick` returns the time to seek to.
- Reading the file (`file.text()`), the video file check, object URLs and the JSON download. The download returns the records it would serialise.
- `localStorage`, `alert` and `console.log`. The two saved settings are constructor parameters.
- App.Session.constructor: requires the saved settings to have hide-letters on whenever typing is on. The two toggles are the only writers of the storage and keep that rule, so a hand-edited storage is not modelled.
- Floating point: the seconds-to-milliseconds conversions and their `Math.round`, the font size, the drag position of the caption box, the panel splitter and the responsive layout. Time is integer milliseconds throughout. JavaScript numbers are doubles; every time the parser produces is below 362440000, so it is exact.
- The 100 ms timer that ends a manual seek. It is the explicit method `App.Session.SeekGuardExpired`.
- `extractLettersOnly` and `revealTypedCharacters`: their definitions are not part of this model, so they are function parameters. The typing-progress indicator that uses them is left out.
- React mechanics: effects, listener registration, the Escape and Enter handling, scrolling, keys. State updates are applied at once, in handler order. `App.Session.KeyDown` uses the caption displayed at the current time, as if the display effect has already run.
- The subtitle panel's active-line test: it repeats the closed-interval test of `VideoPlayer.FindActive` on unrounded times.
- VTT files: the file picker accepts them, but no code parses them.
- Strings are sequences of Unicode scalar values, not UTF-16 code units. Every character the code tests is in the Basic Multilingual Plane.
- VideoPlayer.LastEnded: it is characterised by its result, greatest end and lowest index among equals, rather than by a model of `Array.prototype.sort`. The sort is stable, so its head is that element.
- FileUploader.CleanSubtitleTextShape: it states the shape of the cleaned text (well spaced, trimmed) rather than a closed form. Exact results are proved on examples (`AmpersandUnescapedFirst`, `EscapedTagSurvives`, `TagOnlyTextCleansToEmpty`).

## Findings

| source | as written | input that shows it | evidently intended | confidence | as-written member | corrected member |
|---|---|---|---|---|---|---|
| src/components/PreviewModal.tsx:70-72 | `{subtitle.index && <span>#{subtitle.index}</span>}`. Indices are 0-based, and React renders a falsy number child as its digits. | the first loaded caption, index 0: it shows a bare `0` and no `#` label | every caption with an index gets its `#` label | medium, not executed | PreviewModal.LoadedLabelAsWritten | PreviewModal.LoadedLabel |
