# A verified model of SeekForge's bookkeeping

This project models the parts of SeekForge where state, text and time have to be exactly right, and proves what they
promise. Every Dafny file is one component; the files import each other by module name.

- **Run ledger.** `Lines.dfy` and `LineVisitor.dfy` cut a file into lines chunk by chunk. `EventLog.dfy` is one run's
  event log on the bytes of its file: validation, paging with cursors, repair, appending; `EventCodec.dfy` shows that
  what it assumes of the text of events can be had. `RunLedger.dfy` is the append-only ledger of runs: what a reader
  sees, and what compaction keeps. `LedgerProcesses.dfy` lets any number of server processes append, prune, die and
  restart over one ledger. `RunManager.dfy` is the class of one manager, with its three caches (line count, sequence
  numbers, replay cursors), its counters and its files. `RunHistory.dfy` follows one manager's ledger over any
  sequence of calls.
- **Protocols.** `Coordinator.dfy` (promise chains and idle reservations per repository), `SessionDispatch.dfy`
  (reference counts, deferred disposers, eviction), `Worktrees.dfy` (slug reservation across awaits) are classes whose
  methods are the steps between two points where control is given up; every method keeps the class invariant, so the
  invariant holds in every interleaving. `ScheduleLease.dfy` is the lock directory protocol as a timed state machine.
- **Text.** `AgentText.dfy` and `AgentDefinitions.dfy` (agent files: split, render, split again), `AgentValues.dfy`
  (what a reader takes the form keys of such a file to say), `RegexScanner.dfy` (the scanner against a predicate on
  expressions), `ShellQuoting.dfy` (quoting against a POSIX lexer), `StreamInput.dfy` (the second chunked reader),
  `ShellCapture.dfy` (the bounded output buffer).
- **Scheduling.** `CronField.dfy` and `Schedule.dfy` (cron text and meaning, due times, next runs, retries);
  `CrontabStandard.dfy` compares the days of an expression with those of the crontab utility.
- **Files.** `FileWalk.dfy` (the breadth-first walk and the cached listing).
- `Basics.dfy`, `Options.dfy`, `Sorting.dfy`, `Splitting.dfy`, `Text.dfy`, `Decimals.dfy` hold shared vocabulary.

Conventions. A value the code obtains from outside is a parameter: the clock (`now`), how much a read returns
(`shortReads`, `chunkSizes`), the encoding of events (`Codec`), the local clock of cron (`int -> Wall`), the text of a
number, the case mapping of a search. Files carry a stamp that every write renews, which stands for the identity the
code compares: equal stamps mean equal contents. Instants are milliseconds.

Of the encoding of events, `Faithful` assumes what holds of `JSON.stringify`, `JSON.parse` and `trim`: a line is blank
exactly when it consists of the characters `trim` removes, in UTF-8; an event is written on one line; that line, alone or
after spaces, tabs and carriage returns, reads back as the event when its sequence number is a safe integer, and as no
event otherwise; after other white space, or after another event, it does not parse. `SomeCodecIsFaithful` gives an
encoding with all of this.

Results worth knowing, where the code and its intent part ways:

- `isConservativeRegex` accepts some dangerous expressions: a greedy `?` on an escaped parenthesis is read as the start
  of a group prefix. It is right on every expression without such a `?` (`ScannerIsRight`); where danger is hidden that
  way it accepts, unless another flaw, which it does see, makes it refuse (`ScannerAgainstProperty`).
- The days of a cron expression are those of the crontab utility exactly when the fields meet a condition one can read
  off them (`FiresAsStandardIff`); otherwise matches are missed, never added (`FiresOnlyAsStandard`). The code always
  wants the month (`MonthIsAlwaysRequired`), and takes a list of all values for an asterisk (`FullListIsNoAsterisk`),
  although the comment on `cronMatches` promises standard semantics.
- `parseCronField` ignores what follows a second hyphen: `1-5-9` is `1-5`. An accepted field is of the intended grammar
  exactly when no part of it has two hyphens before its slash (`IntendedIffOneHyphen`).
- An accepted draft comes back from its file exactly when no text that shares a line with its key holds U+2028 or
  U+2029, which the `.` of the key pattern does not match, and no line before the first key of the old file turns into
  a key when it loses carriage returns (`RoundTripsExactlyWritable`). Rendering a second time changes nothing exactly
  when no such line ends in a carriage return (`RenderIsIdempotent`).
- An appended event extends a run's log exactly when, after repair, no line is over the limit, the last one has its
  newline or is JSON white space that leaves room, and the number is a safe integer (`AppendExtendsIff`). A blank line
  of any other white space swallows it: a log that holds one form feed needs no repair, and loses the event
  (`FormFeedLosesEvent`). An event that lacks only its newline is kept by repair and lost with the next one
  (`UnendedEventIsLost`). Whenever the event is not seen, nothing is that the same process appends later without
  repair (`AppendOutcome`, `BlockedThenMore`).
- A process that dies when all of a ledger record but its newline is written makes the next append destroy both
  records (`JoiningLosesBoth`), and the appending process goes on where nobody reads (`MisledAppendsUnseen`). Without
  that no live run is ever lost (`RunsAreNeverLost`).
- The editor's description comes back from its file exactly if it is single-spaced (`ValuesRoundTrip`): the reader
  collapses white space, although the form takes several lines.
- The scheduler lease need not be exclusive when a live process takes longer than the grace period to write its owner
  file: from every such state another process can come to share it (`GraceIsNeeded`).
- A create of a worktree can fail with a duplicate id, exactly when an ordinary workspace whose hashed id has the same
  text was opened while git worked (`WorktreeMade`).
- `formatCommandLine` writes the binary unquoted, which is right exactly when it is a plain word: no character in it is
  special where it stands, and it is neither a reserved word nor an assignment (`RightIffPlain`).

## Model

| member | source | states |
|---|---|---|
| Lines.LinesAreCut | apps/server/src/config.ts:339-357 | each line handed on is the newline-free stretch up to the next newline or the end, within the limit, with the offset just past it |
| Lines.CutIsComplete | apps/server/src/config.ts:339-357 | cutting ends at the end of the input, or at a line longer than the limit, never earlier |
| Lines.Resume | apps/server/src/config.ts:341-357 | reading may resume at any reported offset: what follows is exactly the later lines |
| Lines.OffsetsIncrease | apps/server/src/config.ts:348-353 | reported offsets strictly increase, so an offset names one line |
| LineVisitor.VisitProjectFileLines | apps/server/src/config.ts:315-361 | however the file is read, the visitor sees the lines from the start offset in order, up to its refusal or the first overlong line |
| LineVisitor.VisitComplete | apps/server/src/config.ts:347-354 | draining complete lines from what was read leaves the fold over the whole file unchanged |
| LineVisitor.RestIsFold | apps/server/src/config.ts:339-360 | what the visitor makes of the file is the fold over its lines |
| StreamInput.ReadStreamJsonInput | apps/cli/src/stream-input.ts:96-143 | for every way of cutting the input into chunks: the texts of the lines in order, then the error of the first bad or overlong line |
| StreamInput.ReadComplete | apps/cli/src/stream-input.ts:125-133 | taking complete lines out of the buffer keeps the meaning of the remaining input |
| StreamInput.RemainingIsPieces | apps/cli/src/stream-input.ts:120-143 | the character-by-character meaning of the rest of the input is that of its lines |
| StreamInput.LineYields | apps/cli/src/stream-input.ts:102-118 | a line yields a text exactly if it is a user turn with one, in any of three forms; an error exactly if it is not JSON, or its text is given and empty; else nothing |
| StreamInput.BlocksText | apps/cli/src/stream-input.ts:75-83 | the text of a list of blocks is that of its text blocks, in order |
| EventLog.SeqsIncrease | apps/server/src/run-ledger.ts:228-231 | the valid prefix of a log has strictly increasing sequence numbers and offsets |
| EventLog.ResumeAfter | apps/server/src/run-ledger.ts:213-241 | validation resumed just past any event, with its number, finds exactly the later events |
| EventLog.ReadRunEventPageAt | apps/server/src/run-ledger.ts:196-247 | the page is the first `limit` valid events after `afterSeq`, `hasMore` says whether there is one more, the offset lies past the last; bad arguments give an empty page |
| EventLog.RunIdsAre | apps/server/src/run-ledger.ts:204-204 | the ids that name logs, by code point |
| EventLog.MadeIdsAreOk | apps/server/src/run-ledger.ts:57-59 | the ids the code makes name logs |
| EventLog.OkIdsAreNames | apps/server/src/run-ledger.ts:204-204 | no id with a slash, a backslash or a dot names a log |
| EventLog.SpaceSizeIs | apps/server/src/run-ledger.ts:148-148 | the white space of blank lines is what trim removes, by its UTF-8 bytes |
| EventLog.CursorSeesTheRest | apps/server/src/run-ledger.ts:485-490 | from a cursor and from byte 0 the same later events are found |
| EventLog.CursorPage | apps/server/src/run-ledger.ts:485-496 | the page read at a cursor is the page read from byte 0, and leaves a cursor that again lies just past its event |
| EventLog.ReplayIsComplete | apps/server/src/run-ledger.ts:187-247 | asking for page after page from 0 ends, and gives every event of the longest valid prefix once, in order |
| EventLog.AppendLine | apps/server/src/run-ledger.ts:398-409 | a next event appended to a sound log extends its valid prefix by exactly that event |
| EventLog.RepairJsonLines | apps/server/src/run-ledger.ts:142-165 | the file becomes its longest valid prefix, and is rewritten only when something else follows it |
| EventLog.RepairKeepsEvents | apps/server/src/run-ledger.ts:142-165 | a log without a line over the limit, up to the first bad one, keeps exactly its valid events; it is then sound, if besides the last line kept has its newline |
| EventLog.RepairLosesNothing | apps/server/src/run-ledger.ts:142-165 | repairing any log loses no event of its longest valid prefix |
| EventLog.AppendExtendsIff | apps/server/src/run-ledger.ts:398-409 | after repair an append extends the log by exactly its event if and only if no line is over the limit, the last one ends in a newline or is JSON white space with room for the event, and the number is safe |
| EventLog.AppendOutcome | apps/server/src/run-ledger.ts:398-409 | what readers see of any repaired or blocked log after an append: one more event, the same ones, or, if the last event lacked its newline, one less; when the event is not seen the log is blocked |
| EventLog.BlockedThenMore | apps/server/src/run-ledger.ts:213-241 | what follows a line that stops every reader is never seen |
| EventLog.UnendedEventIsLost | apps/server/src/run-ledger.ts:147-161 | an event without its newline is lost with the event appended after it, to readers at once and for good with the next repair; the events before it stay |
| EventLog.FormFeedLosesEvent | apps/server/src/run-ledger.ts:148-148 | a log of one form feed is not repaired, and loses the event appended to it |
| EventCodec.SomeCodecIsFaithful | apps/server/src/run-ledger.ts:398-409 | an encoding of events that has every property the logs rely on |
| EventLog.LastSeq | apps/server/src/run-ledger.ts:636-652 | the number of the last event of the longest valid prefix, 0 when there is none, however the file is read |
| RunLedger.ReadLedgerIsLatest | apps/server/src/run-ledger.ts:167-175 | readers get exactly the last record of every run, once, most recently updated first |
| RunLedger.RepairKeepsRecords | apps/server/src/run-ledger.ts:142-165 | repairing the ledger changes no record a reader sees and leaves nothing a reader would stop at |
| RunLedger.RecordsAppend | apps/server/src/run-ledger.ts:535-538 | an append to a repaired ledger adds exactly its record and one line |
| RunLedger.CompactedLatest | apps/server/src/run-ledger.ts:581-609 | after compaction a reader sees the retained runs, with unchanged records, and no others |
| RunLedger.CompactionLosesNoLiveRun | apps/server/src/run-ledger.ts:574-586 | a queued or running run survives compaction with its latest record; a run that survives is unchanged |
| RunLedger.CompactionDropsOldest | apps/server/src/run-ledger.ts:586-604 | a dropped run is terminal, and was updated longer ago than the policy's days (0 < days <= 36500, each 86,400,000 ms), or readers see as many terminal runs as the cap allows (0 to 100,000, or 500) and none updated earlier |
| RunLedger.CompactionKeepsRecent | apps/server/src/run-ledger.ts:592-604 | no terminal run that is kept is older than the policy's days, and there are no more than the cap |
| RunLedger.CompactionBoundsLines | apps/server/src/run-ledger.ts:600-610 | the compacted ledger has at most one line per live run plus the cap |
| RunLedger.CompactionKeepsLiveRuns | apps/server/src/run-ledger.ts:585-609 | compaction does not change how many runs are queued or running |
| RunLedger.LiveRunsAppend | apps/server/src/run-ledger.ts:354-365 | an append changes the number of live runs by exactly what it changes about its own run |
| LedgerProcesses.EnsureIsExact | apps/server/src/run-ledger.ts:546-559 | the working copy needs no repair, has every record it had, and its cached line count is the true one |
| LedgerProcesses.AppendKeeps | apps/server/src/run-ledger.ts:530-544 | after an append the cached count is exact, the log is bounded, and live runs are counted right |
| LedgerProcesses.AppendLatest | apps/server/src/run-ledger.ts:530-544 | an append is seen for its run, every other live run is unchanged, nothing is altered |
| LedgerProcesses.PruneKeeps | apps/server/src/run-ledger.ts:504-509 | after a prune the cached count is exact and the log holds the live runs and no more than the cap of others |
| LedgerProcesses.PruneLatest | apps/server/src/run-ledger.ts:504-509 | a prune loses no live run and changes no run it keeps |
| LedgerProcesses.NextCoherent | apps/server/src/run-ledger.ts:531-539 | whatever step any process makes, every process's cached count is exact as long as the file is the one it counted; but for an append to an unended record |
| LedgerProcesses.StepKeepsRuns | apps/server/src/run-ledger.ts:530-609 | one step of any process, torn writes included, that does not join an unended record: a run changes only by a record written for it and vanishes only when terminal |
| LedgerProcesses.RunsAreNeverLost | apps/server/src/run-ledger.ts:530-609 | over every interleaving of appends, prunes, torn writes and restarts, unless a write is next after one that lacked only its newline: a run that stayed queued or running is seen with the last record written for it |
| LedgerProcesses.JoinsIffUnended | apps/server/src/run-ledger.ts:546-559 | an append joins the last line exactly if the ledger needs no repair and its last line lacks the newline, whatever the process remembers |
| LedgerProcesses.JoiningLosesBoth | apps/server/src/run-ledger.ts:535-539 | an append after a record that lacks only its newline: neither record is seen, every run is as before both |
| LedgerProcesses.MisledAppendsUnseen | apps/server/src/run-ledger.ts:546-559 | what the same process appends afterwards is not seen either, until it compacts or another process writes |
| LedgerProcesses.AppendBoundsTheLog | apps/server/src/run-ledger.ts:540-542 | after any history, joined records too, an append leaves at most max(1000, live runs + the cap of the policy, 500 unless it says 0 to 100,000) lines |
| RunManagement.CursorsSurvive | apps/server/src/run-ledger.ts:487-489 | whatever any process does to the files, remembered cursors stay right or are not used |
| RunManagement.RunManager.constructor | apps/server/src/run-ledger.ts:310-310 | a new manager's caches agree with the files and its books balance |
| RunManagement.RunManager.EventPage | apps/server/src/run-ledger.ts:485-502 | the page is the one a scan of the whole log would give, whatever is cached; it is read from the cursor if that is for this page of this file, and the cursor moves to its end |
| RunManagement.RunManager.RememberCursor | apps/server/src/run-ledger.ts:491-500 | the new cursor is the most recently used; of more than 512 the least recently used goes, and nothing else changes |
| RunManagement.RunManager.NextSeq | apps/server/src/run-ledger.ts:382-397 | for any log: cached or recovered, the number the code computes; recovered, one past the last valid event of the log as repaired |
| RunManagement.RunManager.AppendFrame | apps/server/src/run-ledger.ts:370-423 | for any log: the event is numbered last + 1 and written after the repaired log, and what readers see is what EventLog.AppendOutcome says; after a torn write exactly one more event; or it is too large and only repair happens |
| RunManagement.Extended | apps/server/src/run-ledger.ts:398-411 | what an append makes of the log, repaired or remembered: repair loses no event seen, the append one more, the same or one less; then the remembered number is the last in the file, or the log is blocked |
| RunManagement.RunManager.EnsureLedger | apps/server/src/run-ledger.ts:546-559 | the class performs the repair-and-recount step the process model is about |
| RunManagement.RunManager.CompactLedger | apps/server/src/run-ledger.ts:581-634 | exactly the runs the ledger loses are reported, and exactly their event logs, sequence numbers and cursors go |
| RunManagement.RunManager.Forget | apps/server/src/run-ledger.ts:616-629 | of each run that is not retained, and of no other, the log and the cached data are dropped |
| RunManagement.RemovedExactly | apps/server/src/run-ledger.ts:616-633 | the runs reported as removed are those a reader saw before and does not see after |
| RunManagement.RunManager.AppendRecord | apps/server/src/run-ledger.ts:530-544 | the leased append of the process model; no log of a run still in the ledger is touched |
| RunManagement.RunManager.Record | apps/server/src/run-ledger.ts:530-544 | an append changes what readers see of its own run only, up to pruned terminal runs; the log stays bounded |
| RunManagement.RunManager.Prune | apps/server/src/run-ledger.ts:504-509 | under the policy of this call: reports exactly what readers lost; no terminal status changes; the books still balance |
| RunManagement.RunManager.Get | apps/server/src/run-ledger.ts:473-475 | the run's latest record, if it is in the ledger |
| RunManagement.FindsLatest | apps/server/src/run-ledger.ts:473-475 | looking up a run in the sorted listing gives its last appended record |
| RunManagement.RunManager.Create | apps/server/src/run-ledger.ts:312-332 | readers see the new run as queued; it is counted as started; nothing else changes |
| RunManagement.RunManager.Update | apps/server/src/run-ledger.ts:339-368 | terminal states absorb; entering one counts once and drops the cached number; started = completed + failed + cancelled + waiting + live is kept |
| RunManagement.PatchedUpdates | apps/server/src/run-ledger.ts:354-354 | each field after an update is the one given, and the old one where none is given |
| RunManagement.RunManager.LeaveWork | apps/server/src/run-ledger.ts:356-366 | exactly the counter of the state entered grows, and only if the run was live |
| RunManagement.RunManager.Start | apps/server/src/run-ledger.ts:334-337 | a live run is seen as running; a terminal or unknown run is left alone |
| RunManagement.RunManager.Cancel | apps/server/src/run-ledger.ts:447-467 | a live run becomes cancelled, counted once, and the cancellation event is appended to its log, for any log; other runs are left alone |
| RunHistory.TerminalForGood | apps/server/src/run-ledger.ts:339-368 | over any sequence of creates, updates, starts, cancels and prunes in which new runs get new ids: a run once seen as terminal is never seen with another status, pruned or not |
| AgentText.SplitDefinition | apps/server/src/agent-definitions.ts:92-104 | the loop over the frontmatter lines computes the split the round trip is stated about; no frontmatter is an error |
| AgentText.KeyCharsAre | apps/server/src/agent-definitions.ts:38-38 | the characters of keys, by code point |
| AgentText.SplitFrame | apps/server/src/agent-definitions.ts:92-104 | framed lines and a trimmed body read back as these lines, grouped, and this body |
| AgentText.WriteRead | apps/server/src/agent-definitions.ts:92-104 | entries written between fences read back as exactly these entries; the preamble before them loses its carriage returns, and gives further entries exactly if that turns a line of it into a key |
| AgentText.SplitIsLoose | apps/server/src/agent-definitions.ts:92-104 | whatever is split off any file can be written back: but for carriage returns at ends of lines, no line of it opens an entry or a fence by accident |
| AgentDefinitions.CheckExtras | apps/server/src/agent-definitions.ts:174-208 | the checks accept exactly the extras with valid, distinct keys and continuation lines that open nothing |
| AgentDefinitions.ContinuationsAccepted | apps/server/src/agent-definitions.ts:198-206 | blank lines, list items, comments and indented lines may continue a value; a line of dashes, or one that begins otherwise, may not |
| AgentDefinitions.ToolNamesAre | apps/server/src/agent-definitions.ts:39-39 | the names of tools, by code point |
| AgentDefinitions.LowerIs | apps/server/src/agent-definitions.ts:184-184 | keys are compared in lower case, letter by letter |
| AgentDefinitions.ExtraReadsBack | apps/server/src/agent-definitions.ts:107-115 | an accepted extra is written as one entry whose value text is its value |
| AgentDefinitions.FormReadsBack | apps/server/src/agent-definitions.ts:117-132 | each form key is written as at most one entry, on one line, that is read as that key |
| AgentDefinitions.RoundTrip | apps/server/src/agent-definitions.ts:226-253 | over a file whose preamble stays one: splitting the rendered text gives the draft's form keys and extras, each once, nothing else, its body, and that preamble without carriage returns at the ends of its lines |
| AgentDefinitions.RenderedSplits | apps/server/src/agent-definitions.ts:226-253 | over any editable file: the rendered text splits into the draft's entries and body, after whatever the preamble without its carriage returns holds |
| AgentDefinitions.RoundTripsExactlyWritable | apps/server/src/agent-definitions.ts:226-253 | an accepted draft makes the round trip over an existing file if and only if no U+2028 or U+2029 stands on a key's line and no preamble line of the file turns into a key |
| AgentValues.JsonReadsBack | packages/core/src/subagents/frontmatter.ts:292-305 | a value written by JSON.stringify is read back as itself |
| AgentValues.EscapesAre | packages/core/src/subagents/frontmatter.ts:292-305 | what each escape of a quoted value stands for |
| AgentValues.TurnsIffWritten | packages/core/src/subagents/load.ts:175-186 | the texts read as numbers of turns are the safe integers from 1 on as they are written |
| AgentValues.ValuesRoundTrip | apps/server/src/agent-definitions.ts:255-281 | a draft written and read again: name, tools, mode, model and turns as they were, the description collapsed, and as it was if and only if it is single-spaced |
| AgentValues.CollapseKeepsIff | packages/core/src/subagents/load.ts:193-193 | collapsing white space leaves exactly the single-spaced texts as they are |
| AgentDefinitions.UnwritableIsLost | apps/server/src/agent-definitions.ts:38-38 | no file at all reads back as a draft with such a character |
| AgentDefinitions.RenderIsIdempotent | apps/server/src/agent-definitions.ts:226-253 | rendering over the rendered text changes nothing, if and only if no preamble line of the existing file ends in a carriage return |
| AgentDefinitions.FixedIsStable | apps/server/src/agent-definitions.ts:226-253 | where a second rendering changes nothing, the preamble stayed one |
| AgentDefinitions.UneditedKeepLinesAndOrder | apps/server/src/agent-definitions.ts:231-245 | unedited entries the form does not own keep their exact lines and their order |
| AgentDefinitions.RenderAgentDefinition | apps/server/src/agent-definitions.ts:226-253 | the three loops produce the text the round trip is stated about, and fail only when there is no frontmatter |
| AgentDefinitions.RenderExisting | apps/server/src/agent-definitions.ts:231-245 | the first loop replaces, keeps and drops existing entries as specified, and notes what it wrote |
| AgentDefinitions.RenderMissing | apps/server/src/agent-definitions.ts:246-248 | the second loop adds exactly the form keys not written yet |
| AgentDefinitions.RenderNew | apps/server/src/agent-definitions.ts:249-251 | the third loop adds exactly the extras not written yet |
| RegexScanner.IsConservativeRegex | apps/server/src/file-scan-search.ts:134-192 | the loop decides acceptance by the scanner's automaton from its start state |
| RegexScanner.ScanPrinted | apps/server/src/file-scan-search.ts:139-190 | reading a printed expression inside any context: the scanner goes on iff the expression is conservative, having noted in the group what it contains |
| RegexScanner.BraceIffCounted | apps/server/src/file-scan-search.ts:180-180 | a brace is read as a quantifier exactly where the text of a counted one begins, with its length |
| RegexScanner.ScannerDecides | apps/server/src/file-scan-search.ts:134-192 | on every printed expression the scanner decides: no escaped digit 1-9, no quantifier on a group with a quantifier it sees or an alternation |
| RegexScanner.ConservativeSplit | apps/server/src/file-scan-search.ts:179-184 | what the scanner sees differs from the property exactly on expressions that hide danger behind an escaped parenthesis |
| RegexScanner.ScannerIsRight | apps/server/src/file-scan-search.ts:134-192 | on every expression without a greedy `?` on an escaped parenthesis the scanner accepts exactly the conservative ones |
| RegexScanner.NoMisreadIff | apps/server/src/file-scan-search.ts:179-179 | the condition: no part of the expression is a greedy `?` on an escaped parenthesis |
| RegexScanner.ScannerAgainstProperty | apps/server/src/file-scan-search.ts:134-192 | the scanner refuses no conservative expression; where nothing is hidden it is right; where danger is hidden it accepts exactly if nothing else is wrong with the expression |
| RegexScanner.MisreadQuantifierAccepted | apps/server/src/file-scan-search.ts:179-179 | a concrete dangerous expression that is accepted |
| Coordination.ServerCoordinator.WithRepository | apps/server/src/coordinator.ts:54-68 | a request is chained to the installed tail and installs its own; all invariants are kept |
| Coordination.ServerCoordinator.Begin | apps/server/src/coordinator.ts:58-59 | a body begins only when every earlier request on the repository is done and no other body runs on it |
| Coordination.ServerCoordinator.SettleTail | apps/server/src/coordinator.ts:59-60 | a tail settles whether the body returned or threw; order and exclusion are kept |
| Coordination.ServerCoordinator.CleanUp | apps/server/src/coordinator.ts:62-64 | never removes a later request's tail, and never touches another repository |
| Coordination.ServerCoordinator.TryWithIdleAgentMutation | apps/server/src/coordinator.ts:98-157 | starts if and only if admitted and the repository has no entry, and then every earlier request is done; otherwise nothing changes |
| Coordination.ServerCoordinator.FinishIdle | apps/server/src/coordinator.ts:150-154 | ends the reservation without removing a later request's tail |
| Coordination.ServerCoordinator.AtMostOneBodyRuns | apps/server/src/coordinator.ts:54-68 | in every reachable state at most one body runs on a repository |
| Coordination.ServerCoordinator.EntryMeansPending | apps/server/src/coordinator.ts:62-64 | a repository without an entry has nothing pending; an entry means something is |
| Coordination.BeginKeepsOrder | apps/server/src/coordinator.ts:58-59 | bodies begin once each and, on every repository, in the order in which the requests obtained their key |
| Coordination.CleanUpKeepsTails | apps/server/src/coordinator.ts:62-64 | removing an entry only when it is one's own keeps every tail in place |
| Coordination.ServerCoordinator.SomethingIsEnabled | apps/server/src/coordinator.ts:54-68 | no deadlock: a pending request, or one it waits for, can always go on |
| Coordination.ServerCoordinator.Submit | apps/server/src/coordinator.ts:45-57 | an operation is tracked from its call on, before its repository is known |
| Coordination.ServerCoordinator.Resolve | apps/server/src/coordinator.ts:57-61 | once its key is known an ordinary operation is chained to the installed tail and installs its own; an idle one runs exactly if let in and the repository has no entry; else nothing changes but that it is answered |
| Coordination.OneMoreAnswer | apps/server/src/coordinator.ts:54-68 | every answered operation has its own request, of its repository and kind, in the order in which they obtained their keys |
| Coordination.ServerCoordinator.Forget | apps/server/src/coordinator.ts:45-52 | a settled operation is no longer tracked, and only then |
| Coordination.ServerCoordinator.RunToEnd | apps/server/src/coordinator.ts:54-68 | in whatever order enabled steps are taken, every body begins, every request settles and no entry is left |
| Coordination.ServerCoordinator.Drain | apps/server/src/coordinator.ts:159-163 | however many operations arrive meanwhile, and whatever is scheduled next, draining ends; then nothing is tracked, every operation was answered once, and each ordinary one whose key was found has a request of its own whose body began and settled |
| SessionDispatch.SessionDispatchRegistry.Attach | apps/server/src/session-dispatch.ts:79-88 | the session's manager is kept or the candidate taken; only sessions without runs, pending callbacks and running dispatches go, the least recently used first and no more than the excess; within the cap, or each of the rest has one of these |
| SessionDispatch.SessionDispatchRegistry.Evict | apps/server/src/session-dispatch.ts:139-148 | the loop disposes exactly the victims, in order, and keeps the rest in order |
| SessionDispatch.EvictsLeastRecent | apps/server/src/session-dispatch.ts:139-148 | the victims are the first entries in order of use with no run, no pending callback and no running dispatch; no more than the excess, and fewer only if each of the rest has one of these |
| SessionDispatch.EvictionKeeps | apps/server/src/session-dispatch.ts:143-146 | an entry with a run, a pending callback or a running dispatch is never dropped; no callback is lost |
| SessionDispatch.AttachEvicts | apps/server/src/session-dispatch.ts:138-148 | what eviction takes after attaching: nothing in use, the least recently used first, and not below the cap |
| SessionDispatch.AttachKeeps | apps/server/src/session-dispatch.ts:79-88 | entries stay in order of last use with exact reference counts, and the session attached to is still there after eviction |
| SessionDispatch.SessionDispatchRegistry.Release | apps/server/src/session-dispatch.ts:99-116 | the callback runs now exactly if nothing of its session runs or all is closed; otherwise it is held back and the timer is set |
| SessionDispatch.RunsNow | apps/server/src/session-dispatch.ts:99-105 | running the callback at once keeps every callback accounted for, order of use and exact reference counts |
| SessionDispatch.HoldsBack | apps/server/src/session-dispatch.ts:106-116 | holding it back keeps them too, with the callback pending |
| SessionDispatch.SessionDispatchRegistry.Poll | apps/server/src/session-dispatch.ts:108-113 | held-back callbacks run, once and all of them, only when no dispatch of the session runs |
| SessionDispatch.SessionDispatchRegistry.Close | apps/server/src/session-dispatch.ts:119-125 | the session is gone, its manager disposed and everything it held back run |
| SessionDispatch.SessionDispatchRegistry.DisposeAll | apps/server/src/session-dispatch.ts:128-132 | every manager is disposed, and every callback ever given has run exactly once |
| SessionDispatch.SessionDispatchRegistry.ClosedHoldsNothing | apps/server/src/session-dispatch.ts:102-105 | that stays true for whatever is released afterwards |
| SessionDispatch.SessionDispatchRegistry.SessionsInUseStay | apps/server/src/session-dispatch.ts:138-148 | in every reachable state a session with unreleased runs is in the registry with that many runs, unless it was closed under them |
| SessionDispatch.SessionDispatchRegistry.TimerIffPending | apps/server/src/session-dispatch.ts:106-115 | a timer is set exactly while callbacks are held back |
| SessionDispatch.RunKeeps | apps/server/src/session-dispatch.ts:37-56 | running an entry's callbacks moves each from pending to run, once, and never while its dispatches run unless closing |
| Worktrees.WorkspaceRegistry.Register | apps/server/src/workspaces.ts:84-90 | adds the workspace exactly if its id is free |
| Worktrees.WorkspaceRegistry.Unregister | apps/server/src/workspaces.ts:93-100 | removes exactly that id, and refuses the default workspace |
| Worktrees.WorktreeManager.StartCreate | apps/server/src/worktrees.ts:119-126 | a worktree cannot be the base of another; otherwise the first candidate is tried |
| Worktrees.WorktreeManager.Probe | apps/server/src/worktrees.ts:249-252 | a reserved or registered candidate is passed over; otherwise git is asked |
| Worktrees.CandidatesDiffer | apps/server/src/worktrees.ts:127-130 | the first candidate is the name, the second has `-2` after it, and no two are the same |
| Worktrees.WorktreeManager.BranchChecked | apps/server/src/worktrees.ts:128-139 | a slug is reserved only if it is still free after the await; the next candidate is tried otherwise, up to 1000 |
| Worktrees.WorktreeManager.WorktreeMade | apps/server/src/worktrees.ts:141-158 | registering meets a duplicate id exactly if an ordinary workspace got it meanwhile, never because of another create; else the worktree is managed and registered; the reservation is gone |
| Worktrees.WorktreeManager.WorktreeNotMade | apps/server/src/worktrees.ts:154-158 | a failed create frees its slug and changes nothing else |
| Worktrees.WorktreeManager.WorktreeRemoved | apps/server/src/worktrees.ts:199-205 | a removed worktree leaves manager and registry together; creates under way are not disturbed |
| Worktrees.WorktreeManager.OpenWorkspace | apps/server/src/routes/workspaces.ts:72-90 | a folder opened at any moment is registered unless its id is; the invariant about creates under way is kept |
| Worktrees.WorktreeManager.CloseWorkspace | apps/server/src/routes/workspaces.ts:101-122 | an ordinary workspace is closed unless it is the default; worktrees and unknown ids are refused |
| Worktrees.WorktreeManager.SlugsAreDistinct | apps/server/src/worktrees.ts:94-98 | in every reachable state creates under way hold different slugs, none of them a worktree's; an id of theirs is registered only for an ordinary workspace |
| Worktrees.WorktreeManager.ManagedIffRegistered | apps/server/src/worktrees.ts:92-98 | in every reachable state: the managed worktrees are exactly the registered workspaces with a worktree id, if and only if no ordinary workspace has such an id |
| ScheduleLease.ActSane | apps/cli/src/schedule.ts:138-223 | no step of one process spoils what another holds: its lease directory, its owner file, its recovery directory |
| ScheduleLease.NextInv | apps/cli/src/schedule.ts:138-223 | every step, crash, release and timely passing of time keeps the invariant |
| ScheduleLease.MutualExclusion | apps/cli/src/schedule.ts:138-223 | in every run with crashes and recoveries at most one live process holds the lease |
| ScheduleLease.SoloRecovery | apps/cli/src/schedule.ts:171-216 | after the owner crashed and the grace period passed, a process running alone gets the lease within ten steps |
| ScheduleLease.FreeIsTaken | apps/cli/src/schedule.ts:165-167 | a process alone takes a lease that nobody has in two steps |
| ScheduleLease.GivesUp | apps/cli/src/schedule.ts:171-222 | a process alone that meets a live holder gives up within six steps, never touches the lease, and leaves no recovery directory of its own |
| ScheduleLease.GraceIsNeeded | apps/cli/src/schedule.ts:202-216 | from every reachable state in which a live process is later than the grace period with its owner file, and for every other process that is idle then, some run ends with both holding the lease |
| ScheduleLease.LateClaimer | apps/cli/src/schedule.ts:202-210 | such a state is reached, by one step and the passing of the grace period |
| CronField.ReadItemIffPrinted | apps/cli/src/schedule.ts:326-354 | an item is accepted exactly when it is the text of a well-formed one, and is read as that one |
| CronField.FieldTextIffPrinted | apps/cli/src/schedule.ts:326-354 | the accepted texts are exactly the comma-separated lists of such items |
| CronField.FieldMeaning | apps/cli/src/schedule.ts:355-359 | a field is accepted iff all its items lie in range, and then yields exactly the values its items denote, strictly increasing |
| CronField.AddStride | apps/cli/src/schedule.ts:357-357 | counting up in steps adds exactly the values congruent to the start within the range |
| CronField.ParseCronField | apps/cli/src/schedule.ts:319-360 | the parser's result is that meaning, and null exactly when there is none |
| CronField.SecondHyphenIgnored | apps/cli/src/schedule.ts:338-344 | text after a second hyphen never changes the meaning |
| CronField.IntendedIffOneHyphen | apps/cli/src/schedule.ts:338-344 | an accepted text is a list of the intended items if and only if no comma-separated part has two hyphens before its slash |
| CronField.NotARangeAccepted | apps/cli/src/schedule.ts:338-344 | a concrete text that is accepted although it is no range |
| Schedule.CronText | apps/cli/src/schedule.ts:363-369 | fields with any white space between and around them are read as these fields; any number of them but five is refused |
| Schedule.WeekMeaning | apps/cli/src/schedule.ts:370-374 | 7 and 0 both mean Sunday, every other day itself, in strictly increasing order |
| Schedule.CoversIffAll | apps/cli/src/schedule.ts:375-384 | a field is unrestricted exactly when it allows every value of its range |
| Schedule.DayRule | apps/cli/src/schedule.ts:393-403 | the code's own rule: the month is always required; both day fields restricted, either suffices; one restricted, it decides; none, any day |
| CrontabStandard.FiresAsStandardIff | apps/cli/src/schedule.ts:363-403 | an expression fires exactly when the crontab utility says (IEEE Std 1003.1, crontab, INPUT FILES), at every time of the calendar, if and only if: the day of the week is an asterisk; or month and day of the month are; or all months are allowed and the two day fields are both restricted or both not |
| CrontabStandard.WeekdaysFollow | apps/cli/src/schedule.ts:393-403 | the calendar of the comparison: days of the week follow each other through all months and leap years |
| CrontabStandard.FiresOnlyAsStandard | apps/cli/src/schedule.ts:388-403 | whenever the code fires, the crontab utility does |
| CrontabStandard.MonthIsAlwaysRequired | apps/cli/src/schedule.ts:398-398 | `0 0 13 1 5` on a Friday in February: the crontab utility fires, the code does not |
| CrontabStandard.FullListIsNoAsterisk | apps/cli/src/schedule.ts:375-384 | `0 0 1-31 * 1` on a Tuesday: the crontab utility fires, the code does not |
| Schedule.IntervalIffText | apps/cli/src/schedule.ts:286-293 | a text is read as an interval of so many milliseconds if and only if it is a positive count and a unit, with white space around either, that mean so many, both exactly representable |
| Schedule.UnitsAre | apps/cli/src/schedule.ts:273-279 | the units are seconds, minutes, hours, days and weeks, in small or capital letters |
| Schedule.NextRunAt | apps/cli/src/schedule.ts:613-635 | the loop finds the first whole minute of the window at which the expression fires, or none if there is none |
| Schedule.NextRunIsLeastDue | apps/cli/src/schedule.ts:435-447 | for interval jobs and pending retries the next run is the least instant from which the job is due |
| Schedule.NextCronRunIsFirstMatch | apps/cli/src/schedule.ts:622-632 | for cron jobs no matching whole minute of the 366-day window comes earlier; the job is due then, unless it ran in the same wall-clock minute |
| Schedule.DelayIsExponential | apps/cli/src/schedule.ts:602-602 | the delay after the k-th failure is min(1 h, 2^(k-1) min): the cap on the exponent never shows |
| Schedule.GapAfterFailure | apps/cli/src/schedule.ts:588-609 | after the k-th failure in a row a job is due iff it is enabled, k is below five, and that delay has passed |
| Schedule.GapAfterSuccess | apps/cli/src/schedule.ts:591-594 | after a success an interval job is due iff it is enabled and the interval has passed |
| Schedule.GapsInHistory | apps/cli/src/schedule.ts:588-609 | in every history: after a run that failed, and without enabling, the next selection comes no earlier than that delay, and never after the fifth failure; after a success, no earlier than the interval |
| Schedule.RunsAreBounded | apps/cli/src/schedule.ts:578-610 | in every history without success or re-enabling a job runs at most five times |
| Schedule.DisabledStaysIdle | apps/cli/src/schedule.ts:556-569 | a disabled job, by the user or by its failures, does not run until it is enabled |
| Schedule.EnabledIsFresh | apps/cli/src/schedule.ts:556-569 | enabling, whatever the job was: enabled, no failures, no pending retry, nothing else changed; it is due exactly when its schedule asks for a run |
| Schedule.DisabledIsNotDue | apps/cli/src/schedule.ts:563-565 | disabling changes nothing else, and the job is not due |
| Schedule.DueAsScheduled | apps/cli/src/schedule.ts:435-456 | without a pending retry a job is due exactly when enabled and its schedule asks for it: the interval has passed, or the expression fires and any field of the clock down to the minute differs from the last run |
| Schedule.ResultIsNoted | apps/cli/src/schedule.ts:588-610 | a success clears the failures, a failure adds one, the fifth in a row disables; the end of the run is noted |
| Schedule.CountIsFailures | apps/cli/src/schedule.ts:556-610 | in every history the count is that of the failures since the last success or enabling, and the job is enabled exactly if no disabling and no fifth failure came after the last enabling |
| Schedule.RunsBetweenEnablings | apps/cli/src/schedule.ts:556-610 | in every history, between two enablings without a success, a job runs at most five times |
| ShellQuoting.QuotedIsRead | apps/cli/src/runner.ts:39-42 | a shell reads a quoted value as that value, whatever it holds, follows or precedes (IEEE Std 1003.1, XCU section 2.2.2) |
| ShellQuoting.CommandLineIsRead | apps/cli/src/runner.ts:45-47 | the rendered command line of a plain binary is read as exactly the binary and its arguments (XCU sections 2.2, 2.3, 2.4 and 2.10.2) |
| ShellQuoting.RightIffPlain | apps/cli/src/runner.ts:45-47 | that holds for all arguments if and only if the binary is plain: no quoting, operator, expansion or redirection character; no comment, tilde prefix or pattern; no reserved word and no assignment |
| ShellQuoting.PlainInside | apps/cli/src/runner.ts:45-47 | characters that are special only at the start of a word, or as a word, do not matter inside one |
| ShellQuoting.BuildSshRunArgs | apps/cli/src/ssh-runner.ts:64-112 | the errors exactly as documented; else the local options, then one argument the remote shell reads as the intended words |
| ShellQuoting.RemoteCommand | apps/cli/src/ssh-runner.ts:98-110 | the remote string is read as `cd`, the workspace, one `&&`, and the words of the run, each option with its value |
| ShellQuoting.RunWordsSay | apps/cli/src/ssh-runner.ts:98-110 | the words are the binary, `run`, the task and `-y`, then exactly the options that are set, each right before its value |
| ShellQuoting.PortsAre | apps/cli/src/ssh-runner.ts:75-78 | ports are the whole numbers from 1 to 65535 |
| ShellCapture.Capture.Collect | apps/cli/src/shell-capture.ts:111-130 | the buffer is the last maxBytes bytes of the whole stream; without tail, all of it until it is too much |
| ShellCapture.Capture.DropFront | apps/cli/src/shell-capture.ts:121-129 | dropping whole chunks and trimming one leaves exactly the last maxBytes bytes |
| ShellCapture.CaptureTail | apps/cli/src/shell-capture.ts:111-130 | the tail depends on the stream, not on how it was cut into chunks |
| FileWalk.SortedByName | apps/server/src/file-scan-search.ts:65-65 | entries are visited in order of their names |
| FileWalk.LessIsByUnit | apps/server/src/file-scan-search.ts:65-65 | names are ordered by their UTF-16 code units, one after the other |
| FileWalk.QueueIsLevelOrder | apps/server/src/file-scan-search.ts:48-72 | the queue visits files level by level |
| FileWalk.QueueVisitsAll | apps/server/src/file-scan-search.ts:50-79 | the walk visits exactly the files a recursive descent visits, each as often |
| FileWalk.AllFilesOnce | apps/server/src/file-scan-search.ts:45-81 | of a whole workspace every kept file is visited once per place it stands at |
| FileWalk.ListedIff | apps/server/src/file-scan-search.ts:50-77 | a path is listed exactly if a file stands there, through readable directories, and no part of it is ignored, skipped by name, or a directory whose name begins with a dot |
| FileWalk.ListedOnce | apps/server/src/file-scan-search.ts:45-81 | when names in a directory are distinct and hold no slash, no path is listed twice |
| FileWalk.WalkWorkspaceFiles | apps/server/src/file-scan-search.ts:45-81 | the first `limit` files of the full walk, truncated iff there are more |
| FileWalk.MatchingPrefix | apps/server/src/file-scan-search.ts:102-108 | what a bounded walk selects is the beginning of what the full walk selects |
| FileWalk.FileLister.ListWorkspaceFiles | apps/server/src/file-scan-search.ts:93-112 | the first `limit` of the matching files of a walk made within the last three seconds, or of a new and longer one when that was cut and more are asked for; truncated exactly when the walk was cut or more matched |
| FileWalk.FileLister.Refresh | apps/server/src/file-scan-search.ts:93-98 | a workspace is walked again exactly when it was not walked within the last three seconds, whatever changed meanwhile |
| FileWalk.ListingIsPrefix | apps/server/src/file-scan-search.ts:102-112 | what is listed is the beginning of all that match, and all of it unless truncated |

## Left out

- File system detail: symbolic links, permissions, `fsync`, temporary files. A write, an append, a rename and a directory
  creation are single steps that succeed.
- The JSON text of records and events, and the checks on their fields: a line is blank, bad, or a record or event.
- Time stamps as strings (an instant is a number), redaction of secrets, frame listeners, HTTP counters.
- Lengths in UTF-16 code units: a string is a sequence of characters, and a file is a sequence of bytes.
- RunManagement.RunManager: one workspace; several are independent but for the shared cursor cache.
- RunManagement.RunManager.Update: terminal states absorb for one manager; between processes the record is read outside
  the lease. `active` may keep a run that was started when it was already terminal.
- RunHistory.TerminalForGood: new ids are assumed, as they are random in the code.
- RunManagement.RunManager.CompactLedger: removing an event log always succeeds; the check against path separators never
  applies to an id the ledger accepts.
- Sequence numbers beyond 2^53 - 1: that they are rounded. That such an event is not read is part of the model.
- Bytes that are not UTF-8, which a rewrite of the file replaces; the limit on the size of a file that is read whole.
- LedgerProcesses.RunsAreNeverLost: the ledger lease itself is given: leased steps are atomic. A last line of white space
  without a newline, which no process writes.
- RunManagement.RunManager: a ledger whose last record lacks its newline: the class takes every line to have one.
  `LedgerProcesses.JoiningLosesBoth` says what an append makes of such a ledger.
- Coordination.ServerCoordinator: the resolution of the repository key, the cross-process leases, the guard and its
  preemption are given; a refused idle attempt is one step, as it never gives up control.
- SessionDispatch.SessionDispatchRegistry: entries are values in a sequence that stands for the insertion-ordered map; no
  timer outlives its entry, so sharing of the entry object does not show. A session closed while a run uses it, and the
  mixed reference counts after re-attaching, are kept out of the claims about use.
- SessionDispatch.SessionDispatchRegistry.RunAll: callbacks that throw are caught, and so end like the others.
- Worktrees.WorktreeManager: the merge operation, and listing status; the lock of one worktree's operations is given, and
  so is the session guard of a workspace that is closed.
- ScheduleLease.MutualExclusion: reading the owner, checking it is alive and renaming are one step, as are reading the age
  of the recovery directory and renaming it; write errors are not modelled.
- AgentValues.ValuesRoundTrip: blocks, lists and maps under form keys; a `permissionMode` of `plan`, which overrides the
  mode; escapes of half a surrogate pair.
- AgentDefinitions.RoundTrip: comments attached to form keys, which are dropped when the key is rewritten; the limits on
  the lengths of names and on `max-turns`.
- RegexScanner.ScannerDecides: named back-references, which the scanner does not look for, and expressions that are not
  written by the printer (unbalanced parentheses, quantifiers on nothing).
- ShellQuoting.CommandLineIsRead: expansion, double quotes and redirection make the lexer refuse. Aliases, and what shells
  add to the standard, such as history and brace expansion, are not considered.
- Schedule.NextCronRunIsFirstMatch: time zones and changes of the clock: what the local clock shows is any function of the
  instant.
- FileWalk.FileLister: files do not change during one walk; yielding to the event loop.
- Content search, the argument parsers, the permission rules, the desktop and web front ends, the agent loop: they rest on
  other packages or would add only simple members.
