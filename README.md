# MO9 log processing, modelled in Dafny

MO9 is a Discord bot for the game Zeepkist. When a player posts a `Player*.log`
file, the bot reads the log and replies with three things:

- the mods the log shows as loaded, split into installed mods and mods known to
  be incompatible;
- the number of exceptions in the log, followed by one message for each of the
  first five exceptions, cut into chunks when an exception is longer than a
  message may be (the `parse` command sends one for every exception);
- a reminder to remove mods, when any mod loader activity was seen.

The `parse` command does the same for an attachment given to the command,
except that it sends every exception and no mods reminder. A
small table records which forum threads the bot has already processed.

The model is made of these modules:

- `Text`: the .NET string operations the code relies on, stated over `string`
  with ordinal comparison. These are `IndexOf`/`Contains`, `StartsWith`,
  `EndsWith`, `Split`, `Trim`, `AppendLine` and decimal rendering.
- `LogScan`: the specification of the `ProcessLog` loop. `Facts` reads one line
  the way the loop body does. `Step` is the loop's two-state automaton (capturing
  an exception or not), and `Run` is `Step` folded over the lines.
- `ModClassifier`: the incompatible-mods filter, LINQ `Except`, and `OrderBy`
  as an ordinal insertion sort.
- `Chunker`: the greedy line packing of `SendSegmentedErrors`.
- `LogProcessor`: the imperative code.
  - `GetAttachment`, `ProcessLog`, `WriteBullets`, `SendErrors` and
    `SendSegmentedErrors` are methods with loops, each proved against the
    functions above. `AddModsField` and `AddOutdatedModsField` are methods
    that reach a loop through `WriteBullets`. The exceptions field has no loop
    and is the function `ErrorsBody`.
  - The body of the `ProcessLog` loop is the method `ScanLine`, with the same
    statements in the same order. The loop calls it once per line.
  - `Process` ties them together. It takes the download as a parameter.
- `Commands`: the `parse` command. Its copies of `ProcessLog` and of the chunker
  are statement for statement those of `LogProcessor`. The model runs the shared
  methods and proves that its own reference list equals the processor's. Its
  `SendErrors` has its own loop, with no cap on the number of errors.
- `Threads`: `ThreadRepository` as a class whose `threads` field is a
  `map<nat, bool>`, with pure map functions specifying each mutator.

`nl` stands for `Environment.NewLine` throughout. The scan and the chunker both
append it, and the chunker splits error text at it.

When a line would push the chunk buffer to 2000 characters or more, the code
seals the buffer, even an empty one, and drops that line instead of starting
the next chunk with it. `Chunker.Pack` models the code, and
`Chunker.LineAfterFullBufferIsLost` and `Chunker.EmptyChunkNeedsOversizedLine`
state the consequences.

## Model

| member | source | states |
|---|---|---|
| Text.FindFrom | LogProcessor.cs:202 | the index found is an occurrence of the pattern, at or after the start, with no occurrence before it; none is found only when there is no occurrence at all |
| Text.FindIsFirstOccurrence | LogProcessor.cs:209 | an occurrence with no earlier one is the index `IndexOf` reports |
| Text.Contains | LogProcessor.cs:202 | ordinal `Contains` as a successful first-occurrence search; characterised by the `ensures` of `FindFrom`, `FindIsFirstOccurrence`, `ContainsPrefixOfPattern` and `ContainsSuffixOfPattern` |
| Text.StartsWith | LogProcessor.cs:142 | ordinal `StartsWith`: the first characters of the name are the prefix; used, through `IsPlayerLog`, in the `ensures` of `FirstPlayerLog` |
| Text.EndsWith | LogProcessor.cs:145 | ordinal `EndsWith`: the last characters of the name are the suffix; used, through `IsPlayerLog`, in the `ensures` of `FirstPlayerLog`, and in those of `ParseCommand` |
| Text.ContainsPrefixOfPattern | LogProcessor.cs:202-207 | a string containing `p + q` contains `p` (so a loading line contains the mod loader marker) |
| Text.ContainsSuffixOfPattern | LogProcessor.cs:77-81 | a string containing `p + q` contains `q` (so content with `"\r\n"` contains `'\n'`) |
| Text.Split | LogProcessor.cs:79-83 | at least one piece; more than one piece exactly when the separator occurs |
| Text.SplitJoin | LogProcessor.cs:79-83 | joining the pieces with the separator gives the input back, and no piece contains the separator |
| Text.TrimRemovesEndSpace | LogProcessor.cs:200 | `Trim` removes only white space, only at the two ends, and leaves neither end white |
| Text.Trim | LogProcessor.cs:200 | the trimmed line is no longer than the line |
| Text.Decimal | LogProcessor.cs:311 | the rendering of a count is non-empty and all digits, and has two or more digits exactly when the count is 10 or more; `DecimalValue` states that the digits spell the count |
| Text.DecimalValue | LogProcessor.cs:311 | the digits of the rendering, read most significant first, denote the count, and a count of 10 or more has no leading zero |
| Text.SubsequenceOfTail | LogProcessor.cs:238 | a subsequence of the tail of a list is a subsequence of the list |
| Text.DropHead | LogProcessor.cs:238 | dropping the first element of a subsequence leaves a subsequence |
| LogScan.Facts | LogProcessor.cs:200-222 | what the loop body reads from one line: its trimmed text, the mod loader marker, the announced mod, the leading space and the exception marker; characterised by `LoadingLineShowsModLoader` and `ModNameOfLoadingLine` |
| LogScan.ModName | LogProcessor.cs:209 | the text after the first loading marker, cut at the next loading marker or the next `]`, whichever comes first; characterised by `ModNameOfLoadingLine` and `ModNameStopsAtSecondMarker` |
| LogScan.Step | LogProcessor.cs:200-230 | one pass of the loop body: the mod loader flag, the mods list, closing a block on an unindented or empty line before the exception test, and appending to a builder that is never cleared; characterised by `ContinueRun`, `BlockIsRecorded`, `CloseThenReopen` and `NoMarkerNoCapture` |
| LogScan.Finish | LogProcessor.cs:233-236 | a block still open after the last line is reported as the whole captured text; characterised by `ErrorsGrow` |
| LogScan.IndentedBySpace | LogProcessor.cs:215 | `line.StartsWith(' ')` on the untrimmed line, which is false for an empty line; characterised by `ContinueRun`, `BlockIsRecorded` and `CloseThenReopen` |
| LogScan.Run | LogProcessor.cs:198-231 | the loop's state after the first `n` lines, as `Step` folded over them; characterised by `RunHasModsIff`, `RunModsAreLoaded`, `RunErrorsGrow` and the loop invariant of `ProcessLog` |
| LogScan.ScanLines | LogProcessor.cs:198-231 | the loop's state after every line; characterised by `HasModsIff`, `ModsAreLoaded` and `ErrorsGrow` |
| LogScan.Parse | LogProcessor.cs:198-236 | the loop followed by the final flush; characterised by `HasModsIff`, `ModsAreLoaded`, `ModsImplyHasMods`, `ErrorsGrow` and `FirstBlockIsRecorded` |
| LogScan.HasModsIff | LogProcessor.cs:200-205 | `hasMods` holds exactly when some trimmed line contains `BepInEx]` |
| LogScan.RunHasModsIff | LogProcessor.cs:198-205 | after n lines, `hasMods` holds exactly when one of those lines shows the mod loader |
| LogScan.ModsAreLoaded | LogProcessor.cs:207-211 | the mods list is the names announced by the loading lines, in line order, duplicates kept; a line adds exactly one name exactly when its trimmed text contains the loading marker |
| LogScan.RunModsAreLoaded | LogProcessor.cs:207-211 | after n lines, the mods are those announced by those lines |
| LogScan.LoadedSnoc | LogProcessor.cs:210 | the names announced by one more line come after the earlier ones |
| LogScan.AppendedSnoc | LogProcessor.cs:230 | the text appended for one more line comes after the earlier text |
| LogScan.FactsOfSlice | LogProcessor.cs:198-200 | reading a slice of the lines gives the same slice of line facts |
| LogScan.AppendedIsAppendLines | LogProcessor.cs:230 | appending the trimmed lines to the builder one by one gives each trimmed line followed by the newline |
| LogScan.LoadingLineShowsModLoader | LogProcessor.cs:202-207 | a line that announces a mod also shows mod loader activity |
| LogScan.RunModsImplyHasMods | LogProcessor.cs:202-211 | while every loading line shows the mod loader, a non-empty mods list implies `hasMods` |
| LogScan.ModsImplyHasMods | LogProcessor.cs:202-211 | a non-empty mods list implies `hasMods` |
| LogScan.FirstLoadingMarker | LogProcessor.cs:209 | before a text without `BepInEx]`, the first loading marker is the one right after that text |
| LogScan.NoMarkerInName | LogProcessor.cs:209 | a name without `]` that does not end in `BepInEx` contains no loading marker up to its closing bracket |
| LogScan.SplitAtFirst | LogProcessor.cs:209 | the first split piece ends at the first separator, and the other pieces split the rest |
| LogScan.NamePieceKeepsBracket | LogProcessor.cs:209 | the piece after the marker still begins with the name and its `]` |
| LogScan.CutAtBracket | LogProcessor.cs:209 | cutting before the first `]` returns the name |
| LogScan.ModNameOfLoadingLine | LogProcessor.cs:207-210 | for `p + "BepInEx] Loading [" + x + "]" + q`, where `p` has no `BepInEx]` and `x` has no `]` and does not end in `BepInEx`, the extracted mod name is `x` (so `BepInExTools` is extracted whole) |
| LogScan.ModNameStopsAtSecondMarker | LogProcessor.cs:209 | a second loading marker before any `]` also ends the name: on `BepInEx] Loading [` + `x` + `BepInEx] Loading [` + `q`, with `x` free of `BepInEx]` and `]`, the extracted name is `x` |
| LogScan.RunErrorsGrow | LogProcessor.cs:213-230 | every recorded error is a prefix of every later one and of the text captured so far |
| LogScan.ErrorsExtend | LogProcessor.cs:217 | errors once recorded stay recorded: earlier error lists are prefixes of later ones |
| LogScan.ErrorsGrow | LogProcessor.cs:196-236 | the builder is never cleared, so each reported error is a prefix of the next; a block still open at the end is reported as the whole captured text |
| LogScan.CloseThenReopen | LogProcessor.cs:213-230 | an unindented line with `Exception:` met while capturing records the block and restarts capture with itself appended |
| LogScan.ContinueRun | LogProcessor.cs:213-230 | space-indented lines inside a block are appended trimmed, one after the other, and record nothing |
| LogScan.BlockIsRecorded | LogProcessor.cs:213-230 | a block opened by an exception line and closed by an unindented line without a marker is recorded as the earlier capture plus exactly its own trimmed lines |
| LogScan.NoMarkerNoCapture | LogProcessor.cs:222-230 | without an exception marker nothing is captured and no error is recorded |
| LogScan.FirstBlockOfRun | LogProcessor.cs:213-236 | the first block of a run of line facts is the first reported error |
| LogScan.FirstBlockIsRecorded | LogProcessor.cs:184-236 | the first exception block of a log, closed by an unindented line without a marker, is the first reported error and holds exactly its trimmed lines, each followed by the newline |
| ModClassifier.AnyContained | LogProcessor.cs:238 | `outdatedMods.Any(x.Contains)` holds exactly when some reference entry occurs in the name |
| ModClassifier.Outdated | LogProcessor.cs:238 | the outdated mods are exactly the mods containing a reference entry, kept in log order |
| ModClassifier.OutdatedOfConcat | LogProcessor.cs:238 | the filter distributes over concatenation of mod lists |
| ModClassifier.Except | LogProcessor.cs:252 | LINQ `Except`: the distinct mods of the first list that are not in the second, in first-seen order; characterised by `ExceptFrom` and `CurrentAndOutdatedPartition` |
| ModClassifier.ExceptFrom | LogProcessor.cs:252 | the result holds exactly the elements not yet seen, each once |
| ModClassifier.CurrentAndOutdatedPartition | LogProcessor.cs:238-252 | installed and incompatible mods share no name and together cover every loaded mod; a mod is installed exactly when it matches no reference entry; installed names are distinct |
| ModClassifier.OrdinalTotal | LogProcessor.cs:252 | any two names are ordered one way or the other |
| ModClassifier.OrdinalTransitive | LogProcessor.cs:252 | the ordinal order is transitive |
| ModClassifier.Insert | LogProcessor.cs:252 | inserting adds exactly the one element |
| ModClassifier.InsertSorted | LogProcessor.cs:252 | inserting into a sorted list keeps it sorted |
| ModClassifier.Sort | LogProcessor.cs:252 | the sorted list is a permutation of its input |
| ModClassifier.SortSorted | LogProcessor.cs:252 | the sorted list is in ordinal order |
| Chunker.Pack | LogProcessor.cs:325-341 | the greedy packing loop: a line fits when the buffer length plus its untrimmed length is under 2000, and a line that does not fit seals the buffer and is dropped; characterised by `ChunkBound`, `PackKeepsText`, `ChunksAreWholeLines`, `FitsInOneChunk` and `LineAfterFullBufferIsLost` |
| Chunker.Chunks | LogProcessor.cs:319-341 | the error split at the newline and packed from an empty buffer; characterised by `ChunkBound`, `PackKeepsText`, `ChunksOfErrorAreWholeLines`, `SomeChunk` and the `ensures` of `SendSegmentedErrors` |
| Text.AppendLines | LogProcessor.cs:329 | what `AppendLine(line.Trim())` writes for each line in turn; characterised by `AppendedIsAppendLines`, `PackKeepsText` and `ChunksAreWholeLines` |
| Chunker.ChunkBound | LogProcessor.cs:325-341 | every chunk is shorter than 2000 plus the newline, that is at most 1999 characters and a newline |
| Chunker.PackKeepsText | LogProcessor.cs:325-341 | the chunks read in order are exactly the kept lines, trimmed, each followed by the newline: nothing is added or reordered |
| Chunker.ChunksAreWholeLines | LogProcessor.cs:325-341 | from a buffer holding lines `s` to `t`, every chunk is a run of consecutive lines, trimmed, each followed by the newline |
| Chunker.ChunksOfErrorAreWholeLines | LogProcessor.cs:319-341 | every chunk of an error is a run of its consecutive lines: no line is cut across two chunks |
| Chunker.KeptIsSubsequence | LogProcessor.cs:325-336 | the kept lines are the error's lines with some left out, in order |
| Chunker.EmptyChunkNeedsOversizedLine | LogProcessor.cs:327-334 | an empty chunk is only emitted because of a line of 2000 characters or more |
| Chunker.SomeChunk | LogProcessor.cs:325-341 | an error with at least one line gives at least one chunk |
| Chunker.FitsInOneChunk | LogProcessor.cs:325-341 | lines that together fit under the limit all go into a single chunk, and no chunk is made when they are empty |
| Chunker.LineAfterFullBufferIsLost | LogProcessor.cs:327-334 | whatever lines follow, a line that arrives when the buffer is too full seals the buffer, appears in no chunk, and packing goes on from an empty buffer |
| LogProcessor.FirstPlayerLog | LogProcessor.cs:135-152 | no attachment is chosen exactly when none is named `Player*.log`; otherwise the chosen one is such an attachment with none before it |
| LogProcessor.IsPlayerLog | LogProcessor.cs:139-146 | a non-empty file name that starts with `Player` and ends with `.log`; characterised by the `ensures` of `FirstPlayerLog` and `GetAttachment` |
| LogProcessor.GetAttachment | LogProcessor.cs:135-152 | the loop returns the first attachment with a non-empty name starting with `Player` and ending with `.log` |
| LogProcessor.SplitContent | LogProcessor.cs:69-89 | empty content is refused; content without `'\n'` is refused; otherwise at least two lines, which joined with the separator (`"\r\n"` if it occurs, else `"\n"`) give the content back and contain no separator |
| LogProcessor.Separator | LogProcessor.cs:77-84 | `"\r\n"` when the content contains it, else `"\n"`; characterised by the `ensures` of `SplitContent` (round trip, and no piece contains the separator) |
| LogProcessor.ProcessLog | LogProcessor.cs:184-240 | the loop computes the scan specification over all lines, including the final open block, and the outdated mods are the filter of the mods found |
| LogProcessor.ScanLine | LogProcessor.cs:200-230 | one pass of the loop body moves the scan variables by exactly one scan step of that line |
| LogProcessor.BulletsOfConcat | LogProcessor.cs:252-255 | the bullet list of two lists is their bullet lists one after the other |
| LogProcessor.BulletAt | LogProcessor.cs:252-255 | each name gets its own `- name` line, in list order |
| LogProcessor.ModsFieldLists | LogProcessor.cs:242-263 | with mod loader activity, the installed-mods field is a bullet list of the mods matching no reference entry, each once, in ordinal order |
| LogProcessor.OutdatedFieldLists | LogProcessor.cs:265-288 | the incompatible-mods field lists the outdated mods in ordinal order, duplicates kept, or says none were found |
| LogProcessor.DuplicateInMultiset | LogProcessor.cs:252 | two positions with the same name make it occur twice |
| LogProcessor.DistinctCount | LogProcessor.cs:252 | in a list without repetitions each name occurs at most once |
| LogProcessor.WriteBullets | LogProcessor.cs:252-255 | the loop writes the bullet list of its names |
| LogProcessor.Bullets | LogProcessor.cs:252-255 | one `- name` line per name, in order; characterised by `BulletsOfConcat`, `BulletAt` and the `ensures` of `WriteBullets` |
| LogProcessor.AddModsField | LogProcessor.cs:242-263 | the body is the bullet list of the sorted installed mods, or `No mods found` without mod loader activity |
| LogProcessor.AddOutdatedModsField | LogProcessor.cs:265-288 | the body is the bullet list of the sorted outdated mods, `No incompatible mods found`, or empty with an empty reference list |
| LogProcessor.ModsBody | LogProcessor.cs:249-260 | the installed-mods text: bullets of the sorted mods that are not outdated, or `No mods found`; characterised by `ModsFieldLists` |
| LogProcessor.OutdatedBody | LogProcessor.cs:270-285 | the incompatible-mods text: bullets of the sorted outdated mods, `No incompatible mods found`, or nothing with an empty reference list; characterised by `OutdatedFieldLists` |
| LogProcessor.ErrorMessage | LogProcessor.cs:311 | `Exception {n}`, a newline, and the error inside a code block; characterised by `ShortErrorsOneMessageEach` |
| LogProcessor.ChunkMessage | LogProcessor.cs:348 | `Exception {n} ({j}/{count})`, a newline, and the chunk inside a code block; used by `SendSegmentedErrors`'s contract |
| LogProcessor.ChunkMessages | LogProcessor.cs:343-349 | one message per chunk, numbered `(j/count)` from 1 in chunk order; the `ensures` of `SendSegmentedErrors` |
| LogProcessor.MessagesFor | LogProcessor.cs:304-312 | an error over 2000 characters is sent as its numbered chunk messages, any other as one message; characterised by `MessagesForSome` and `SendError` |
| LogProcessor.AllMessages | LogProcessor.cs:301-314 | the messages of the given errors, numbered from 1, in order; characterised by `AllMessagesPrefix`, `ShortErrorsOneMessageEach` and `CommandExtendsProcessor` |
| LogProcessor.ErrorsBody | LogProcessor.cs:290-297 | the field says `No exceptions found` exactly when there are none |
| LogProcessor.MessagesForSome | LogProcessor.cs:304-313 | every error yields at least one message |
| LogProcessor.ShortErrorsOneMessageEach | LogProcessor.cs:301-313 | when no error exceeds 2000 characters, error i is sent as the single message `Exception {i+1}` around its text |
| LogProcessor.AllMessagesPrefix | LogProcessor.cs:301 | the messages of the first m errors are the first messages of all errors, and there are at least as many messages as errors |
| LogProcessor.SendSegmentedErrors | LogProcessor.cs:317-351 | the loop builds the chunks of the error and sends one message per chunk, numbered `(j/count)` in chunk order; the command's copy of this loop (`Commands/Commands.cs` lines 271-302) is run as this same method |
| LogProcessor.SendError | LogProcessor.cs:303-313 | an error over 2000 characters goes through the chunker, any other as a single message |
| LogProcessor.SendErrors | LogProcessor.cs:299-315 | the messages are those of the first five errors at most, in order |
| LogProcessor.Process | LogProcessor.cs:61-133 | nothing is sent unless a player log is found, downloaded and has line breaks; otherwise the report of the first five errors, and the reminder exactly when mod loader activity was seen |
| LogProcessor.ModsReminder | LogProcessor.cs:123-127 | `<@`, the author's id in decimal (spelled exactly, by `DecimalValue`), then the fixed reminder text; sent exactly when `hasMods`, by the `ensures` of `Process` |
| LogProcessor.ReportOf | LogProcessor.cs:91-119 | the three field bodies and the messages of the first `cap` errors of a parsed log; characterised by `ModsFieldLists`, `OutdatedFieldLists`, `ErrorsBody`, `ShortErrorsOneMessageEach` and the `ensures` of `Process` |
| Commands.SameOutdatedMods | Commands/Commands.cs:22-40 | the command's reference list is the processor's, so both classify every mod alike |
| Commands.ProcessLog | Commands/Commands.cs:141-197 | the command's loop meets the same scan specification and classification as the processor's |
| Commands.SendErrors | Commands/Commands.cs:255-269 | the messages for every error, in order, with no cap |
| Commands.ParseCommand | Commands/Commands.cs:56-139 | each refusal (no filename, not `.log`, download failed, unreadable, empty, no line break) gets its own warning or error, in that order; the report is sent exactly when all checks pass, and it is the processor's report of the same log with every error sent |
| Commands.CommandReport | Commands/Commands.cs:114-136 | the processor's report of the parsed log with no cap on the errors sent; characterised by the `ensures` of `ParseCommand` and by `CommandExtendsProcessor` |
| Commands.CappedMessagesPrefix | LogProcessor.cs:301 | the messages of the first five errors at most begin the messages of all errors, and are all of them exactly when there are at most five errors |
| Commands.CappedReport | LogProcessor.cs:301 | for any reference list, the report sending at most five errors and the one sending every error have the same three fields; the capped messages begin the uncapped ones, and are all of them exactly when there are at most five errors |
| Commands.CommandExtendsProcessor | Commands/Commands.cs:255-269 | for the same parsed log the processor's and the command's reports have the same three fields; the processor's messages begin the command's, and are all of them exactly when there are at most five errors |
| Threads.Added | ThreadRepository.cs:9-15 | adding makes the id known, keeps its processed flag, and changes no other entry |
| Threads.Removed | ThreadRepository.cs:17-20 | removing makes the id unknown and changes no other entry |
| Threads.Marked | ThreadRepository.cs:22-25 | marking makes the id processed, adding it if unknown, and changes no other entry |
| Threads.AddIdempotent | ThreadRepository.cs:9-15 | adding twice is adding once |
| Threads.AddAfterMarkKeepsFlag | ThreadRepository.cs:9-15 | adding a processed thread never resets its flag |
| Threads.RemoveThenAddResets | ThreadRepository.cs:9-20 | a removed thread that is added again starts unprocessed |
| Threads.OtherThreadsUnaffected | ThreadRepository.cs:9-25 | every mutator leaves every other id's presence and flag as they were |
| Threads.ThreadRepository.constructor | ThreadRepository.cs:7 | the table starts empty |
| Threads.ThreadRepository.AddThread | ThreadRepository.cs:9-15 | the new table is `Added` of the old one; the id is known afterwards with its flag unchanged |
| Threads.ThreadRepository.RemoveThread | ThreadRepository.cs:17-20 | the new table is `Removed` of the old one; the id is neither known nor processed |
| Threads.ThreadRepository.MarkThreadProcessed | ThreadRepository.cs:22-25 | the new table is `Marked` of the old one; the id is known and processed |
| Threads.ThreadRepository.HasProcessedThread | ThreadRepository.cs:32-35 | a processed thread is always a known one |
| Threads.ThreadRepository.HasThread | ThreadRepository.cs:27-30 | `ContainsKey` on the table; characterised by the `ensures` of `AddThread` (known after), `RemoveThread` (unknown after), `MarkThreadProcessed` (known after) and `HasProcessedThread` (processed implies known) |

## Left out

- The HTTP download (`GetAttachmentContent`, and the request in `Parse`). It is network I/O. Its outcome is a parameter: `Option<string>` for the processor, `Commands.Download` for the command.
- All Discord REST and feedback-service calls. The model keeps the strings they would send: the three field bodies, the error messages in order, and the mods reminder.
- The embed titles, the author, and the field names. `EmbedBuilder.Build` failing is only logged by the code, so the model does not represent it.
- The async structure and cancellation tokens. The model is sequential.
- `ThreadRepository` is shared between event handlers without locking. The model is sequential only.
- The host, configuration, event responders and their thread filters. They are plumbing around the modelled core.
- `ModClassifier.Sort`: models `OrderBy(x => x)` with ordinal comparison. The code's default comparer is culture-sensitive, and culture collation is not modelled.
- `Text.StartsWith`, `Text.EndsWith`: ordinal comparison. The code's `StartsWith("Player")` and `EndsWith(".log")` are culture-sensitive, and the model does not capture culture rules.
- `Text.Trim`: uses the fixed white-space set of `char.IsWhiteSpace`. Strings are sequences of characters, so UTF-16 surrogate pairs count as one character in lengths.
- `LogProcessor.FirstPlayerLog`: a missing file name is modelled as the empty name, which the code skips in the same way.
- `LogProcessor.Process`: the download of an attachment whose content is missing is the `None` case of the download parameter.
- `Threads.ThreadRepository.HasThread`: its `ensures` clause is left off because it would only restate the dictionary lookup. The properties of the lookup are stated on `Threads.Added`, `Threads.Removed` and `Threads.Marked`.
