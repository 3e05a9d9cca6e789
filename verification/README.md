# A small Unix shell, modelled in Dafny

This project models the core of a small interactive shell written in C. Its
five pieces are modelled as pure functions on immutable values:

- **Command-line parser** (`src/shell.c`). `tokenize` is modelled as
  `Tokenizer.Tokenize`. It splits a line at spaces and tabs and keeps at most
  10 tokens of at most 29 characters each. `parse_segments` is modelled as
  `Parser.ParseLine`. It cuts the line at `|`, trims each segment, splits it
  into words with `<` and `>` standing alone, collects the redirection
  targets, and re-tokenizes the remaining words.
- **Pipeline wiring** (`src/execute.c`). `execute_pipeline` is modelled as
  `Executor.ExecutePipeline`. It returns the plan the parent carries out:
  - the pipes it creates;
  - the children it forks, each with its standard input and output and what
    it runs;
  - the pipes it closes;
  - whether it then registers a background job or waits.

  The outcomes of `pipe()` and `fork()` are parameters.
- **Job table** (`src/jobs.c`). The table is a sequence of 128 slots, where
  pid 0 marks a free slot. `add_job` fills the first free slot and
  `remove_job` clears the first slot with a matching pid. `print_jobs` is
  modelled as the ordered list of occupied slots. Reaping is modelled as
  `remove_job` for each reported pid.
- **History ring** (`src/history.c`). The ring holds 50 slots, a saturating
  count and the index of the next slot. `print_history` is modelled as the
  ordered listing. Lookup is 1-based, counted from the oldest entry.
- **Variables** (`src/vars.c`). The store is an association list with the
  newest name first. It supports `set_var`, `get_var` and `print_vars` (as
  an ordered list), and the per-argument expansion of `$NAME` and `${NAME}`.

**C to Dafny mapping.**
- A C `NULL` is `Wrappers.Option`'s `None`.
- C strings are `string`, and each model `char` stands for one C byte.
  The byte limits of the tokenizer (29 bytes per token, 511 in the line
  buffer) therefore count characters of the model.
- The limits of `include/shell.h` live in `Limits`: `MAX_LEN` 512,
  `MAXARGS` 10, `ARGLEN` 30 and `HISTORY_SIZE` 50.

**Shared splitting modules.** Both are generic and proved once.
- `FieldSplit` splits at a set of separators and collapses runs of them.
  `strtok_r` with `"|"` uses it, and so does the tokenizer's scan.
- `WordSplit` adds operator characters that form words of their own. The
  segment scanner uses it.

**Edge cases the model keeps.**
- `tokenize` strips only one trailing newline. So a segment whose only
  non-redirection word is a lone newline character gets a NULL argument
  vector, although a word was kept. `Parser.ArgvMissing` states this exactly.
- `set_var`'s comment says names are letters, digits and `_`, but the code
  checks only the first character. `Vars.NameAccepted` follows the code.
- `init_history` empties the slots but leaves the count and the next index
  as they were. `CommandHistory.InitEmptiesEntries` states the effect.

## Model

| member | source | states |
|---|---|---|
| Tokenizer.StripNewline | src/shell.c:36-37 | exactly one trailing newline is removed; a line without one is kept whole |
| Tokenizer.Clip | src/shell.c:54-64 | at most k tokens are kept, in order, each cut to ArgLen - 1 = 29 characters |
| Tokenizer.ScanTokens | src/shell.c:54-64 | the scan from a position yields at most MaxArgs - argnum tokens, each non-empty, shorter than ArgLen and free of spaces and tabs, and at least one while a non-blank character and room remain |
| Tokenizer.Tokenize | src/shell.c:33-73 | NULL for a NULL line or one that is blank once its trailing newline is gone; otherwise 1 to 10 tokens, each 1 to 29 characters with no space or tab |
| Tokenizer.ScanTokensClip | src/shell.c:54-64 | the scanning loop produces exactly the first MaxArgs - argnum blank-separated fields of the rest of the line, each truncated |
| Tokenizer.TruncateSlice | src/shell.c:59-62 | the clamp of the word length to ArgLen - 1 is a truncation of the word |
| Tokenizer.TokenizeWords | src/shell.c:33-73 | tokenize is NULL on a blank line, else the first 10 fields of the newline-stripped line in their original order, each truncated to 29 characters; further words are dropped |
| Tokenizer.TokenizeJoin | src/shell.c:54-64 | round trip: up to 10 blank-free words of 1 to 29 characters, joined with single spaces, tokenize back to the same words |
| FieldSplit.FieldsShape | src/shell.c:108-121 | every field is non-empty and holds no separator |
| FieldSplit.FieldsCount | src/shell.c:108-124 | the number of fields is the number of maximal runs of non-separator characters |
| FieldSplit.FieldsConcat | src/shell.c:108-121 | the fields hold every non-separator character of the line, in order |
| FieldSplit.FieldsJoin | src/shell.c:108-121 | round trip: separator-free non-empty words joined with one separator split back into those words |
| FieldSplit.FieldsAppend | src/shell.c:108-121 | a line cut next to a separator splits as its two halves do |
| FieldSplit.SeparatorRunsCollapse | src/shell.c:108-121 | a leading, trailing or doubled separator adds no field |
| Parser.Trim | src/shell.c:111-113 | the trimmed segment neither starts nor ends with a space or tab, and is empty exactly when the segment is all blanks |
| Parser.TrimOnlyEnds | src/shell.c:111-113 | trimming removes only blanks at the two ends: the result is a slice with nothing but blanks on either side |
| Parser.SegmentWordsShape | src/shell.c:142-154 | every word is "<", ">" or a non-empty run with no space, tab, "<" or ">" |
| Parser.SegmentWordsConcat | src/shell.c:142-154 | the words hold exactly the non-blank characters of the segment, in order |
| Parser.OperatorStandsAlone | src/shell.c:145-147 | a "<" or ">" forms a word of its own wherever it stands, with or without blanks around it |
| Parser.SegmentWordsJoin | src/shell.c:142-154 | round trip: well-shaped words joined with single spaces split back into the same words |
| Parser.SegmentWordsTrim | src/shell.c:111-113 | trimming a segment does not change its words |
| Parser.ScanRedirects | src/shell.c:157-175 | no kept word is an operator, nothing is gained, and each target stays NULL when its operator does not occur |
| Parser.LastInputWins | src/shell.c:161-164 | a "<" followed by a word sets the input target to that word, overriding an earlier one, and keeps neither word |
| Parser.LastOutputWins | src/shell.c:165-168 | a ">" followed by a word sets the output target to that word, overriding an earlier one, and keeps neither word |
| Parser.WordIsKept | src/shell.c:169-174 | a word that is not an operator is appended to the kept words and changes no target |
| Parser.DanglingOperatorIgnored | src/shell.c:160-168 | an operator with no word after it changes nothing |
| Parser.KeptWordsPlain | src/shell.c:160-174 | every kept word is an ordinary word, never an operator |
| Parser.ParseSegment | src/shell.c:133-182 | a stage's argument vector has 1 to 10 blank-free arguments of 1 to 29 characters, and a segment without "<" (">") has no input (output) file |
| Parser.ArgvMissing | src/shell.c:177-182 | the argument vector is NULL exactly when no word was kept or the only kept word is a lone newline |
| Parser.ArgvFromKeptWords | src/shell.c:169-182 | when the kept words fit the command buffer and do not end in a newline, the argument vector is the first 10 of them, in order, each truncated to 29 characters |
| Parser.ParseLine | src/shell.c:94-196 | a NULL line gives no stages; otherwise there is one stage per maximal run of characters other than the pipe character, each parsed from its trimmed segment |
| Parser.PipesCollapse | src/shell.c:108-124 | leading, trailing and doubled pipe characters create no segment, and a line of only pipe characters has none |
| Parser.BlankLine | src/shell.c:108-124 | a non-empty line of blanks gives one stage with no command and no redirection |
| Executor.StageChild | src/execute.c:59-86 | child i reads pipe i - 1 exactly when i > 0, and reads stage 0's input file exactly when it is child 0 and that file is given; it writes pipe i exactly when it is not last, and writes the last stage's output file exactly when it is last and that file is given; it closes all n - 1 pipes; it exits 0 exactly when its argument vector is missing or empty, and otherwise runs execvp on that vector |
| Executor.ExecutePipeline | src/execute.c:13-108 | the status is 0 or -1; ncmds <= 0 returns -1 and does nothing; a single empty command returns 0 and forks nothing; a failed run registers and waits for nothing |
| Executor.ForkFromPlan | src/execute.c:56-90 | the children are forked in stage order with the pids fork returned; all of them when every fork succeeds, otherwise up to the first failed fork |
| Executor.ChildrenFollowStages | src/execute.c:56-90 | every child of a run is the plan of its stage, and a run that returns 0 forks every stage, except a single command with nothing to run |
| Executor.PipesClosedOnSuccess | src/execute.c:48-93 | a successful run creates ncmds - 1 pipes for a pipeline (none for a single command) and closes all of them |
| Executor.FailsOnlyOnSystemError | src/execute.c:13-108 | a run returns -1 exactly when a pipe() or fork() it makes fails; foreground or background, it returns 0 otherwise |
| Executor.PipesJoinNeighbours | src/execute.c:61-75 | pipe k is written by child k only and read by child k + 1 only; only child 0 reads a file and only the last child writes one |
| Executor.EmptyStageExits | src/execute.c:82-83 | an empty stage inside a pipeline is still forked and wired, and its child exits 0 |
| Executor.BackgroundJobIsFirstChild | src/execute.c:38-106 | in the background the job registered is the first child's pid, labelled with the command line, else argv[0] for one command or "(pipeline)" for several; in the foreground the parent waits for that child or for every child |
| Executor.SingleCommandWiring | src/execute.c:15-36 | a single command is forked once, with no pipe, with its own input and output files and its own argument vector |
| Executor.ForkFailureLeaksPipe | src/execute.c:56-58 | as written, two stages whose second fork fails leave one pipe made and none closed |
| Executor.ErrorPathsLeak | src/execute.c:49-58 | as written, no error return closes a pipe |
| Executor.ExecutePipelineReleasing | src/execute.c:49-58 | corrected: every pipe made is closed, and the run is otherwise the same as the code's |
| Executor.LaunchInBackground | src/execute.c:38-99 | when there is a command and every needed pipe() and fork() succeeds, the job table becomes add_job's result for the first child's pid under the command line (else argv[0] for one command, "(pipeline)" for several); otherwise the table is unchanged; the run is the corrected background run |
| Executor.BackgroundFinish | src/execute.c:38-99 | a background run registers the first child's pid under that label exactly when there is a command and every needed pipe() and fork() succeeds |
| Executor.LaunchedJobListed | src/execute.c:95-99 | after a successful background launch into a table with a free slot, the first child's pid is listed as a job under its label |
| Jobs.InitJobsTable | src/jobs.c:13-15 | 128 slots, all free |
| Jobs.AddJob | src/jobs.c:17-28 | pid <= 0 leaves the table alone; a full table is reported and left alone; otherwise the lowest free slot gets the pid and the command line ("" for NULL) and no other slot changes |
| Jobs.RemoveJob | src/jobs.c:30-39 | only the first slot holding the pid is freed; an absent pid changes nothing |
| Jobs.OccupiedFrom | src/jobs.c:43-48 | the occupied slots in strictly increasing order, all of them |
| Jobs.ListJobs | src/jobs.c:41-50 | one entry per occupied slot, in slot order, with its pid and command |
| Jobs.ListEmpty | src/jobs.c:41-50 | the listing is empty ("No background jobs.") exactly when no slot is occupied |
| Jobs.InitListsNothing | src/jobs.c:13-15 | a fresh table lists no job |
| Jobs.ListedIffHeld | src/jobs.c:41-50 | a non-zero pid is listed exactly when some slot holds it |
| Jobs.RemoveUndoesAdd | src/jobs.c:17-39 | removing a pid just added, when it was not held before, restores the table |
| Jobs.AddedJobListed | src/jobs.c:17-50 | a job added while a slot is free is listed with its command |
| Jobs.AddOccupies | src/jobs.c:19-24 | a successful add occupies exactly one slot that was free |
| Jobs.DuplicatePidAccepted | src/jobs.c:19-24 | a pid already held is added again, so two slots hold it |
| Jobs.FullTableRefuses | src/jobs.c:19-27 | when all 128 slots are occupied the add is refused and nothing changes |
| Jobs.ReapClears | src/jobs.c:52-70 | when no pid is held twice, after reaping no reported pid is held, slots of unreported pids are untouched, and pids stay unique |
| Jobs.ReapUntouched | src/jobs.c:52-70 | in any table, reaping leaves every slot whose pid was not reported as it was |
| Jobs.ReapDuplicateStays | src/jobs.c:30-70 | a pid held by two slots and reported once stays in the table: one report frees one slot |
| Jobs.RemoveKeepsUnique | src/jobs.c:30-39 | removal keeps pids unique and, for a non-zero pid, leaves it held nowhere |
| Jobs.ReapNeverAdds | src/jobs.c:52-70 | reaping never makes a pid appear |
| CommandHistory.InitHistory | src/history.c:8-10 | every slot is emptied; the count and next index are kept |
| CommandHistory.InitEmptiesEntries | src/history.c:8-10 | after init_history on a non-empty history, the listing keeps its length but every entry is empty and no number finds a command |
| CommandHistory.FreeHistory | src/history.c:12-19 | every slot is emptied and both counters are back to 0 |
| CommandHistory.FreeForgetsAll | src/history.c:12-19 | after free_history nothing is listed and no number finds a command |
| CommandHistory.AddHistory | src/history.c:21-30 | a NULL or empty command changes nothing; otherwise it fills slot next, leaves the other slots alone, next advances modulo 50 and the count grows up to 50 |
| CommandHistory.Start | src/history.c:38 | the slot of the oldest entry lies count slots before next on the ring |
| CommandHistory.ListHistory | src/history.c:33-43 | the listing has count entries (none: "No history.") |
| CommandHistory.GetHistory | src/history.c:46-52 | a number outside 1..count finds nothing |
| CommandHistory.GetIsListed | src/history.c:38-51 | lookup of number n is the n-th entry of the listing |
| CommandHistory.GetNewest | src/history.c:21-51 | right after adding a command, looking up number count returns it |
| CommandHistory.ListAfterAdd | src/history.c:21-43 | adding appends to the listing; once 50 entries are stored, the oldest drops out |
| CommandHistory.ListIsLastAccepted | src/history.c:21-43 | from the start state, the listing is always the last min(k, 50) of the k accepted commands, oldest first |
| CommandHistory.GetNumbered | src/history.c:46-52 | with at most 50 accepted commands, number n is the n-th of them |
| Vars.SetVar | src/vars.c:12-33 | a NULL or rejected name changes nothing; a new name is put first with its value ("" for NULL); for an existing name, the first entry with that name gets the new value ("" for NULL) and no other entry changes |
| Vars.GetVar | src/vars.c:35-45 | NULL for a NULL name; a value exactly when the name is in the store, and then the value of an entry with that name |
| Vars.PrintVars | src/vars.c:47-54 | one line per entry (its "name=value" form is stated by Vars.ListingAfterSet and Vars.ListingShowsValues) |
| Vars.ReferencedName | src/vars.c:74-88 | an argument not starting with "$" names no variable; "$NAME" names everything after the "$" |
| Vars.ExpandArgv | src/vars.c:70-99 | NULL stays NULL; the argument count never changes; arguments that name no variable are unchanged |
| Vars.SetKeepsUnique | src/vars.c:17-32 | setting keeps the names unique |
| Vars.GetIsMapLookup | src/vars.c:35-45 | with unique names, get_var reads the finite map the store denotes |
| Vars.SetIsMapUpdate | src/vars.c:12-33 | with unique names, set_var of an accepted name updates that map at the name |
| Vars.GetAfterSet | src/vars.c:12-45 | get_var returns the value last set for the name, and setting one name leaves every other name's value alone |
| Vars.RejectedNameUnset | src/vars.c:13-15 | a name whose first character is not a letter or "_" stays undefined |
| Vars.ListingAfterSet | src/vars.c:17-54 | a new name's "name=value" line goes to the head of the listing; setting an existing name replaces the line of its first entry by "name=value" and leaves every other line in place |
| Vars.ListingShowsValues | src/vars.c:35-54 | every defined name is listed as a "name=value" line with the value get_var returns |
| Vars.ExpandPlain | src/vars.c:86-97 | "$NAME" expands to the value last set for NAME |
| Vars.ExpandBraced | src/vars.c:77-84 | "${NAME}rest" expands to NAME's value, with rest dropped |
| Vars.ExpandUnclosed | src/vars.c:79-80 | "${..." with no closing "}" is left as it is |
| Vars.ExpandUndefined | src/vars.c:90-97 | an argument naming an undefined variable expands to "" |

## Left out

- `read_cmd` and `init_readline` (src/shell.c:9-30): terminal and readline input.
- `handle_builtin` (src/shell.c:78-92) and `src/main.c`: they print, change
  directory and exit, and hold the read-eval loop.
- The operating-system effects of `execute_pipeline`. `fork`, `pipe`,
  `open`, `dup2`, `execvp`, `wait` and `waitpid` become the plan that
  `Executor.Run` records. The outcomes of `pipe()` and `fork()` are
  parameters. What a child does when `open` or `execvp` fails (it prints and
  exits 1) happens after the plan and is not modelled.
- The status decoding and messages of `reap_background_jobs`
  (src/jobs.c:52-70). The reaping itself is `Jobs.ReapJobs`: `remove_job` for
  each pid that `waitpid` reports, with that list as a parameter.
- Memory ownership: `malloc`, `free` and `strdup`. This includes their
  failures and the overwritten `infiles[i]` at src/shell.c:163.
- `free_vars` (src/vars.c:56-66): it only releases memory.
- `printf` formatting. The listing functions return ordered sequences, and
  an empty sequence stands for the "No background jobs.", "No history." and
  "No variables defined." lines.
- The NULL terminator of the `tokenize` result is the length of the
  sequence.
- `isalpha` depends on the locale; the model takes ASCII letters.
- C strings cannot hold a NUL character. Model strings can, and nothing
  depends on it.
- Parser.ParseSegment: requires at most 20 words in the segment, because the
  `words[MAXARGS + 10]` array (src/shell.c:138) overflows beyond that;
  `Parser.ParseLine` requires the same of every segment.
- Executor.ExecutePipeline: requires at least ncmds stages and fork
  outcomes, as the C code reads `ncmds` entries of its arrays. A NULL
  `infiles` or `outfiles` array is the same as one that holds only NULL.

## Findings

| source | as written | input that shows it | evidently intended | confidence | as-written member | corrected member |
|---|---|---|---|---|---|---|
| src/execute.c:49-58 | when `pipe()` or `fork()` fails, the function returns -1 at once, leaving open every pipe it has created | ncmds = 2, the pipe is created, the first fork succeeds and the second fails: one pipe is made, none is closed | close every pipe created before returning -1 | not executed | Executor.ForkFailureLeaksPipe | Executor.ExecutePipelineReleasing |
