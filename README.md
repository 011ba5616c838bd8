# terminal-toolkit: verified models of four script cores

This project models four small pieces of logic from the terminal-toolkit
scripts in Dafny and proves what they do. All four are otherwise wrapped
in I/O. Here each takes its input as a value.

- **Bazel server-log analyzer** (`scripts/bazel/xc_bazel_analyzer.py`),
  modules `BazelCommands` (bazel_command.dfy) and `BazelAnalyzer`
  (bazel_analyzer.dfy).
  - The log lines are cut into one group per command at each
    `registerCommand` line.
  - Each group is parsed into a `BazelCommand` object. Its fields are filled
    in place, as `__init__` does: the entry, the server and target
    arguments, the `--client_env` map, the time stamp and the "Caused by:"
    exception blocks.
  - Groups that raise `ValueError` are skipped. A group whose command line
    has an empty argument list makes the script as written die with
    `IndexError` (see "## Findings"); the model rejects such a group like
    the other malformed ones. The last `build` command is picked, along
    with its target.
  - Every `process-wrapper` line of a `SpawnExecException` is split into
    wrapper flags, the compiler and the compiler arguments.
  - What `run` prints is returned as a `Report` value.
- **Library dependency graph and Kahn's sort** (`scripts/cpp/xc_list_libraries.py`),
  modules `ListLibraries` (list_libraries.dfy) and `TopologicalSort`
  (topological_sort.dfy).
  - The `nm` output of each library is given as text. It is parsed into
    defined and undefined symbols, and self-references are dropped.
  - The "A depends on B" map is built from shared symbols.
  - The libraries are sorted with an indegree map and a FIFO queue, then
    the order is reversed.
  - Libraries on a cycle, or fed by one, are dropped silently, and this is
    proved.
- **gcc command dissection** (`scripts/development/analyze_gcc_command.py`),
  module `GccCommand` (analyze_gcc_command.dfy).
  - `dismentle_command` is modelled with its set-mutating loops.
  - `compare` returns the three sorted lists it prints.
- **Big-endian encoding of a microsecond offset** (`tmp/golang/main.go`,
  `getBinary`), module `PgEpoch` (big_endian.dfy).
  - An 8-byte buffer is filled most significant byte first. The encoding
    round-trips and carries the sign in its first byte.

Shared support:
- `PyStr` (pystr.dfy) holds the Python `str` built-ins the scripts call:
  `split()`, `split(sep)`, `join`, `strip`, `splitlines`, `startswith`,
  `in`, and `sorted` on a set of strings.
- `Collections` (collections.dfy) and `Wrappers` (wrappers.dfy) hold
  sequence helpers and `Option`.

The stateful code is imperative Dafny:
- the `BazelCommand` class and its `Init` method;
- the grouping, parsing and selection loops of `run`;
- the loops of `parse_exception`, `get_symbols` and `get_std_symbols`;
- the nested loops that build the dependency map;
- Kahn's loop over a map and a queue;
- the set loops of `dismentle_command`;
- the byte loop over an `array`.

Each method is proved against a function on values, and the properties
are proved about those functions.

## Model

| member | source | states |
|---|---|---|
| BazelAnalyzer.GroupCommandLogs | scripts/bazel/xc_bazel_analyzer.py:27-36 | the loop over the log lines builds exactly `CommandLogs(lines)`, whose shape the next rows prove |
| BazelAnalyzer.CommandLogsShape | scripts/bazel/xc_bazel_analyzer.py:27-36 | concatenating the groups gives back the lines in order; every group after the first starts with a `registerCommand` line; no such line sits anywhere else; a group is empty only when the whole log is (the final group is always appended) |
| BazelAnalyzer.CommandLogsConcat | scripts/bazel/xc_bazel_analyzer.py:27-36 | grouping loses, adds and reorders no line |
| BazelAnalyzer.CommandLogsCut | scripts/bazel/xc_bazel_analyzer.py:29-34 | groups are cut exactly at `registerCommand` lines |
| BazelAnalyzer.CommandLogsNonEmpty | scripts/bazel/xc_bazel_analyzer.py:31-36 | only an empty log yields an empty group: the flush at line 31 skips an empty current group, but the final append does not |
| BazelAnalyzer.CommandLogsSnoc | scripts/bazel/xc_bazel_analyzer.py:29-34 | one more line is one more round of the loop body |
| BazelAnalyzer.ParseCommands | scripts/bazel/xc_bazel_analyzer.py:38-44 | the objects built are, in order, the commands of the groups that parse; a group that raises `ValueError` adds nothing, and so does a group with an empty payload (see "## Left out") |
| BazelAnalyzer.ParseOne | scripts/bazel/xc_bazel_analyzer.py:40-44 | one new object is appended exactly when its group parses, with that group's command as its fields |
| BazelAnalyzer.CommandsStep | scripts/bazel/xc_bazel_analyzer.py:39-44 | one more group extends the command list by its command, if it parses |
| BazelAnalyzer.NoBuild | scripts/bazel/xc_bazel_analyzer.py:47-50 | no build command is found exactly when no group parses to a command whose entry is `"build"` |
| BazelAnalyzer.LastBuild | scripts/bazel/xc_bazel_analyzer.py:47-51 | `build_commands[-1]` is the command of a group with entry `"build"` after which no group parses to a build command |
| BazelAnalyzer.BuildsSnoc | scripts/bazel/xc_bazel_analyzer.py:47 | the filter keeps a further command exactly when its entry is `"build"` |
| BazelAnalyzer.BuildCommandsOfSnapshots | scripts/bazel/xc_bazel_analyzer.py:47 | filtering the objects and filtering their field values pick the same commands |
| BazelAnalyzer.LastBuildCommand | scripts/bazel/xc_bazel_analyzer.py:48-51 | the last object kept by the filter has the fields of the last build command |
| BazelAnalyzer.PickTarget | scripts/bazel/xc_bazel_analyzer.py:59-63 | the loop's `target` is `TargetOf(server_args)` |
| BazelAnalyzer.TargetAt | scripts/bazel/xc_bazel_analyzer.py:59-63 | the target is the first server argument not starting with `--`, or `""` when all of them start with `--` |
| BazelAnalyzer.ReportOnCommand | scripts/bazel/xc_bazel_analyzer.py:59-74 | reading the chosen object's fields gives the report on its command |
| BazelAnalyzer.PickBuild | scripts/bazel/xc_bazel_analyzer.py:46-74 | the report on the objects is the report on the last build command among their values |
| BazelAnalyzer.Run | scripts/bazel/xc_bazel_analyzer.py:27-74 | `run` on the log lines reports `Analyze(lines)`, with the corrected payload check (see "## Left out") |
| BazelAnalyzer.AnalyzeNoBuild | scripts/bazel/xc_bazel_analyzer.py:46-50 | `run` reports no build command exactly when no group of the log parses to one |
| BazelAnalyzer.AnalyzeLastBuild | scripts/bazel/xc_bazel_analyzer.py:46-74 | otherwise `run` reports on the group holding the last build command |
| BazelAnalyzer.LastBuildReported | scripts/bazel/xc_bazel_analyzer.py:47-51 | a report on a list of parse results is the report on its last build command |
| BazelAnalyzer.ParseExceptions | scripts/bazel/xc_bazel_analyzer.py:73-74 | `parse_exception` is applied to every exception in order |
| BazelAnalyzer.ParseException | scripts/bazel/xc_bazel_analyzer.py:77-111 | the loop over the lines of an exception returns `ExceptionInvocations(exception)` |
| BazelAnalyzer.ExceptionInvocationsSource | scripts/bazel/xc_bazel_analyzer.py:78-88 | nothing is reported unless the first line contains `SpawnExecException`; each invocation reported comes from one wrapper line of the exception |
| BazelAnalyzer.InvocationsFromWrapperLines | scripts/bazel/xc_bazel_analyzer.py:84-88 | every invocation is the dissection of the group matched on one of the lines |
| BazelAnalyzer.LineInvocationsAppend | scripts/bazel/xc_bazel_analyzer.py:84-88 | the invocations of two runs of lines are those of the first followed by those of the second, so they come in line order |
| BazelAnalyzer.WrapperLineReported | scripts/bazel/xc_bazel_analyzer.py:84-88 | every line that matches the wrapper pattern contributes the dissection of its group |
| BazelAnalyzer.ExceptionInvocationsComplete | scripts/bazel/xc_bazel_analyzer.py:78-88 | in a `SpawnExecException` exception, every wrapper line is reported with its dissection |
| BazelAnalyzer.WrapperMatchComplete | scripts/bazel/xc_bazel_analyzer.py:85-88 | a line with whitespace indentation, a word ending in `process-wrapper` and a space matches, and the group is the rest up to the first newline |
| BazelAnalyzer.WrapperMatchSound | scripts/bazel/xc_bazel_analyzer.py:85-88 | every line that matches has that shape, and the group is the rest of it up to the first newline |
| BazelAnalyzer.DissectArgs | scripts/bazel/xc_bazel_analyzer.py:88-107 | the loop with `compiler_args_start` computes `Dissect` of the arguments split on single spaces and unquoted |
| BazelAnalyzer.ArgLoopStep | scripts/bazel/xc_bazel_analyzer.py:95-107 | each branch of the loop body keeps the loop state: before the compiler, `--` arguments go to the wrapper and the first other one becomes the compiler; after it, every argument goes to the compiler |
| BazelAnalyzer.ArgLoopDone | scripts/bazel/xc_bazel_analyzer.py:95-107 | the state after the last argument is `Dissect(args)` |
| BazelAnalyzer.Dissect | scripts/bazel/xc_bazel_analyzer.py:95-107 | the wrapper arguments all start with `--`; when some argument does not, the compiler is the first such and wrapper args + compiler + compiler args give the arguments back in order; otherwise all are wrapper args and the compiler is `""` |
| BazelAnalyzer.LeadingOptions | scripts/bazel/xc_bazel_analyzer.py:100-107 | the wrapper arguments are the longest prefix starting with `--` |
| BazelCommands.BazelCommand.Init | scripts/bazel/xc_bazel_analyzer.py:128-219 | `__init__` succeeds exactly when `ParseCommand(log)` does, and then the object's fields are that command |
| BazelCommands.BazelCommand.CollectExceptions | scripts/bazel/xc_bazel_analyzer.py:204-219 | the exception loop sets `exceptions` to `Exceptions(command_log)` and changes no other field |
| BazelCommands.LinesWithMembers | scripts/bazel/xc_bazel_analyzer.py:130-131 | the list comprehensions keep exactly the lines that contain the marker |
| BazelCommands.LinesWithOne | scripts/bazel/xc_bazel_analyzer.py:132-136 | when one line is kept, it is the only line of the group carrying the marker |
| BazelCommands.RejectsMarkerCounts | scripts/bazel/xc_bazel_analyzer.py:130-135 | a group without exactly one `registerCommand` line and exactly one `executeCommand` line raises `ValueError` |
| BazelCommands.AcceptedCommand | scripts/bazel/xc_bazel_analyzer.py:130-202 | an accepted command's line is its group's only `executeCommand` line; it splits in two at the marker; its stripped payload is the arguments joined by `", "` in brackets; the entry is argument 0; server + target arguments are the later arguments, less `--client_env` words and every `--`, in order; every `--client_env` word is well formed |
| BazelCommands.RejectsMalformedEnv | scripts/bazel/xc_bazel_analyzer.py:183-192 | a malformed `--client_env` word anywhere after the entry, even after `--`, raises `ValueError` |
| BazelCommands.ParseTimestamp | scripts/bazel/xc_bazel_analyzer.py:144-152 | an accepted time stamp has the regex's shape, a literal `.` for `strptime`, a real calendar date with `%y` mapped to 1969-2068, hours below 24, minutes and seconds below 60, and whole milliseconds |
| BazelCommands.TimestampExample | scripts/bazel/xc_bazel_analyzer.py:142-151 | the line shape of the source's comment parses to 2024-12-08 15:02:50.151 |
| BazelCommands.TimestampRejectsBadDate | scripts/bazel/xc_bazel_analyzer.py:149-151 | a 30th of February is refused like a malformed line |
| BazelCommands.TimestampOfPrefix | scripts/bazel/xc_bazel_analyzer.py:144-145 | the time stamp depends only on the first 23 characters |
| BazelCommands.PayloadBrackets | scripts/bazel/xc_bazel_analyzer.py:154-164 | an accepted payload is the stripped text after the marker, and it is its words joined by `", "` inside `[` and `]` |
| BazelCommands.PayloadCorrection | scripts/bazel/xc_bazel_analyzer.py:154-167 | the code as written fails with `IndexError` exactly when the stripped text after the marker is empty; in that case the corrected payload is rejected; otherwise the two agree |
| BazelCommands.EmptyPayloadRaisesIndexError | scripts/bazel/xc_bazel_analyzer.py:154-162 | a line with a valid time stamp and only a line break after the marker passes the earlier checks and then raises `IndexError` as written |
| BazelCommands.Payload | scripts/bazel/xc_bazel_analyzer.py:159-164 | an accepted payload has at least one word, so `all_args[0]` exists |
| BazelCommands.ClientEnvNoMatch | scripts/bazel/xc_bazel_analyzer.py:184-192 | `--client_env=(.*)=(.*)` fails exactly when the word lacks the `--client_env=` prefix, or has no further `=` before its first newline |
| BazelCommands.ClientEnvMatch | scripts/bazel/xc_bazel_analyzer.py:184-189 | on a match the word reads `--client_env=` key `=` value; the value holds no `=` (the key runs to the last `=`); neither holds a newline |
| BazelCommands.ClientEnvMatchEnds | scripts/bazel/xc_bazel_analyzer.py:184-188 | the match ends at the end of the word or at a newline |
| BazelCommands.MatchedLine | scripts/bazel/xc_bazel_analyzer.py:184-188 | the groups are the text after the prefix up to its first newline, cut at its last `=` |
| BazelCommands.LastEqualsIsLast | scripts/bazel/xc_bazel_analyzer.py:184 | the greedy first group stops at the last `=`, and there is none exactly when the index is -1 |
| BazelCommands.ClientEnvLastWins | scripts/bazel/xc_bazel_analyzer.py:183-193 | a key is in `client_env` exactly when some word sets it, and its value comes from the last word setting it |
| BazelCommands.ClientEnvSnoc | scripts/bazel/xc_bazel_analyzer.py:189 | a further word updates the map by its setting, if it has one |
| BazelCommands.ApplyLastWins | scripts/bazel/xc_bazel_analyzer.py:189 | applying settings in order leaves each key with its last value |
| BazelCommands.KeepMembers | scripts/bazel/xc_bazel_analyzer.py:183-202 | a word lands in an argument list exactly when it is neither a `--client_env` word nor `--` |
| BazelCommands.ArgsPartition | scripts/bazel/xc_bazel_analyzer.py:195-202 | `server_args` + `target_args` are the kept words, in order |
| BazelCommands.ArgsWithoutDash | scripts/bazel/xc_bazel_analyzer.py:195-197 | neither list holds a `--` |
| BazelCommands.DashIndexFirst | scripts/bazel/xc_bazel_analyzer.py:195-199 | the split between server and target arguments is at the first `--` |
| BazelCommands.ArgsSnoc | scripts/bazel/xc_bazel_analyzer.py:195-202 | after a `--` a further word can only join `target_args`; before one it can only join `server_args` |
| BazelCommands.ArgumentStep | scripts/bazel/xc_bazel_analyzer.py:183-202 | each branch of the loop body keeps the lists and the map equal to their definitions over the words seen, and a malformed `--client_env` word makes the words seen ill-formed |
| BazelCommands.ArgumentWord | scripts/bazel/xc_bazel_analyzer.py:179-202 | one round of the loop succeeds exactly when the words seen stay well formed, and then keeps the loop state |
| BazelCommands.ArgumentLoop | scripts/bazel/xc_bazel_analyzer.py:169-202 | the loop over the words after the entry succeeds exactly when every `--client_env` word is well formed, and then builds `ServerArgs`, `TargetArgs` and `ClientEnv` of those words |
| BazelCommands.EnvWellFormedPrefix | scripts/bazel/xc_bazel_analyzer.py:190-192 | a malformed word rejects the command whatever follows it |
| BazelCommands.ScanShape | scripts/bazel/xc_bazel_analyzer.py:204-219 | each recorded exception is a "Caused by:" line followed by lines that continue it, joined with newlines, and closed by a line that does neither |
| BazelCommands.ExceptionsAreClosedBlocks | scripts/bazel/xc_bazel_analyzer.py:204-219 | the recorded exceptions are exactly `ClosedBlocks`: one per line that closes a block, in line order, each block running from the first "Caused by:" line of the continuation run before it |
| BazelCommands.ScanInvariant | scripts/bazel/xc_bazel_analyzer.py:207-219 | after any prefix of the lines, `exceptions` holds the blocks closed so far, `in_exception` says whether a block is open, and `current_exception` is that block |
| BazelCommands.ScanContinues | scripts/bazel/xc_bazel_analyzer.py:208-214 | a "Caused by:" line, or a space-led line inside a block, extends the open block and records nothing |
| BazelCommands.ScanBreaks | scripts/bazel/xc_bazel_analyzer.py:213-219 | any other line records the open block, if there is one, and leaves none open |
| BazelCommands.BlockStartLeast | scripts/bazel/xc_bazel_analyzer.py:208-219 | a line closes a block exactly when it does not continue one and a block ends just before it; the block recorded is the longest one, so an inner "Caused by:" never starts a block of its own |
| BazelCommands.MergedCausedBy | scripts/bazel/xc_bazel_analyzer.py:208-219 | a "Caused by:" line inside an open block is merged: `Caused by: A`, ` x`, `Caused by: B`, ` y`, `end` record one exception of four lines |
| BazelCommands.OpenBlock | scripts/bazel/xc_bazel_analyzer.py:204-219 | while inside an exception, `current_exception` is the open block, which runs to the last line seen; a block still open at the end is therefore not recorded |
| BazelCommands.ClosedBlock | scripts/bazel/xc_bazel_analyzer.py:213-219 | outside an exception, `current_exception` is empty |
| ListLibraries.GetStdSymbols | scripts/cpp/xc_list_libraries.py:9-36 | the loops over the standard libraries' `nm` lines return `StdSymbols(outputs)` |
| ListLibraries.StdSymbolsMembership | scripts/cpp/xc_list_libraries.py:15-34 | a name is a std symbol exactly when some standard library's output contributes it |
| ListLibraries.StdSymbolsOfLinesMembership | scripts/cpp/xc_list_libraries.py:24-34 | only 3-field lines of type `D`, `T`, `i` or `W` contribute, each its name cut at the first `@`; no contributed name holds an `@` |
| ListLibraries.BaseName | scripts/cpp/xc_list_libraries.py:33 | the name cut at its first `@` is a prefix of the name and holds no `@` |
| ListLibraries.GetSymbols | scripts/cpp/xc_list_libraries.py:39-69 | the loop returns `SymbolsOf(output)`, and no undefined symbol is also defined |
| ListLibraries.DefinedOfMembership | scripts/cpp/xc_list_libraries.py:49-62 | a symbol is defined exactly when a 2- or 3-field line names it with a type other than `U` |
| ListLibraries.UndefinedOfMembership | scripts/cpp/xc_list_libraries.py:49-62 | a symbol is undefined exactly when a 2- or 3-field line names it with type `U` |
| ListLibraries.WithoutSelfReferencesSpec | scripts/cpp/xc_list_libraries.py:64-67 | the filtered list holds the undefined symbols that are not defined, each as often as before, and the others not at all |
| ListLibraries.WithoutSelfReferencesAppend | scripts/cpp/xc_list_libraries.py:64-67 | the filter works symbol by symbol, so the kept symbols stay in their original order |
| ListLibraries.SymbolsOfDisjoint | scripts/cpp/xc_list_libraries.py:64-69 | no symbol a library returns as undefined is among its defined ones |
| ListLibraries.SymbolTables | scripts/cpp/xc_list_libraries.py:86-93 | the two dictionaries are keyed by the libraries and hold each library's `get_symbols` result |
| ListLibraries.TablesMatchUpdate | scripts/cpp/xc_list_libraries.py:90-93 | recording one more library keeps the tables right |
| ListLibraries.AddProviders | scripts/cpp/xc_list_libraries.py:103-108 | for one symbol, every library defining it is added to `dependencies[cur_lib]` (a key is created only when one is found), no other key changes, and `found` says whether one was |
| ListLibraries.ProvidersSnoc | scripts/cpp/xc_list_libraries.py:102-107 | one more symbol adds the libraries that define it |
| ListLibraries.BuildDependencies | scripts/cpp/xc_list_libraries.py:99-107 | A depends on B exactly when some undefined symbol of A is defined by B, and a library with no such symbol has no key |
| ListLibraries.EdgesFromProviders | scripts/cpp/xc_list_libraries.py:101-107 | the per-library provider sets give exactly the symbol-sharing edges |
| ListLibraries.NoSelfDependency | scripts/cpp/xc_list_libraries.py:101-107 | once self-references are removed, no library depends on itself |
| ListLibraries.ListLibraries | scripts/cpp/xc_list_libraries.py:72-129 | the edges are exactly the symbol-sharing ones of the `nm` outputs; no library depends on itself; the sorted list has no repetition; it holds exactly the libraries not fed by a cycle; every library comes after all it depends on |
| TopologicalSort.TopologicalSort | scripts/cpp/xc_list_libraries.py:132-161 | the result has no repetition; it holds exactly the libraries not fed by a cycle; whatever depends on a library comes after it in the result, so what a library depends on comes before it |
| TopologicalSort.Indegrees | scripts/cpp/xc_list_libraries.py:135-141 | every library gets an entry, and each indegree is the number of libraries listing it as a dependency |
| TopologicalSort.CountDependents | scripts/cpp/xc_list_libraries.py:139-141 | the loop over the dependency map adds one for every edge |
| TopologicalSort.CountEdgesOf | scripts/cpp/xc_list_libraries.py:140-141 | the inner loop adds one to each dependency of the library |
| TopologicalSort.CountEdge | scripts/cpp/xc_list_libraries.py:141 | counting one edge keeps the counting invariant |
| TopologicalSort.CountLibrary | scripts/cpp/xc_list_libraries.py:139-141 | when all of a library's edges are counted, the library is done |
| TopologicalSort.InitialQueue | scripts/cpp/xc_list_libraries.py:143-146 | the queue starts with exactly the libraries of indegree 0, once each |
| TopologicalSort.Dequeue | scripts/cpp/xc_list_libraries.py:149-151 | the popped library is new to the output, and everything depending on it is already there |
| TopologicalSort.Release | scripts/cpp/xc_list_libraries.py:152-156 | decrementing the dependencies of the popped library enqueues exactly those whose indegree reaches 0; the queue stays duplicate-free and disjoint from the output |
| TopologicalSort.ReleaseStep | scripts/cpp/xc_list_libraries.py:153-156 | one decrement keeps that invariant |
| TopologicalSort.PathIntoDone | scripts/cpp/xc_list_libraries.py:149-156 | a chain of dependents ending in an output library starts in the output, and earlier |
| TopologicalSort.ProcessedNotFedByCycle | scripts/cpp/xc_list_libraries.py:149-156 | no library in the output is fed by a cycle |
| TopologicalSort.UnprocessedFedByCycle | scripts/cpp/xc_list_libraries.py:149-156 | when the queue runs dry, every library left out is fed by a cycle |
| TopologicalSort.BlockedFedByCycle | scripts/cpp/xc_list_libraries.py:149-156 | a set of libraries each having a dependent inside the set is fed by a cycle |
| TopologicalSort.CycleMembersOmitted | scripts/cpp/xc_list_libraries.py:149-156 | a library on a cycle is fed by that cycle and is therefore omitted |
| TopologicalSort.ReversedDependentsLater | scripts/cpp/xc_list_libraries.py:158-159 | after the reversal, whatever depends on a library comes later than it |
| TopologicalSort.ReversedDependentsAfter | scripts/cpp/xc_list_libraries.py:158-161 | after the reversal, whenever A depends on B, A comes after B |
| TopologicalSort.AcyclicSortIsPermutation | scripts/cpp/xc_list_libraries.py:132-161 | for an acyclic graph the result is a permutation of the libraries |
| GccCommand.DismentleCommand | scripts/development/analyze_gcc_command.py:43-63 | `set.remove("gcc")` fails exactly when `gcc` is not a token; otherwise `args` are the sorted distinct tokens starting with `-` and `output_files` the sorted distinct others less `gcc`; the two are disjoint, and together they are the tokens less `gcc` |
| GccCommand.Compare | scripts/development/analyze_gcc_command.py:19-39 | the three lists are the sorted intersection and the two sorted differences; they are pairwise disjoint, and their union is the union of the groups |
| GccCommand.CompareSymmetric | scripts/development/analyze_gcc_command.py:19-39 | swapping the groups swaps the two "extra" lists and keeps the common one |
| GccCommand.CompareOnSets | scripts/development/analyze_gcc_command.py:21-38 | the lists depend only on the sets of the groups |
| PyStr.SortedList | scripts/development/analyze_gcc_command.py:58-61 | `list(s)` then `sort()` gives a strictly increasing list of exactly the set's elements |
| PyStr.SortedListUnique | scripts/development/analyze_gcc_command.py:58-61 | there is only one such list |
| PyStr.WordsOfJoin | scripts/development/analyze_gcc_command.py:44 | `split()` gives back words joined with single spaces |
| PyStr.WordsAreWords | scripts/cpp/xc_list_libraries.py:25 | every field of `split()` is non-empty and free of whitespace |
| PyStr.JoinSplit | scripts/bazel/xc_bazel_analyzer.py:154 | joining the parts of `split(sep)` with `sep` gives the string back |
| PyStr.SplitPartsAvoidSep | scripts/bazel/xc_bazel_analyzer.py:154 | no part of `split(sep)` contains `sep` |
| PyStr.SplitLinesOfTerminated | scripts/cpp/xc_list_libraries.py:24 | `splitlines()` gives back the lines of newline-terminated text |
| PyStr.SplitLinesHaveNoBreaks | scripts/cpp/xc_list_libraries.py:24 | no line `splitlines()` returns holds a line boundary |
| PyStr.StripEmpty | scripts/bazel/xc_bazel_analyzer.py:159 | `strip()` leaves nothing exactly when the text is all whitespace |
| PgEpoch.GetBinary | tmp/golang/main.go:57-61 | the loop fills the 8-byte slice with `byte(diff >> (8 * (7 - i)))` at index `i` |
| PgEpoch.UnsignedPrefix | tmp/golang/main.go:59-60 | the first `k` bytes read big-endian are `diff` shifted right by the remaining bytes, modulo 2^(8k) |
| PgEpoch.UnsignedAll | tmp/golang/main.go:57-61 | all eight bytes read as an unsigned big-endian number are `diff` modulo 2^64 |
| PgEpoch.RoundTrip | tmp/golang/main.go:57-61 | the encoding is 8 bytes, and reading it back as a big-endian two's-complement int64 gives `diff` |
| PgEpoch.Injective | tmp/golang/main.go:57-61 | different offsets have different encodings |
| PgEpoch.SignInFirstByte | tmp/golang/main.go:60 | the first byte is 0x80 or more exactly when `diff` is negative (an instant before the epoch) |
| PgEpoch.EpochIsZero | tmp/golang/main.go:52-61 | the epoch itself, offset 0, encodes as eight zero bytes |
| PgEpoch.ShiftStep | tmp/golang/main.go:60 | the arithmetic shift by `n + 8` bits is the shift by `n` followed by a floor division by 256 |

## Left out

- I/O throughout: `bazel info server_log`, opening and reading the log, `logging` and every `print`. `run` returns a `Report` instead of printing. `parse_exception` returns its invocations instead of printing them.
- The `nm` subprocesses and `os.walk` in `scripts/cpp/xc_list_libraries.py`. Each library's `nm` output is a text input, and the library list is an input; a failing `nm` (`check=True`) is not modelled.
- `list_libraries` lines 95 and 108-124: the std symbols and the sorted per-library listing only feed a `pass` and commented-out prints, so the model of `list_libraries` does not call `GetStdSymbols`. That operation is modelled on its own, above.
- The command-line handling (`sys.argv`) of both scripts, and the hard-coded command strings and printing of `analyze_gcc_command.run`.
- `scripts/xiaochen_py/__init__.py`, `scripts/youtube/*` and `scripts/bazel/xc_sort_compile_commands.py` are not part of this model: they are process, file and network plumbing.
- `tmp/golang/main.go` outside the byte loop of `getBinary`. The microsecond offset from 2000-01-01 UTC is the input, and Go's `time` package (`time.Unix`, `Parse`, `Sub` and its saturation, formatting) is not modelled.
- BazelAnalyzer.Run: built on the corrected payload check (`BazelCommands.Payload`). On a group whose `executeCommand` line has nothing after the marker, the script as written dies with an uncaught `IndexError` (see "## Findings"). The model skips that group and reports on the others.
- BazelAnalyzer.ParseCommands: built on the same corrected payload check. Where the script as written dies with `IndexError` on an empty payload, the loop skips the group.
- BazelAnalyzer.ParseOne: built on the same corrected payload check. On an empty payload it appends nothing, where the script as written dies with `IndexError`.
- BazelCommands.BazelCommand.Init: built on the same corrected payload check. It returns false on an empty payload, where `__init__` as written raises `IndexError`.
- BazelCommands.ParseTimestamp: `\d` is taken as an ASCII digit, while Python's `re` also accepts other Unicode decimal digits. `strptime` is modelled as the shape and range checks it applies; the `tzinfo=UTC` replacement is not modelled, because the time stamp is never read again.
- Strings are sequences of code points. The Python whitespace (`str.split()`, `strip()`, `\s`) and line-boundary (`splitlines()`) classes are written out as character sets. String order is code-point order, as Python compares `str`.
- BazelCommands.BazelCommand.Init: when it returns false, the fields already assigned are left unspecified. In Python the half-built object is discarded, and `run` never reads it.
- TopologicalSort.TopologicalSort: it requires the libraries to be distinct and every dependency to be one of them, which `list_libraries` guarantees (paths from a directory walk, edges from those libraries' symbols). The order of a library's dependency set is unspecified in Python, so the model picks one nondeterministically and proves only the ordering constraints, never one exact output.
- ListLibraries.AddProviders: the loop over `defined_symbols.items()` is modelled as a loop over the set of libraries. The dependency set that results does not depend on that order.

## Findings

| source | as written | input that shows it | evidently intended | confidence | as-written member | corrected member |
|---|---|---|---|---|---|---|
| scripts/bazel/xc_bazel_analyzer.py:159-160 | `all_args[0]` is read before anything checks that the stripped text after the `executeCommand` marker is non-empty, so it raises `IndexError`, which `run`'s `except ValueError` does not catch | an `executeCommand` line with a valid time stamp and nothing but a line break after the marker: `241208 15:02:50.151:I 1408 ` + marker + newline | an empty payload is rejected with `ValueError` like every other malformed payload, and `run` skips the group | not executed | BazelCommands.EmptyPayloadRaisesIndexError | BazelCommands.Payload |
