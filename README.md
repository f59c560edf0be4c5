# Compiler wrapper orchestration and the sheriff rotation script, in Dafny

This project models two parts of the ChromeOS toolchain utilities.

**The compiler wrapper's orchestration around one compiler call.** It covers three features:

- Forwarding a call to the legacy Python wrapper, or replaying the recorded results of a call into that wrapper and comparing its commands with the new wrapper's commands. This includes the shim's command log, its parser and the index-by-index diff.
- The `-Werror` double build. It retries with `-Wno-error` and persists a warnings report under a name ending in `.incomplete`, then commits the report by renaming that suffix away.
- Resource-usage logging. It runs the compiler with `GETRUSAGE` cleared and appends one line per run to the log named by `GETRUSAGE`.

**The sheriff rotation script.** It reads and writes the sheriff file, picks the current sheriff, rotates the list and computes the Saturday-to-Friday week that contains a day.

Module layout:

- `go_strings.dfy` (`GoStrings`): the parts of Go's `strings`, `strconv` and `path/filepath` that the wrapper uses, with their round-trip lemmas.
- `sorting.dfy` (`Sorting`): `sort.Strings`, proved to produce a sorted permutation. Two sorted copies are equal exactly when the lists are equal as multisets.
- `wrapper.dfy` (`Wrapper`): the wrapper's values and the `Env` class, which stands for the wrapper's process environment:
  - environment variables, the working directory and the temp directory;
  - `run`, whose outcome for the n-th started process comes from an oracle;
  - the real stdout and stderr streams;
  - the file system, as the log of the steps attempted on it. Each step may fail, as an oracle says.
- `oldwrapper.dfy` (`OldWrapper`), `disable_werror_flag.dfy` (`DisableWerror`), `rusage_flag.dfy` (`Rusage`) and `sheriff_rotation.dfy` (`SheriffRotation`): one module per source file.

The methods follow the Go code step by step and update `Env`. Each method is proved against a specification function: `ParseSpec`, `DiffReport`, `CompareVerdict`, `ReportSteps` or `LogSteps`. Lemmas then state what those functions promise. The Python script is pure and is modelled by functions and lemmas. Its file is its contents, as a string.

Some behaviour of the code that is easy to miss, and that the model keeps:

- When the recovered old command list is longer than the new one, the extra indices read "missing command", because `diffCommands` tests `i >= len(newCmds)` first (`oldwrapper.go:122-125`). `OldWrapper.DiffOneMoreOldCommand` states this.
- After a `-Werror` retry, `doubleBuildWithWNoError` returns the retry's exit code even when the retry itself failed (`disable_werror_flag.go:104`).
- `bytes.Buffer.WriteTo` empties the buffer it writes out. When the retry fails, the original buffers are written out at `disable_werror_flag.go:50-51`, so they are empty when the report's lines are built at `disable_werror_flag.go:76-83`, and the report logs an empty `Stdout`. This is listed under "## Findings".
- The warnings report's temp file is not removed when encoding, closing or renaming it fails (`disable_werror_flag.go:71-102` has no removal). The shim file of `callOldWrapper`, by contrast, is removed on every path after it was created (`defer os.Remove`, `oldwrapper.go:231`).
- `parseOldWrapperCommands` always panics on a `command:` line without `.EnvUpdate:`. It sets the index to `len(line)-1` (`oldwrapper.go:88-90`). For the line `command:` itself the slice at `oldwrapper.go:91` is already out of range; for a longer line the slice at `oldwrapper.go:92` is. It also panics on a line with no word before the marker (`args[0]`, `oldwrapper.go:100`). The model makes this outcome explicit as `Panicked`, which `compareToOldWrapper` turns into `Error.Panic`.

## Model

| member | source | states |
|---|---|---|
| Wrapper.Env.Run | compiler_wrapper/disable_werror_flag.go:18-19 | The outcome of a started command is the environment's outcome for the n-th process. The command is appended to the commands run. Its output reaches the real streams only when they were passed, and only when the process ran. |
| Wrapper.Env.Flush | compiler_wrapper/disable_werror_flag.go:26-27 | Writing a buffer out appends exactly its contents to the real stdout and stderr. |
| Wrapper.Env.TempFile | compiler_wrapper/oldwrapper.go:227-230 | The temp file's name is the pattern with its last `*` (or its end) replaced by a random part, inside the directory (the system temp dir for ""). The creation step is logged, and it succeeds exactly when that step does not fail. |
| Wrapper.Env.ReadFile | compiler_wrapper/oldwrapper.go:204-207 | Reading succeeds exactly when the step does not fail and the file exists, and then yields the file's contents. |
| GoStrings.Index | compiler_wrapper/oldwrapper.go:86-87 | strings.Index gives the first occurrence of the needle, or -1 exactly when there is none. |
| GoStrings.FieldsOfJoin | compiler_wrapper/oldwrapper.go:91-93 | strings.Fields undoes a space-join of non-empty, white-space-free words. |
| GoStrings.SplitOfJoin | compiler_wrapper/oldwrapper.go:81 | Splitting on a character undoes joining pieces that lack it. |
| GoStrings.JoinOfSplit | compiler_wrapper/oldwrapper.go:81 | Joining the pieces of a split with the separator gives back the string, for every string. |
| GoStrings.TrimSpaceIsSlice | compiler_wrapper/oldwrapper.go:109 | strings.TrimSpace returns a contiguous slice of its input, starting after the leading white space. |
| GoStrings.TrimSpaceRemovesSpace | compiler_wrapper/oldwrapper.go:109 | Everything TrimSpace drops, on either side, is white space, and its result neither starts nor ends with white space. |
| Wrapper.WrapSubprocessError | compiler_wrapper/oldwrapper.go:337 | A process that exited gives its status and no error. One that could not start gives exit code 0 and an error naming the command and the cause. |
| GoStrings.IntToString | compiler_wrapper/oldwrapper.go:65 | The decimal text of a number starts with '-' exactly when the number is negative. |
| GoStrings.IntToStringValue | compiler_wrapper/oldwrapper.go:155 | After the sign, the text is decimal digits that read back as the number's magnitude, with a leading '0' only for zero. |
| GoStrings.PathJoin | compiler_wrapper/rusage_flag.go:44 | The joined path ends with the name, is absolute when the directory is, and is the directory without its trailing '/'s, one '/', then the name. |
| GoStrings.Dir | compiler_wrapper/rusage_flag.go:47 | The directory of a path without '/' is ".". Otherwise it is all but the last element: a prefix of the path that does not end in '/', with only '/'s between it and the last element, or "/" when only '/'s precede the last element. |
| GoStrings.DirOfPathJoin | compiler_wrapper/rusage_flag.go:44-47 | The directory of a directory joined with a slash-free name is that directory, for "/" or a directory not ending in '/'. |
| GoStrings.BaseOfPathJoin | compiler_wrapper/rusage_flag.go:59 | filepath.Base of a path joined from a directory and a slash-free name is that name. |
| Sorting.SortStrings | compiler_wrapper/oldwrapper.go:140-143 | sort.Strings yields a sorted permutation of its input. |
| Sorting.SortedEqualIff | compiler_wrapper/oldwrapper.go:138-147 | Comparing sorted copies of two env-update lists is equality of the lists as multisets: order is ignored, repetitions are not. |
| OldWrapper.ShouldForwardToOldWrapper | compiler_wrapper/oldwrapper.go:22-30 | The call is forwarded exactly when GETRUSAGE or BISECT_STAGE is set to a non-empty value. |
| OldWrapper.OldWrapperPath | compiler_wrapper/oldwrapper.go:196-203 | The legacy wrapper's path is the configured one when absolute. Otherwise there is none exactly when the wrapper's own directory cannot be resolved. When it is resolved (and it and the configured path are non-empty), the path is that directory without its trailing '/'s, one '/', then the configured relative path. |
| OldWrapper.NewOldWrapperConfig | compiler_wrapper/oldwrapper.go:195-224 | A relative legacy path is resolved against the wrapper's own directory, and that resolution can fail. The resolved file is read. On success the configuration holds the command path, the file's contents, the root path and the three flag lists, with logging, mocking, results and overwrite unset. Nothing is run or written. |
| OldWrapper.ShimRemovedOnceCreated | compiler_wrapper/oldwrapper.go:227-231 | The shim steps start with creating the file. Once it was created it is removed exactly once, as the last step. The error names a logged step that failed, and it is absent exactly when creating, writing and closing all succeeded. |
| OldWrapper.WriteShimFile | compiler_wrapper/oldwrapper.go:227-326 | The shim goes to a fresh temp file named from the pattern. The error is that of the first failing step of create, write and close. On failure the log holds the shim steps, including the removal after a failed write or close. On success it holds them up to the removal, which is left for the run. |
| OldWrapper.CallOldWrapper | compiler_wrapper/oldwrapper.go:226-338 | The log gains exactly the shim steps. For the first failing step: its error, exit code 0, empty buffers, and nothing run. Otherwise `/usr/bin/python2 -S <shim> <args>` runs with the input's env updates, its status or start error is returned, and its output goes either to the real streams or to the buffers. On every path after the file was created, it is removed. |
| OldWrapper.OldWrapperCommand | compiler_wrapper/oldwrapper.go:332-336 | The legacy wrapper runs as `/usr/bin/python2 -S <shim>` followed by exactly the input's arguments, with the input's env updates. |
| OldWrapper.ForwardToOldWrapper | compiler_wrapper/oldwrapper.go:32-38 | Every error comes back unchanged, with exit code 0 and nothing run: the unresolved wrapper directory, the failed read of the legacy wrapper, or the first failing shim step. The log gains exactly the read and the shim steps, and the shim has the plain configuration (logging, mocking, recorded results and overwriting all off). Otherwise the legacy wrapper is run on the input's arguments. Its exit code or start error is the result, and its output goes straight to the real streams. |
| OldWrapper.MarkerNotInPrefix | compiler_wrapper/oldwrapper.go:84-91 | On a `command:` line the `.EnvUpdate:` marker cannot start inside the prefix, so the slice of the argument part is well formed. |
| OldWrapper.ParseOldWrapperCommands | compiler_wrapper/oldwrapper.go:80-111 | The loop computes ParseSpec. The result is a panic exactly when some `command:` line lacks the marker or has no word before it. Otherwise the commands of the command lines come in order, and the remaining stderr is the trimmed newline-join of the other lines. |
| OldWrapper.ParsePartitionsLines | compiler_wrapper/oldwrapper.go:83-107 | Every line of the log is either parsed into a command or kept as stderr, and never both. The kept lines are exactly the lines that do not start with `command:`. Each command line's command is among the parsed commands, and there is one parsed command per command line. |
| OldWrapper.ParseOfLines | compiler_wrapper/oldwrapper.go:81-109 | Parsing a newline-joined list of lines works on those lines one by one. |
| OldWrapper.ParseSerializedCommand | compiler_wrapper/oldwrapper.go:87-103 | The line the shim prints for a command (`serialize_cmd`, oldwrapper.go:244-248) parses back into exactly that command, when its words are non-empty and free of white space and of the marker. |
| OldWrapper.SerializedLineHasNoNewline | compiler_wrapper/oldwrapper.go:81 | A printed command line holds no newline, so splitting the log keeps it whole. |
| OldWrapper.SplitShimLog | compiler_wrapper/oldwrapper.go:81 | Splitting the shim's log yields the printed lines of its commands, then one empty line. |
| OldWrapper.ParsedLogLines | compiler_wrapper/oldwrapper.go:83-107 | The printed lines of a list of commands all parse, give back that list, and leave no other line. |
| OldWrapper.ParseOfShimLog | compiler_wrapper/oldwrapper.go:80-111 | Parsing the `command:` lines the shim prints for a list of commands (without mocking, which also prints each mocked result's stderr) recovers exactly that list, with empty remaining stderr. |
| OldWrapper.IndexDifferences | compiler_wrapper/oldwrapper.go:121-148 | At index i the report lists "missing command" when the new list has no i-th command, else "extra command" when the old list has none. Otherwise it lists at most three fields, and none exactly when the paths, the args and the env updates as multisets agree. |
| OldWrapper.FieldDifferencesNameChanges | compiler_wrapper/oldwrapper.go:130-147 | "path", "args" and "env updates" are each named exactly when that field differs. |
| OldWrapper.DiffEntryAt | compiler_wrapper/oldwrapper.go:154-155 | The report holds one line per index up to the longer length, and line i reads "Index i: " followed by its differences, or "none". |
| OldWrapper.DiffersBeforeIff | compiler_wrapper/oldwrapper.go:149-150 | The has-differences flag after i indices is set exactly when some index below i had a difference. |
| OldWrapper.CompareFields | compiler_wrapper/oldwrapper.go:127-147 | The field differences of two commands are computed. The two env-update lists are returned sorted, as permutations of the originals. |
| OldWrapper.DiffAt | compiler_wrapper/oldwrapper.go:121-155 | One loop iteration produces that index's report line and difference flag, and extends the sorted-env prefix by one index. |
| OldWrapper.DiffCommands | compiler_wrapper/oldwrapper.go:113-164 | The report equals DiffReport. Both command lists come back with the env updates of every compared index sorted, as a permutation, and everything else unchanged. |
| OldWrapper.DiffReportEmptyIff | compiler_wrapper/oldwrapper.go:113-164 | The report is empty exactly when both lists have the same length and agree at every index in path, args and env updates up to order. |
| OldWrapper.DiffIgnoresEnvOrder | compiler_wrapper/oldwrapper.go:138-147 | Reordering the env updates of any command, in the old list (which the shim builds from a Python set, oldwrapper.go:247) or in the new one, changes neither the report lines nor the report. |
| OldWrapper.DiffOneMoreOldCommand | compiler_wrapper/oldwrapper.go:122-123 | When the old list is the new list plus one command, every shared index is clean, the last index reads "missing command", and the report is non-empty. |
| OldWrapper.SplitRecordedResults | compiler_wrapper/oldwrapper.go:47-55 | The recorded results become the shim's mock results (stdout, stderr, exit code) and the list of new commands, both in call order. |
| OldWrapper.CompareVerdict | compiler_wrapper/oldwrapper.go:63-77 | The comparison has no error exactly when the exit codes agree, the log parses, and the recovered commands equal the new ones up to env order. A parse panic becomes Panic. Any other error lists the exit-code message (when they differ), then the diff report (when non-empty), with the remaining stderr. |
| OldWrapper.CompareOutcome | compiler_wrapper/oldwrapper.go:63-77 | The tail of compareToOldWrapper computes CompareVerdict. |
| OldWrapper.RunAndCompare | compiler_wrapper/oldwrapper.go:58-77 | The shim runs with its output buffered, so the real streams are untouched, and the log gains exactly the shim steps. A failing shim step's error comes back unchanged and nothing runs. Otherwise the error is the start failure or the comparison verdict for the legacy run's exit code and stderr. |
| OldWrapper.CompareToOldWrapper | compiler_wrapper/oldwrapper.go:40-78 | The real streams are left untouched. Every error of building the configuration or of the shim steps comes back unchanged, and then nothing is run. The log gains exactly the read and the shim steps, with a shim that has logging on, the configured mocking and overwrite flags, and the recorded results as mocks. Otherwise the legacy wrapper is run, and the error is its start failure or the comparison verdict. |
| DisableWerror.ShouldForceDisableWError | compiler_wrapper/disable_werror_flag.go:11-13 | The double build is enabled exactly when FORCE_DISABLE_WERROR is set to a non-empty value. |
| DisableWerror.RetryCommand | compiler_wrapper/disable_werror_flag.go:33-37 | The retry keeps the path and the env updates, and its args are the original args followed by exactly "-Wno-error". |
| DisableWerror.ReportOutputShape | compiler_wrapper/disable_werror_flag.go:76-83 | The logged output is the original stderr, then its stdout, joined by a newline only when both are non-empty. |
| GoStrings.LastIndexCharBefore | compiler_wrapper/disable_werror_flag.go:71 | The last occurrence of a character is the one that no later occurrence follows, which is where ioutil.TempFile puts the random part. |
| DisableWerror.ReportPatternStar | compiler_wrapper/disable_werror_flag.go:71 | The report pattern's last `*` is followed by exactly ".json.incomplete". |
| DisableWerror.ReportTempNameEndsWithSuffix | compiler_wrapper/disable_werror_flag.go:71 | Every temp name for the report pattern ends in ".json.incomplete", whatever the random part. |
| DisableWerror.ReportTempName | compiler_wrapper/disable_werror_flag.go:71 | The temp file for a report always ends in ".json.incomplete". |
| DisableWerror.CommittedName | compiler_wrapper/disable_werror_flag.go:100 | The committed name with ".incomplete" appended again is the temp name. |
| DisableWerror.CommittedNameOfReport | compiler_wrapper/disable_werror_flag.go:100 | The committed report name ends in ".json", and re-adding ".incomplete" gives the temp name. |
| DisableWerror.ReportStepsFailIff | compiler_wrapper/disable_werror_flag.go:59-102 | Persisting the report starts with creating the directory. It fails exactly when one of its attempted steps fails, and the error names such a step. |
| DisableWerror.CommitOnlyAfterCompleteWrite | compiler_wrapper/disable_werror_flag.go:63-102 | A rename is attempted only after the report was encoded and the file closed without failure. The rename strips exactly ".incomplete" from a ".json.incomplete" name. |
| DisableWerror.CommitReport | compiler_wrapper/disable_werror_flag.go:90-102 | It logs exactly the steps of CommitSteps and returns their error. A failed encode still closes the file. |
| DisableWerror.WriteReport | compiler_wrapper/disable_werror_flag.go:59-102 | It logs exactly the steps of ReportSteps for the report built from the working directory, `[path] + args` and the logged output, and returns their error. |
| DisableWerror.DoubleBuildWithWNoErrorAsWritten | compiler_wrapper/disable_werror_flag.go:15-105 | An original that cannot start gives (0, its error) and nothing else happens. Without a -Werror failure, its output is shown and its status returned. Otherwise the retry runs. A retry that cannot start gives (0, its error). Otherwise exactly one run's output is shown (the retry's when it exits 0), the report is persisted, and the retry's status is returned, or 0 with the file-system error. The report holds the original output when the retry exits 0, and empty output when it fails, because writing the original buffers out drained them. |
| DisableWerror.DoubleBuildWithWNoError | compiler_wrapper/disable_werror_flag.go:15-105 | The same outcomes, exit codes, errors and shown output, with the report holding the original build's output whichever run's output is shown, as the comment at disable_werror_flag.go:44-45 intends. |
| DisableWerror.DrainedReportLosesOutput | compiler_wrapper/disable_werror_flag.go:50-51 | When the original stderr mentions -Werror, the report built from drained buffers logs "", while the intended report starts with that stderr. |
| DisableWerror.DrainedReportExample | compiler_wrapper/disable_werror_flag.go:25 | A build that exits 1 with stderr `a.c:1: error: x [-Werror,-Wfoo]` is retried; built from drained buffers its report logs "", built from the captured output it logs that line. |
| Rusage.GetRusageLogFilename | compiler_wrapper/rusage_flag.go:12-14 | The log file is the value of GETRUSAGE, or "" when it is unset. |
| Rusage.ChildCommand | compiler_wrapper/rusage_flag.go:21-25 | The child keeps the path and args, and its env updates are the original ones followed by exactly "GETRUSAGE=". |
| Rusage.AbsCompilerPathIsAbsolute | compiler_wrapper/rusage_flag.go:42-45 | An absolute compiler path is logged unchanged. A relative one becomes absolute whenever the working directory is. |
| Rusage.BaseOfBareCompiler | compiler_wrapper/rusage_flag.go:59 | A compiler invoked by a bare name is logged under that name in the command-line field. |
| Rusage.CommandLineFieldFields | compiler_wrapper/rusage_flag.go:59 | The command-line field splits back into the base name and the args, when all of them are non-empty and free of white space. |
| Rusage.RusageLineShape | compiler_wrapper/rusage_flag.go:56-59 | The log line is real, user and sys time, peak memory, the absolute path and the command line, separated by " : " and ended by a newline. |
| Rusage.RusageLineIsOneLine | compiler_wrapper/rusage_flag.go:56-59 | When no field holds a newline, the appended text is exactly one line. |
| Rusage.LogStepsFailIff | compiler_wrapper/rusage_flag.go:47-65 | Logging starts with creating the log's directory. It fails exactly when one of its attempted steps fails, and the error names such a step. |
| Rusage.AppendOnlyAfterOpen | compiler_wrapper/rusage_flag.go:47-62 | The line is appended only after the directory was created and the log opened for appending. |
| Rusage.AppendLogLine | compiler_wrapper/rusage_flag.go:47-65 | It logs exactly the steps of LogSteps and returns their error. A failed write still closes the file. |
| Rusage.LogRusage | compiler_wrapper/rusage_flag.go:16-68 | The child runs with GETRUSAGE cleared and its output passed straight through. A start failure gives (0, error) and logs nothing. Otherwise the line for the absolute compiler path is logged, and the child's status is returned, or 0 with the file-system error. |
| SheriffRotation.SplitLines | sheriff_rotation.py:51 | str.splitlines yields no lines exactly for the empty string. |
| SheriffRotation.SplitLinesHaveNoBreak | sheriff_rotation.py:51 | No line that splitlines yields holds a line break. |
| SheriffRotation.ReadSheriffsAsList | sheriff_rotation.py:46-51 | The sheriff list has one break-free entry per line, and it is empty exactly when the file is. |
| SheriffRotation.WriteSheriffsAsList | sheriff_rotation.py:46-55 | Reading back a written list gives the list, when no entry holds a line break and the last entry is non-empty. |
| SheriffRotation.SplitLinesOfJoin | sheriff_rotation.py:51-55 | Splitting the newline-join of break-free lines, the last of them non-empty, gives back those lines. |
| SheriffRotation.GetCurrentSheriff | sheriff_rotation.py:42-44 | An empty file raises IndexError, and only an empty file does. Otherwise the current sheriff is the file's first line: a break-free prefix, followed by a line break unless it is the whole file. |
| SheriffRotation.Rotate | sheriff_rotation.py:62-64 | The rotated list has the same length, and entry i is entry (i + n) mod len of the original. |
| SheriffRotation.RotateIsPermutation | sheriff_rotation.py:62-64 | Rotating neither loses nor duplicates a sheriff. |
| SheriffRotation.RotateByMultiple | sheriff_rotation.py:62 | Rotating by any multiple of the length, negative ones included, is the identity. |
| SheriffRotation.RotateOnce | sheriff_rotation.py:57-65 | One rotation moves the current sheriff to the end. |
| SheriffRotation.GetRotatedSheriffs | sheriff_rotation.py:57-65 | An empty file raises ZeroDivisionError, and only an empty file does. Otherwise entry i of the result is entry (i + n) mod len of the sheriff list. |
| SheriffRotation.RotateAndWrite | sheriff_rotation.py:109-114 | Rotating by n and writing the result back stores the rotated list. Entry n mod len becomes the current sheriff, when no line of the file is blank. |
| SheriffRotation.GetWeekInfoAsWritten | sheriff_rotation.py:24-40 | The computed week, as written, is seven days long and holds the day. |
| SheriffRotation.WeekAsWrittenStartsOnSaturday | sheriff_rotation.py:30-34 | From 1970-01-01 on, the week as written starts on a Saturday. |
| SheriffRotation.WeekAsWrittenBeforeEpoch | sheriff_rotation.py:30-34 | For 1969-12-31 the week as written starts on Thursday 1969-12-25, not on a Saturday. |
| SheriffRotation.GetWeekInfo | sheriff_rotation.py:30-35 | The corrected week is seven days long, holds the day and starts on a Saturday, for every day. |
| SheriffRotation.GetWeekInfoUnique | sheriff_rotation.py:30-35 | Any Saturday-to-Friday span that holds the day is the one GetWeekInfo returns. |
| SheriffRotation.GetWeekInfoAgreesFromEpoch | sheriff_rotation.py:30-35 | From 1970-01-01 on, the corrected week equals the week as written. |

## Left out

- Error messages and source locations (`wrapErrorwithSourceLocf`) are not modelled. Errors are structured values naming the failed command or file-system step.
- The real file system is not modelled: contents written, permissions (0777, 0666), and the retries of `ioutil.TempFile` on a name clash. The file system is the log of attempted steps plus an oracle saying which steps fail.
- Process execution is an oracle, `Env.outcomeOf`. The split between a clean non-zero exit and other `run` errors (the other half of `wrapSubprocessErrorWithSourceLoc`) is not modelled. Its code is not part of this model.
- The resolution of the wrapper's own directory (`getAbsWrapperDir`) is a parameter, `Env.absWrapperDirOf`. Its code is not part of this model.
- OldWrapper.NewOldWrapperConfig: keeps the legacy wrapper's content as read. It does not model the rewrite of `__name__` or of the `@CCACHE_DEFAULT@` literal (oldwrapper.go:209-214), because that is text patching of an opaque Python file.
- OldWrapper.CallOldWrapper: the shim file is modelled by the configuration it is rendered from, `WriteShim(name, cfg)`. The template text, the Python it contains and its behaviour are not modelled. Parsing the constant template (oldwrapper.go:317-320) cannot fail and is left out. So is the second, unused rendering into a buffer (oldwrapper.go:327-328).
- OldWrapper.ParseOldWrapperCommands: Go's distinction between nil and empty slices is not modelled. That includes normalising empty env updates to nil (oldwrapper.go:94-98) and the resulting `reflect.DeepEqual` corner cases. Sequences have no such distinction.
- OldWrapper.DiffCommands: the report omits the `%#v` dumps of both command lists (oldwrapper.go:158-161 and dumpCommands). They are Go's reflection syntax.
- OldWrapper.DiffCommands: `sort.Strings` sorts the env updates in place, through slices the caller shares. The model returns the updated lists rather than aliasing them.
- OldWrapper.CompareToOldWrapper: it drops the sorted lists `DiffCommands` returns, so it does not state that the caller's recorded commands come back with their env updates sorted in place (oldwrapper.go:141-142 through the slices of oldwrapper.go:47-52). Only the verdict is modelled.
- OldWrapper.CompareToOldWrapper: the wrapping text of the final error ("wrappers differ: ... Old stderr:") is a structured value, `WrappersDiffer(differences, oldStderr)`.
- Rusage.LogRusage: `syscall.Getrusage`, its failures (rusage_flag.go:18-20, 34-36), the clock and the `%.5f` float formatting are not modelled. The measurements are a parameter, `Usage`, with the three durations already rendered.
- DisableWerror.WriteReport: the JSON encoding of the report is a step, `EncodeReport(name, report)`. The encoded bytes are not modelled.
- GoStrings.PathJoin: `filepath.Clean` is modelled only as far as dropping empty elements and the '/'s that end the directory. Its removal of `.` and `..` elements, of repeated '/'s inside an element and of the name's trailing '/'s is not modelled. So a relative compiler path `./clang` is logged as `<wd>/./clang`, where the code logs `<wd>/clang`.
- GoStrings.Dir and GoStrings.Base: they do not clean the path either, so `.` and `..` elements are kept as written.
- SheriffRotation.GetWeekInfo: days are counted from 1970-01-01 as whole days, the `days` of the difference between datetimes. The `strftime` rendering, the default argument `datetime.today()` (evaluated once, at import) and the unused `weeks_since_epoch` are left out.
- SheriffRotation.ReadSheriffsAsList: the file is its contents, and I/O errors on the fixed path are left out. Line breaks are those of `str.splitlines` on a Python 2 byte string, `\n`, `\r` and `\r\n`.
- SheriffRotation.WriteSheriffsAsList: the read-back round trip holds only when no entry holds a line break and the last entry is non-empty. Otherwise `splitlines` does not give back the written list (a trailing empty entry is lost).
- `SheriffHandler.Email` and `Main` (sheriff_rotation.py:67-117) are left out. They send mail, print and parse options; `SheriffRotation.RotateAndWrite` states what `-r n -w` writes.
- Rotating twice, by m and then by n, equal to rotating by m + n, is not proved. RotateByMultiple and the index formula of Rotate give each rotation's effect.
- compiler_wrapper/compiler_wrapper_test.go, v14/automation/server.py, v14/crosperf/autotest_runner.py and binary_search_tool/test/cmd_script_no_support.py are context only and are not modelled.

## Findings

| source | as written | input that shows it | evidently intended | confidence | as-written member | corrected member |
|---|---|---|---|---|---|---|
| compiler_wrapper/disable_werror_flag.go:50-51 | When the retry fails, the original buffers are written out with `WriteTo`, which empties them; the report's lines are then built from the empty buffers (:76-83). | The original exits 1 with stderr `a.c:1: error: x [-Werror,-Wfoo]` and the retry exits 1: the report's `Stdout` is "". | The report holds the original output in either case ("log in either case", :44-45). | not executed; follows from the documented behaviour of `bytes.Buffer.WriteTo` | DisableWerror.DoubleBuildWithWNoErrorAsWritten, DisableWerror.DrainedReportExample | DisableWerror.DoubleBuildWithWNoError |
| sheriff_rotation.py:30-32 | The day of the week is `(abs(days) - 2) % 7`, so days before 1970-01-01 are counted backwards. | Day -1 (Wednesday 1969-12-31) gives the week Thursday 1969-12-25 to Wednesday 1969-12-31. | The week starts on the Saturday on or before the day ("To get it to start from Sat."): `(days - 2) % 7`. | not executed; only affects dates before 1970 | SheriffRotation.WeekAsWrittenBeforeEpoch | SheriffRotation.GetWeekInfo |
