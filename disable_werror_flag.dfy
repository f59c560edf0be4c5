/**
 * The -Werror double build: run the compiler once with its output captured;
 * when it failed and mentions -Werror, run it again with -Wno-error, show the
 * output of whichever run is to be believed, and persist a warnings report.
 * The report is written to a temp file whose name ends in ".incomplete" and is
 * committed by renaming that suffix away.
 */
module DisableWerror {
  import opened GoStrings
  import opened Wrapper

  const ForceDisableWerrorVar := "FORCE_DISABLE_WERROR"
  const WerrorMarker := "-Werror"
  const NoErrorFlag := "-Wno-error"
  const IncompleteSuffix := ".incomplete"
  const ReportPattern := "warnings_report*.json.incomplete"

  /** shouldForceDisableWError: FORCE_DISABLE_WERROR is set and non-empty. */
  predicate ShouldForceDisableWError(env: Env)
    ensures ShouldForceDisableWError(env) <==>
      ForceDisableWerrorVar in env.environ && env.environ[ForceDisableWerrorVar] != ""
  {
    env.Getenv(ForceDisableWerrorVar) != ""
  }

  /** A failed build worth retrying: a non-zero exit whose stderr mentions -Werror. */
  predicate NeedsRetry(exitCode: int, stderr: string) {
    exitCode != 0 && Contains(stderr, WerrorMarker)
  }

  /** The retry: the same program and env updates, with -Wno-error appended to the arguments. */
  function RetryCommand(c: Command): (r: Command)
    ensures r.path == c.path && r.envUpdates == c.envUpdates
    ensures |r.args| == |c.args| + 1 && r.args[..|c.args|] == c.args && r.args[|c.args|] == NoErrorFlag
  {
    Command(c.path, c.args + [NoErrorFlag], c.envUpdates)
  }

  /** The text logged for the original build: its stderr, then its stdout, each
      only when non-empty, separated by a newline. */
  function ReportOutput(stderr: string, stdout: string): string
  {
    var lines := (if |stderr| > 0 then [stderr] else []) + (if |stdout| > 0 then [stdout] else []);
    Join(lines, "\n")
  }

  /** The logged text holds both outputs in full, stderr first, with a newline
      between them only when both are there. */
  lemma ReportOutputShape(stderr: string, stdout: string)
    ensures ReportOutput(stderr, stdout) ==
      if stderr != [] && stdout != [] then stderr + "\n" + stdout else stderr + stdout
  {
    if stderr != [] && stdout != [] {
      assert [stderr] + [stdout] == [stderr, stdout];
      assert [stderr, stdout][1..] == [stdout];
      assert Join([stdout], "\n") == stdout;
    } else if stderr != [] {
      assert stderr + stdout == stderr;
    } else if stdout != [] {
      assert [] + [stdout] == [stdout];
    }
  }

  /** The report for an original build that failed because of -Werror. */
  function ReportFor(env: Env, originalCmd: Command, stdout: string, stderr: string): WarningsReport
  {
    WarningsReport(env.Getwd(), [originalCmd.path] + originalCmd.args, ReportOutput(stderr, stdout))
  }

  predicate EndsWith(s: string, suffix: string) {
    |suffix| <= |s| && s[|s| - |suffix|..] == suffix
  }

  /** The name a report is committed under: the temp name without its ".incomplete" suffix. */
  function CommittedName(tempName: string): (r: string)
    requires |tempName| >= |IncompleteSuffix|
    ensures EndsWith(tempName, IncompleteSuffix) ==> r + IncompleteSuffix == tempName
  {
    tempName[..|tempName| - |IncompleteSuffix|]
  }

  /** The report pattern's only '*' is at index 15, before ".json.incomplete". */
  lemma ReportPatternStar()
    ensures LastIndexChar(ReportPattern, '*') == 15
    ensures ReportPattern[16..] == ".json" + IncompleteSuffix
  {
    var head, tail := "warnings_report", ".json" + IncompleteSuffix;
    assert ReportPattern == head + ['*'] + tail;
    assert Excludes(tail, '*');
    LastIndexCharBefore(head, '*', tail);
  }

  /** Every name ioutil.TempFile gives for the report pattern ends in ".json.incomplete". */
  lemma ReportTempNameEndsWithSuffix(dir: string, random: string)
    ensures EndsWith(TempName(dir, ReportPattern, random), ".json" + IncompleteSuffix)
  {
    ReportPatternStar();
    var tail := ".json" + IncompleteSuffix;
    var head := ReportPattern[..15] + random;
    var name := head + tail;
    assert TempName(dir, ReportPattern, random) == PathJoin(dir, name);
    assert EndsWith(name, tail) by { assert name[|name| - |tail|..] == tail; }
    EndsWithEndsWith(PathJoin(dir, name), name, tail);
  }

  /** A suffix of a suffix is a suffix. */
  lemma EndsWithEndsWith(s: string, mid: string, tail: string)
    requires EndsWith(s, mid) && EndsWith(mid, tail)
    ensures EndsWith(s, tail)
  {
    assert s[|s| - |tail|..] == s[|s| - |mid|..][|mid| - |tail|..];
  }

  /** Stripping ".incomplete" from such a name leaves a name ending in ".json", and adding it back restores the name. */
  lemma CommittedNameOfReport(t: string)
    requires EndsWith(t, ".json" + IncompleteSuffix)
    ensures CommittedName(t) + IncompleteSuffix == t
    ensures EndsWith(CommittedName(t), ".json")
  {
    var tail := ".json" + IncompleteSuffix;
    var c := CommittedName(t);
    assert t[|t| - |IncompleteSuffix|..] == tail[5..] == IncompleteSuffix;
    assert c[|c| - 5..] == t[|t| - |tail|..|t| - |IncompleteSuffix|] == tail[..5];
  }

  /** The temp file the report goes to, when the directory step was the `start`-th file-system step. */
  function ReportTempName(env: Env, start: nat, dir: string): (r: string)
    ensures EndsWith(r, ".json" + IncompleteSuffix)
  {
    var d := if dir == "" then env.tempDir else dir;
    ReportTempNameEndsWithSuffix(d, env.randomPart(start + 1));
    TempName(d, ReportPattern, env.randomPart(start + 1))
  }

  /** The steps after the temp file `name` was created: encode (closing the file
      even when that fails), close, and rename away the suffix. */
  function CommitSteps(env: Env, name: string, report: WarningsReport): (seq<FsAction>, Option<Error>)
    requires |name| >= |IncompleteSuffix|
  {
    var encode, close, rename := EncodeReport(name, report), CloseFile(name), Rename(name, CommittedName(name));
    if env.fails(encode) then ([encode, close], Some(StepFailed(encode)))
    else if env.fails(close) then ([encode, close], Some(StepFailed(close)))
    else if env.fails(rename) then ([encode, close, rename], Some(StepFailed(rename)))
    else ([encode, close, rename], None)
  }

  /** The file-system steps that persist `report` in `dir`, starting as the
      `start`-th step, and the error they end with. Nothing removes a temp file
      that was left incomplete. */
  function ReportSteps(env: Env, start: nat, dir: string, report: WarningsReport): (seq<FsAction>, Option<Error>)
  {
    var mk := MkdirAll(dir);
    if env.fails(mk) then ([mk], Some(StepFailed(mk)))
    else
      var name := ReportTempName(env, start, dir);
      if env.fails(CreateTemp(name)) then ([mk, CreateTemp(name)], Some(StepFailed(CreateTemp(name))))
      else
        var rest := CommitSteps(env, name, report);
        ([mk, CreateTemp(name)] + rest.0, rest.1)
  }

  /** Writing the report starts by creating the directory, and fails exactly
      when one of the steps it attempts fails; the error then names such a step. */
  lemma ReportStepsFailIff(env: Env, start: nat, dir: string, report: WarningsReport)
    ensures var (steps, err) := ReportSteps(env, start, dir, report);
      && steps != [] && steps[0] == MkdirAll(dir)
      && (err == None <==> forall k :: 0 <= k < |steps| ==> !env.fails(steps[k]))
      && (err.Some? ==> err.value.StepFailed? && err.value.action in steps && env.fails(err.value.action))
  {
    var (steps, err) := ReportSteps(env, start, dir, report);
    var mk := MkdirAll(dir);
    if !env.fails(mk) {
      var name := ReportTempName(env, start, dir);
      if !env.fails(CreateTemp(name)) {
        var encode, close, rename := EncodeReport(name, report), CloseFile(name), Rename(name, CommittedName(name));
        if env.fails(encode) {
          assert steps[2] == encode;
        } else if env.fails(close) {
          assert steps[3] == close;
        } else if env.fails(rename) {
          assert steps[4] == rename;
        } else {
          assert steps == [mk, CreateTemp(name), encode, close, rename];
        }
      } else {
        assert steps[1] == CreateTemp(name);
      }
    }
  }

  /** A report only ever becomes visible under its final name after it was
      written in full: the rename is attempted only once encoding and closing
      the temp file succeeded, and it removes exactly the ".incomplete" suffix
      from a name ending in ".json.incomplete". */
  lemma CommitOnlyAfterCompleteWrite(env: Env, start: nat, dir: string, report: WarningsReport, from: string, to: string)
    requires Rename(from, to) in ReportSteps(env, start, dir, report).0
    ensures EncodeReport(from, report) in ReportSteps(env, start, dir, report).0
    ensures !env.fails(EncodeReport(from, report)) && !env.fails(CloseFile(from))
    ensures EndsWith(from, ".json" + IncompleteSuffix) && to + IncompleteSuffix == from && EndsWith(to, ".json")
  {
    var steps := ReportSteps(env, start, dir, report).0;
    var mk := MkdirAll(dir);
    var name := ReportTempName(env, start, dir);
    assert !env.fails(mk) && !env.fails(CreateTemp(name));
    var encode, close, rename := EncodeReport(name, report), CloseFile(name), Rename(name, CommittedName(name));
    assert !env.fails(encode) && !env.fails(close);
    assert steps == [mk, CreateTemp(name), encode, close, rename];
    assert steps[2] == encode;
    CommittedNameOfReport(name);
  }

  /** Lines 90-102 of doubleBuildWithWNoError, once the temp file exists. */
  method CommitReport(env: Env, tmpFile: string, jsonData: WarningsReport) returns (err: Option<Error>)
    requires |tmpFile| >= |IncompleteSuffix|
    modifies env`fsLog
    ensures env.fsLog == old(env.fsLog) + CommitSteps(env, tmpFile, jsonData).0
    ensures err == CommitSteps(env, tmpFile, jsonData).1
  {
    ghost var log0 := env.fsLog;
    var ok := env.Attempt(EncodeReport(tmpFile, jsonData));
    if !ok {
      var _ := env.Attempt(CloseFile(tmpFile));
      return Some(StepFailed(EncodeReport(tmpFile, jsonData)));
    }
    ok := env.Attempt(CloseFile(tmpFile));
    if !ok {
      return Some(StepFailed(CloseFile(tmpFile)));
    }
    var committed := tmpFile[..|tmpFile| - |IncompleteSuffix|];
    ok := env.Attempt(Rename(tmpFile, committed));
    assert env.fsLog == log0 + [EncodeReport(tmpFile, jsonData), CloseFile(tmpFile), Rename(tmpFile, committed)];
    if !ok {
      return Some(StepFailed(Rename(tmpFile, committed)));
    }
    err := None;
  }

  /** Lines 59-102 of doubleBuildWithWNoError: create the directory and the temp
      file, then build the report and commit it. */
  method WriteReport(env: Env, dir: string, originalCmd: Command, stdout: string, stderr: string) returns (err: Option<Error>)
    modifies env`fsLog
    ensures var steps := ReportSteps(env, |old(env.fsLog)|, dir, ReportFor(env, originalCmd, stdout, stderr));
      env.fsLog == old(env.fsLog) + steps.0 && err == steps.1
  {
    ghost var log0 := env.fsLog;
    var ok := env.Attempt(MkdirAll(dir));
    if !ok {
      return Some(StepFailed(MkdirAll(dir)));
    }
    var tmpFile;
    tmpFile, ok := env.TempFile(dir, ReportPattern);
    assert tmpFile == ReportTempName(env, |log0|, dir);
    ghost var log1 := env.fsLog;
    assert log1 == log0 + [MkdirAll(dir), CreateTemp(tmpFile)];
    if !ok {
      return Some(StepFailed(CreateTemp(tmpFile)));
    }
    var lines: seq<string> := [];
    if |stderr| > 0 {
      lines := lines + [stderr];
    }
    if |stdout| > 0 {
      lines := lines + [stdout];
    }
    var outputToLog := Join(lines, "\n");
    var jsonData := WarningsReport(env.Getwd(), [originalCmd.path] + originalCmd.args, outputToLog);
    assert jsonData == ReportFor(env, originalCmd, stdout, stderr);
    err := CommitReport(env, tmpFile, jsonData);
    assert env.fsLog == log0 + ([MkdirAll(dir), CreateTemp(tmpFile)] + CommitSteps(env, tmpFile, jsonData).0);
  }

  /** doubleBuildWithWNoError as written. `bytes.Buffer.WriteTo` empties the
      buffer it writes out, so when the retry fails, the original buffers are
      already empty by the time the report is built from them. */
  method DoubleBuildWithWNoErrorAsWritten(env: Env, cfg: Config, originalCmd: Command) returns (exitCode: int, err: Option<Error>)
    modifies env
    ensures var o := env.outcomeOf(|old(env.ran)|, originalCmd);
      // The original build could not start: nothing else happens.
      && (o.StartFailed? ==>
            && env.ran == old(env.ran) + [originalCmd]
            && env.stdout == old(env.stdout) && env.stderr == old(env.stderr) && env.fsLog == old(env.fsLog)
            && exitCode == 0 && err == Some(ExecFailed(originalCmd, o.cause)))
      // It succeeded, or failed for another reason: show its output and return its status.
      && (o.Exited? && !NeedsRetry(o.code, o.stderr) ==>
            && env.ran == old(env.ran) + [originalCmd]
            && env.stdout == old(env.stdout) + o.stdout && env.stderr == old(env.stderr) + o.stderr
            && env.fsLog == old(env.fsLog)
            && exitCode == o.code && err == None)
    ensures var o := env.outcomeOf(|old(env.ran)|, originalCmd);
      var retry := RetryCommand(originalCmd);
      var o2 := env.outcomeOf(|old(env.ran)| + 1, retry);
      o.Exited? && NeedsRetry(o.code, o.stderr) ==>
        && env.ran == old(env.ran) + [originalCmd, retry]
        // The retry could not start: nothing is shown and no report is written.
        && (o2.StartFailed? ==>
              && env.stdout == old(env.stdout) && env.stderr == old(env.stderr) && env.fsLog == old(env.fsLog)
              && exitCode == 0 && err == Some(ExecFailed(retry, o2.cause)))
        // Otherwise exactly one run's output is shown, the report is written, and
        // the retry's status is returned unless writing the report failed. When
        // the retry failed, the report logs the drained, empty buffers.
        && (o2.Exited? ==>
              var shown := if o2.code == 0 then o2 else o;
              var report := if o2.code == 0 then ReportFor(env, originalCmd, o.stdout, o.stderr) else ReportFor(env, originalCmd, "", "");
              var steps := ReportSteps(env, |old(env.fsLog)|, cfg.newWarningsDir, report);
              && env.stdout == old(env.stdout) + shown.stdout && env.stderr == old(env.stderr) + shown.stderr
              && env.fsLog == old(env.fsLog) + steps.0
              && err == steps.1
              && exitCode == (if err == None then o2.code else 0))
  {
    var original := env.Run(originalCmd, false);
    var originalStdoutBuffer, originalStderrBuffer := "", "";
    if original.Exited? {
      originalStdoutBuffer, originalStderrBuffer := original.stdout, original.stderr;
    }
    var originalExitCode;
    originalExitCode, err := WrapSubprocessError(originalCmd, original).0, WrapSubprocessError(originalCmd, original).1;
    if err.Some? {
      return 0, err;
    }
    // The only way to do anything useful is when the failure looks -Werror-related.
    if originalExitCode == 0 || !Contains(originalStderrBuffer, WerrorMarker) {
      env.Flush(originalStdoutBuffer, originalStderrBuffer);
      return originalExitCode, None;
    }

    var retryCommand := Command(originalCmd.path, originalCmd.args + [NoErrorFlag], originalCmd.envUpdates);
    var retry := env.Run(retryCommand, false);
    var retryStdoutBuffer, retryStderrBuffer := "", "";
    if retry.Exited? {
      retryStdoutBuffer, retryStderrBuffer := retry.stdout, retry.stderr;
    }
    var retryExitCode;
    retryExitCode, err := WrapSubprocessError(retryCommand, retry).0, WrapSubprocessError(retryCommand, retry).1;
    if err.Some? {
      return 0, err;
    }
    // If -Wno-error fixed the build, pretend the first run never happened;
    // otherwise pretend the second one never happened.
    // Writing a buffer out drains it.
    if retryExitCode == 0 {
      env.Flush(retryStdoutBuffer, retryStderrBuffer);
      retryStdoutBuffer, retryStderrBuffer := "", "";
    } else {
      env.Flush(originalStdoutBuffer, originalStderrBuffer);
      originalStdoutBuffer, originalStderrBuffer := "", "";
    }

    err := WriteReport(env, cfg.newWarningsDir, originalCmd, originalStdoutBuffer, originalStderrBuffer);
    if err.Some? {
      return 0, err;
    }
    return retryExitCode, None;
  }

  /** doubleBuildWithWNoError as intended ("log in either case"): the report
      always holds the original build's output, whichever run's output is shown. */
  method DoubleBuildWithWNoError(env: Env, cfg: Config, originalCmd: Command) returns (exitCode: int, err: Option<Error>)
    modifies env
    ensures var o := env.outcomeOf(|old(env.ran)|, originalCmd);
      // The original build could not start: nothing else happens.
      && (o.StartFailed? ==>
            && env.ran == old(env.ran) + [originalCmd]
            && env.stdout == old(env.stdout) && env.stderr == old(env.stderr) && env.fsLog == old(env.fsLog)
            && exitCode == 0 && err == Some(ExecFailed(originalCmd, o.cause)))
      // It succeeded, or failed for another reason: show its output and return its status.
      && (o.Exited? && !NeedsRetry(o.code, o.stderr) ==>
            && env.ran == old(env.ran) + [originalCmd]
            && env.stdout == old(env.stdout) + o.stdout && env.stderr == old(env.stderr) + o.stderr
            && env.fsLog == old(env.fsLog)
            && exitCode == o.code && err == None)
    ensures var o := env.outcomeOf(|old(env.ran)|, originalCmd);
      var retry := RetryCommand(originalCmd);
      var o2 := env.outcomeOf(|old(env.ran)| + 1, retry);
      o.Exited? && NeedsRetry(o.code, o.stderr) ==>
        && env.ran == old(env.ran) + [originalCmd, retry]
        // The retry could not start: nothing is shown and no report is written.
        && (o2.StartFailed? ==>
              && env.stdout == old(env.stdout) && env.stderr == old(env.stderr) && env.fsLog == old(env.fsLog)
              && exitCode == 0 && err == Some(ExecFailed(retry, o2.cause)))
        // Otherwise exactly one run's output is shown, the report is written, and
        // the retry's status is returned unless writing the report failed.
        && (o2.Exited? ==>
              var shown := if o2.code == 0 then o2 else o;
              var steps := ReportSteps(env, |old(env.fsLog)|, cfg.newWarningsDir, ReportFor(env, originalCmd, o.stdout, o.stderr));
              && env.stdout == old(env.stdout) + shown.stdout && env.stderr == old(env.stderr) + shown.stderr
              && env.fsLog == old(env.fsLog) + steps.0
              && err == steps.1
              && exitCode == (if err == None then o2.code else 0))
  {
    var original := env.Run(originalCmd, false);
    var originalStdoutBuffer, originalStderrBuffer := "", "";
    if original.Exited? {
      originalStdoutBuffer, originalStderrBuffer := original.stdout, original.stderr;
    }
    var originalExitCode;
    originalExitCode, err := WrapSubprocessError(originalCmd, original).0, WrapSubprocessError(originalCmd, original).1;
    if err.Some? {
      return 0, err;
    }
    // The only way to do anything useful is when the failure looks -Werror-related.
    if originalExitCode == 0 || !Contains(originalStderrBuffer, WerrorMarker) {
      env.Flush(originalStdoutBuffer, originalStderrBuffer);
      return originalExitCode, None;
    }

    var retryCommand := Command(originalCmd.path, originalCmd.args + [NoErrorFlag], originalCmd.envUpdates);
    var retry := env.Run(retryCommand, false);
    var retryStdoutBuffer, retryStderrBuffer := "", "";
    if retry.Exited? {
      retryStdoutBuffer, retryStderrBuffer := retry.stdout, retry.stderr;
    }
    var retryExitCode;
    retryExitCode, err := WrapSubprocessError(retryCommand, retry).0, WrapSubprocessError(retryCommand, retry).1;
    if err.Some? {
      return 0, err;
    }
    // If -Wno-error fixed the build, pretend the first run never happened;
    // otherwise pretend the second one never happened.
    if retryExitCode == 0 {
      env.Flush(retryStdoutBuffer, retryStderrBuffer);
    } else {
      env.Flush(originalStdoutBuffer, originalStderrBuffer);
    }

    // The report is built from the original output as captured, not from the
    // buffers that were just written out.
    err := WriteReport(env, cfg.newWarningsDir, originalCmd, original.stdout, original.stderr);
    if err.Some? {
      return 0, err;
    }
    return retryExitCode, None;
  }

  /** When the retry fails, the as-written report is empty, while the intended
      one starts with the original build's stderr, which mentions -Werror. */
  lemma DrainedReportLosesOutput(env: Env, originalCmd: Command, stdout: string, stderr: string)
    requires Contains(stderr, WerrorMarker)
    ensures ReportFor(env, originalCmd, "", "").stdout == ""
    ensures stderr != [] && |stderr| <= |ReportFor(env, originalCmd, stdout, stderr).stdout|
    ensures ReportFor(env, originalCmd, stdout, stderr).stdout[..|stderr|] == stderr
  {
    ReportOutputShape("", "");
    ReportOutputShape(stderr, stdout);
  }

  /** The input that shows it: an original build that exits 1 with a -Werror
      diagnostic on stderr is retried, and when the retry also fails the
      as-written report logs "" where the intended one logs that diagnostic. */
  lemma DrainedReportExample(env: Env, originalCmd: Command)
    ensures var stderr := "a.c:1: error: x [-Werror,-Wfoo]";
      && NeedsRetry(1, stderr)
      && ReportFor(env, originalCmd, "", "").stdout == ""
      && ReportFor(env, originalCmd, "", stderr).stdout == stderr
  {
    var stderr := "a.c:1: error: x [-Werror,-Wfoo]";
    assert OccursAt(stderr, WerrorMarker, 17);
    ReportOutputShape("", "");
    ReportOutputShape(stderr, "");
  }
}
