/**
 * Resource-usage logging: when GETRUSAGE names a log file, the compiler runs
 * with its output passed straight through, and one line describing the run
 * is appended to that file. The child runs with GETRUSAGE cleared so that a
 * nested wrapper does not log again.
 */
module Rusage {
  import opened GoStrings
  import opened Wrapper

  const RusageVar := "GETRUSAGE"
  const ClearRusage := "GETRUSAGE="
  const FieldSeparator := " : "

  /** The measurements of one run, taken from the operating system and the
      clock: the three durations already rendered as seconds with five
      decimals, and the peak resident set size. */
  datatype Usage = Usage(elapsedReal: string, elapsedUser: string, elapsedSys: string, maxMemUsed: int)

  /** getRusageLogFilename: the value of GETRUSAGE ("" when unset). */
  function GetRusageLogFilename(env: Env): (r: string)
    ensures RusageVar in env.environ ==> r == env.environ[RusageVar]
    ensures RusageVar !in env.environ ==> r == ""
  {
    env.Getenv(RusageVar)
  }

  /** The compiler command as it is run: the same program and arguments, with GETRUSAGE cleared last. */
  function ChildCommand(c: Command): (r: Command)
    ensures r.path == c.path && r.args == c.args
    ensures |r.envUpdates| == |c.envUpdates| + 1
    ensures r.envUpdates[..|c.envUpdates|] == c.envUpdates && r.envUpdates[|c.envUpdates|] == ClearRusage
  {
    Command(c.path, c.args, c.envUpdates + [ClearRusage])
  }

  /** The compiler path as logged: absolute paths as they are, relative ones joined to the working directory. */
  function AbsCompilerPath(wd: string, path: string): string
  {
    if IsAbs(path) then path else PathJoin(wd, path)
  }

  /** The logged path is absolute whenever the working directory is, and an
      absolute path is logged unchanged. */
  lemma AbsCompilerPathIsAbsolute(wd: string, path: string)
    ensures IsAbs(path) ==> AbsCompilerPath(wd, path) == path
    ensures IsAbs(wd) ==> IsAbs(AbsCompilerPath(wd, path))
  {
  }

  /** A compiler found by a bare name in the working directory is logged under that name. */
  lemma BaseOfBareCompiler(wd: string, name: string)
    requires name != [] && Excludes(name, '/')
    ensures Base(AbsCompilerPath(wd, name)) == name
  {
    assert !IsAbs(name) by { assert name[0] != '/'; }
    BaseOfPathJoin(wd, name);
  }

  /** The last field of the log line: the compiler's base name, then its arguments, separated by spaces. */
  function CommandLineField(absCompilerPath: string, args: seq<string>): string
  {
    Join([Base(absCompilerPath)] + args, " ")
  }

  /** The command-line field splits back into the base name and the arguments
      when none of them is empty or holds white space. */
  lemma CommandLineFieldFields(absCompilerPath: string, args: seq<string>)
    requires AllWords([Base(absCompilerPath)] + args)
    ensures Fields(CommandLineField(absCompilerPath, args)) == [Base(absCompilerPath)] + args
  {
    FieldsOfJoin([Base(absCompilerPath)] + args);
  }

  /** The six fields of the log line, in order. */
  function LineFields(usage: Usage, absCompilerPath: string, args: seq<string>): seq<string>
  {
    [usage.elapsedReal, usage.elapsedUser, usage.elapsedSys, IntToString(usage.maxMemUsed),
     absCompilerPath, CommandLineField(absCompilerPath, args)]
  }

  /** The line appended to the log: the six fields separated by " : ", then a newline. */
  function RusageLine(usage: Usage, absCompilerPath: string, args: seq<string>): string
  {
    Join(LineFields(usage, absCompilerPath, args), FieldSeparator) + "\n"
  }

  /** The line written out field by field. */
  lemma RusageLineShape(usage: Usage, absCompilerPath: string, args: seq<string>)
    ensures RusageLine(usage, absCompilerPath, args) ==
      usage.elapsedReal + (" : " + (usage.elapsedUser + (" : " + (usage.elapsedSys + (" : "
      + (IntToString(usage.maxMemUsed) + (" : " + (absCompilerPath + (" : "
      + (CommandLineField(absCompilerPath, args) + "\n"))))))))))
  {
    JoinOfSix(usage.elapsedReal, usage.elapsedUser, usage.elapsedSys, IntToString(usage.maxMemUsed),
              absCompilerPath, CommandLineField(absCompilerPath, args), FieldSeparator);
  }

  /** Join of six strings, written out. */
  lemma JoinOfSix(a: string, b: string, c: string, d: string, e: string, f: string, sep: string)
    ensures Join([a, b, c, d, e, f], sep) == a + sep + (b + sep + (c + sep + (d + sep + (e + sep + f))))
  {
    assert [e, f][1..] == [f];
    assert Join([e, f], sep) == e + sep + f;
    assert [d, e, f][1..] == [e, f];
    assert Join([d, e, f], sep) == d + sep + Join([e, f], sep);
    assert [c, d, e, f][1..] == [d, e, f];
    assert Join([c, d, e, f], sep) == c + sep + Join([d, e, f], sep);
    assert [b, c, d, e, f][1..] == [c, d, e, f];
    assert Join([b, c, d, e, f], sep) == b + sep + Join([c, d, e, f], sep);
    assert [a, b, c, d, e, f][1..] == [b, c, d, e, f];
  }

  /** When no field holds a newline, each run adds exactly one line to the log. */
  lemma RusageLineIsOneLine(usage: Usage, absCompilerPath: string, args: seq<string>)
    requires Excludes(usage.elapsedReal, '\n') && Excludes(usage.elapsedUser, '\n') && Excludes(usage.elapsedSys, '\n')
    requires Excludes(absCompilerPath, '\n')
    requires forall i :: 0 <= i < |args| ==> Excludes(args[i], '\n')
    ensures var line := RusageLine(usage, absCompilerPath, args);
      line != [] && line[|line| - 1] == '\n' && Excludes(line[..|line| - 1], '\n')
  {
    var cmdLine := [Base(absCompilerPath)] + args;
    assert Excludes(Base(absCompilerPath), '\n') by {
      BaseExcludes(absCompilerPath, '\n');
    }
    assert forall i :: 0 <= i < |cmdLine| ==> Excludes(cmdLine[i], '\n') by {
      forall i | 0 <= i < |cmdLine| ensures Excludes(cmdLine[i], '\n') {
        if i > 0 { assert cmdLine[i] == args[i - 1]; }
      }
    }
    JoinExcludes(cmdLine, " ", '\n');
    IntToStringHasNoNewline(usage.maxMemUsed);
    var fs := LineFields(usage, absCompilerPath, args);
    JoinExcludes(fs, FieldSeparator, '\n');
    var line := RusageLine(usage, absCompilerPath, args);
    assert line[..|line| - 1] == Join(fs, FieldSeparator);
  }

  /** A character other than '/' and '.' that is not in a path is not in its base name either. */
  lemma BaseExcludes(p: string, c: char)
    requires Excludes(p, c) && c != '/' && c != '.'
    ensures Excludes(Base(p), c)
  {
    if p != [] {
      var t := TrimTrailingSlashes(p);
      if t != [] {
        var r := AfterLastSlash(t);
        AfterLastSlashIsSuffix(t);
        forall i | 0 <= i < |r| ensures r[i] != c {
          assert r[i] == t[|t| - |r| + i] == p[|t| - |r| + i];
        }
      }
    }
  }

  /** A decimal rendering holds no newline. */
  lemma IntToStringHasNoNewline(n: int)
    ensures Excludes(IntToString(n), '\n')
  {
  }

  /** The file-system steps that append `line` to the log, and the error they end with.
      A failed write still closes the file. */
  function LogSteps(env: Env, logFileName: string, line: string): (r: (seq<FsAction>, Option<Error>))
  {
    var mkdir, open, append, close := MkdirAll(Dir(logFileName)), OpenAppend(logFileName), AppendLine(logFileName, line), CloseFile(logFileName);
    if env.fails(mkdir) then ([mkdir], Some(StepFailed(mkdir)))
    else if env.fails(open) then ([mkdir, open], Some(StepFailed(open)))
    else if env.fails(append) then ([mkdir, open, append, close], Some(StepFailed(append)))
    else if env.fails(close) then ([mkdir, open, append, close], Some(StepFailed(close)))
    else ([mkdir, open, append, close], None)
  }

  /** Logging starts by creating the log's directory, and fails exactly when
      one of the steps it attempts fails; the error then names such a step. */
  lemma LogStepsFailIff(env: Env, logFileName: string, line: string)
    ensures var (steps, err) := LogSteps(env, logFileName, line);
      && steps != [] && steps[0] == MkdirAll(Dir(logFileName))
      && (err == None <==> forall k :: 0 <= k < |steps| ==> !env.fails(steps[k]))
      && (err.Some? ==> err.value.StepFailed? && err.value.action in steps && env.fails(err.value.action))
  {
    var (steps, err) := LogSteps(env, logFileName, line);
    var mkdir, open, append, close := MkdirAll(Dir(logFileName)), OpenAppend(logFileName), AppendLine(logFileName, line), CloseFile(logFileName);
    if env.fails(mkdir) {
      assert steps == [mkdir];
    } else if env.fails(open) {
      assert steps == [mkdir, open];
      assert steps[1] == open;
    } else if env.fails(append) {
      assert steps == [mkdir, open, append, close];
      assert steps[2] == append;
    } else if env.fails(close) {
      assert steps == [mkdir, open, append, close];
      assert steps[3] == close;
    } else {
      assert steps == [mkdir, open, append, close];
    }
  }

  /** The line is written only to a log file that was opened for appending. */
  lemma AppendOnlyAfterOpen(env: Env, logFileName: string, line: string)
    requires AppendLine(logFileName, line) in LogSteps(env, logFileName, line).0
    ensures LogSteps(env, logFileName, line).0[1] == OpenAppend(logFileName)
    ensures !env.fails(MkdirAll(Dir(logFileName))) && !env.fails(OpenAppend(logFileName))
  {
  }

  /** Lines 47-65 of logRusage: create the log's directory, open the log for
      appending, write the line and close the log. */
  method AppendLogLine(env: Env, logFileName: string, line: string) returns (err: Option<Error>)
    modifies env`fsLog
    ensures env.fsLog == old(env.fsLog) + LogSteps(env, logFileName, line).0
    ensures err == LogSteps(env, logFileName, line).1
  {
    ghost var log0 := env.fsLog;
    var ok := env.Attempt(MkdirAll(Dir(logFileName)));
    if !ok {
      return Some(StepFailed(MkdirAll(Dir(logFileName))));
    }
    ok := env.Attempt(OpenAppend(logFileName));
    if !ok {
      return Some(StepFailed(OpenAppend(logFileName)));
    }
    ok := env.Attempt(AppendLine(logFileName, line));
    if !ok {
      var _ := env.Attempt(CloseFile(logFileName));
      return Some(StepFailed(AppendLine(logFileName, line)));
    }
    ok := env.Attempt(CloseFile(logFileName));
    assert env.fsLog == log0 + [MkdirAll(Dir(logFileName)), OpenAppend(logFileName), AppendLine(logFileName, line), CloseFile(logFileName)];
    if !ok {
      return Some(StepFailed(CloseFile(logFileName)));
    }
    err := None;
  }

  /** logRusage, with the measurements of the run given as `usage`. */
  method LogRusage(env: Env, logFileName: string, compilerCmd: Command, usage: Usage) returns (exitCode: int, err: Option<Error>)
    modifies env
    ensures var child := ChildCommand(compilerCmd);
      var o := env.outcomeOf(|old(env.ran)|, child);
      && env.ran == old(env.ran) + [child]
      // The child's output goes straight to the real streams.
      && (o.Exited? ==> env.stdout == old(env.stdout) + o.stdout && env.stderr == old(env.stderr) + o.stderr)
      // A child that could not start: no log line.
      && (o.StartFailed? ==>
            && env.stdout == old(env.stdout) && env.stderr == old(env.stderr) && env.fsLog == old(env.fsLog)
            && exitCode == 0 && err == Some(ExecFailed(child, o.cause)))
      // Otherwise one line is logged and the child's status returned, unless logging failed.
      && (o.Exited? ==>
            var line := RusageLine(usage, AbsCompilerPath(env.wd, compilerCmd.path), compilerCmd.args);
            var steps := LogSteps(env, logFileName, line);
            && env.fsLog == old(env.fsLog) + steps.0
            && err == steps.1
            && exitCode == (if err == None then o.code else 0))
  {
    var compilerCmdWithoutRusage := Command(compilerCmd.path, compilerCmd.args, compilerCmd.envUpdates + [ClearRusage]);
    var o := env.Run(compilerCmdWithoutRusage, true);
    exitCode, err := WrapSubprocessError(compilerCmdWithoutRusage, o).0, WrapSubprocessError(compilerCmdWithoutRusage, o).1;
    if err.Some? {
      return 0, err;
    }
    var absCompilerPath := compilerCmd.path;
    if !IsAbs(absCompilerPath) {
      absCompilerPath := PathJoin(env.Getwd(), absCompilerPath);
    }
    var line := Join([usage.elapsedReal, usage.elapsedUser, usage.elapsedSys, IntToString(usage.maxMemUsed),
                      absCompilerPath, Join([Base(absCompilerPath)] + compilerCmd.args, " ")], FieldSeparator) + "\n";
    assert line == RusageLine(usage, AbsCompilerPath(env.wd, compilerCmd.path), compilerCmd.args);
    err := AppendLogLine(env, logFileName, line);
    if err.Some? {
      return 0, err;
    }
    return exitCode, None;
  }
}
