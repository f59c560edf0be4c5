/**
 * Forwarding to, and comparing against, the legacy (Python) compiler wrapper.
 *
 * The legacy wrapper runs under a shim that prints one line per command it
 * would run, "command:<argv joined by spaces>.EnvUpdate:<env deltas joined by
 * spaces>", on its standard error. The new wrapper parses those lines back into
 * commands and compares them, index by index, with the commands it ran itself.
 */
module OldWrapper {
  import opened GoStrings
  import opened Sorting
  import opened Wrapper

  const ForwardToOldWrapperFilePattern := "old_wrapper_forward"
  const CompareToOldWrapperFilePattern := "old_wrapper_compare"
  const CommandPrefix := "command:"
  const EnvUpdatePrefix := ".EnvUpdate:"
  const OldWrapperInterpreter := "/usr/bin/python2"

  // ===========================================================================
  // Forwarding

  /** Whether the whole call goes to the legacy wrapper: GETRUSAGE or BISECT_STAGE is set and non-empty. */
  predicate ShouldForwardToOldWrapper(env: Env, inputCmd: Command)
    ensures ShouldForwardToOldWrapper(env, inputCmd) <==>
      exists name :: name in {"GETRUSAGE", "BISECT_STAGE"} && name in env.environ && env.environ[name] != ""
  {
    assert "GETRUSAGE" in {"GETRUSAGE", "BISECT_STAGE"} && "BISECT_STAGE" in {"GETRUSAGE", "BISECT_STAGE"};
    if env.Getenv("GETRUSAGE") != "" then true
    else env.Getenv("BISECT_STAGE") != ""
  }

  /** The command that runs the rendered shim: the interpreter with -S (no site
      customisation), the shim file, then the input's own arguments and env updates. */
  function OldWrapperCommand(shimFile: string, inputCmd: Command): (r: Command)
    ensures r.path == OldWrapperInterpreter && r.envUpdates == inputCmd.envUpdates
    ensures |r.args| == |inputCmd.args| + 2 && r.args[0] == "-S" && r.args[1] == shimFile
    ensures r.args[2..] == inputCmd.args
  {
    Command(OldWrapperInterpreter, ["-S", shimFile] + inputCmd.args, inputCmd.envUpdates)
  }

  /** Where newOldWrapperConfig looks for the legacy wrapper: an absolute path as
      given, a relative one inside the wrapper's own directory; None when that
      directory cannot be resolved. */
  function OldWrapperPath(env: Env, cfg: Config, inputCmd: Command): (r: Option<string>)
    ensures r.None? <==> !IsAbs(cfg.oldWrapperPath) && env.absWrapperDirOf(inputCmd.path).None?
    ensures IsAbs(cfg.oldWrapperPath) ==> r == Some(cfg.oldWrapperPath)
    // A relative path names a file inside the resolved directory `d`: the
    // directory without its trailing '/'s, one '/', then the configured path.
    ensures !IsAbs(cfg.oldWrapperPath) && env.absWrapperDirOf(inputCmd.path).Some? ==>
      var d, name := TrimTrailingSlashes(env.absWrapperDirOf(inputCmd.path).value), cfg.oldWrapperPath;
      && r.Some?
      && (env.absWrapperDirOf(inputCmd.path).value != [] && name != [] ==>
            |r.value| == |d| + 1 + |name| && r.value[..|d| + 1] == d + "/" && r.value[|d| + 1..] == name)
  {
    if IsAbs(cfg.oldWrapperPath) then Some(cfg.oldWrapperPath)
    else match env.absWrapperDirOf(inputCmd.path)
      case None => None
      case Some(dir) => Some(PathJoin(dir, cfg.oldWrapperPath))
  }

  /** Reading `path` succeeds: the step does not fail and the file exists. */
  predicate Readable(env: Env, path: string) {
    !env.fails(FsAction.ReadFile(path)) && path in env.sources
  }

  /** The shim configuration newOldWrapperConfig returns: the call's path, the
      legacy wrapper's content, the root and the three flag lists, with logging,
      mocking, recorded results and overwriting all unset. */
  function BaseShimConfig(content: string, cfg: Config, inputCmd: Command): OldWrapperConfig {
    OldWrapperConfig(inputCmd.path, content, cfg.rootRelPath, false, false, [], false, cfg.commonFlags, cfg.gccFlags, cfg.clangFlags)
  }

  /** newOldWrapperConfig: locate and read the legacy wrapper, and start a shim
      configuration from it and the configuration's flag lists. */
  method NewOldWrapperConfig(env: Env, cfg: Config, inputCmd: Command) returns (owCfg: OldWrapperConfig, err: Option<Error>)
    modifies env`fsLog
    ensures env.ran == old(env.ran) && env.stdout == old(env.stdout) && env.stderr == old(env.stderr)
    ensures var path := OldWrapperPath(env, cfg, inputCmd);
      if path.None? then
        err == Some(WrapperDirFailed(inputCmd.path)) && env.fsLog == old(env.fsLog)
      else
        && env.fsLog == old(env.fsLog) + [FsAction.ReadFile(path.value)]
        && (if Readable(env, path.value)
            then err == None && owCfg == BaseShimConfig(env.sources[path.value], cfg, inputCmd)
            else err == Some(StepFailed(FsAction.ReadFile(path.value))))
  {
    owCfg := OldWrapperConfig(inputCmd.path, "", cfg.rootRelPath, false, false, [], false, cfg.commonFlags, cfg.gccFlags, cfg.clangFlags);
    var absOldWrapperPath := cfg.oldWrapperPath;
    if !IsAbs(absOldWrapperPath) {
      var absWrapperDir := env.absWrapperDirOf(inputCmd.path);
      if absWrapperDir.None? {
        return owCfg, Some(WrapperDirFailed(inputCmd.path));
      }
      absOldWrapperPath := PathJoin(absWrapperDir.value, cfg.oldWrapperPath);
    }
    var oldWrapperContent, ok := env.ReadFile(absOldWrapperPath);
    if !ok {
      return owCfg, Some(StepFailed(FsAction.ReadFile(absOldWrapperPath)));
    }
    owCfg := owCfg.(oldWrapperContent := oldWrapperContent);
    err := None;
  }

  /** The file-system steps of callOldWrapper for the shim file `shim`: create it,
      write and close it, stopping at the first failure, and remove it again once
      it exists. */
  function ShimSteps(fails: FsAction -> bool, shim: string, c: OldWrapperConfig): seq<FsAction>
  {
    if fails(CreateTemp(shim)) then [CreateTemp(shim)]
    else if fails(WriteShim(shim, c)) then [CreateTemp(shim), WriteShim(shim, c), Remove(shim)]
    else [CreateTemp(shim), WriteShim(shim, c), CloseFile(shim), Remove(shim)]
  }

  /** The error of the first failing shim step, if any; the shim runs only without one. */
  function ShimError(fails: FsAction -> bool, shim: string, c: OldWrapperConfig): Option<Error>
  {
    if fails(CreateTemp(shim)) then Some(StepFailed(CreateTemp(shim)))
    else if fails(WriteShim(shim, c)) then Some(StepFailed(WriteShim(shim, c)))
    else if fails(CloseFile(shim)) then Some(StepFailed(CloseFile(shim)))
    else None
  }

  /** The shim is removed on every path after it was created, exactly once and
      as the last step; the error, when there is one, names a logged step that
      failed, and every step before it succeeded. */
  lemma ShimRemovedOnceCreated(fails: FsAction -> bool, shim: string, c: OldWrapperConfig)
    ensures var steps, err := ShimSteps(fails, shim, c), ShimError(fails, shim, c);
      && steps != [] && steps[0] == CreateTemp(shim)
      && (!fails(CreateTemp(shim)) <==> steps[|steps| - 1] == Remove(shim))
      && (forall k :: 0 <= k < |steps| - 1 ==> steps[k] != Remove(shim))
      && (err.Some? ==> err.value.StepFailed? && err.value.action in steps && fails(err.value.action))
      && (forall k :: 0 <= k < |steps| && steps[k] != Remove(shim) && fails(steps[k]) ==> err == Some(StepFailed(steps[k])))
      && (err.None? <==> CloseFile(shim) in steps && !fails(CloseFile(shim)) && !fails(WriteShim(shim, c)) && !fails(CreateTemp(shim)))
  {
  }

  /** The first half of callOldWrapper: create a temp file and render the shim
      into it. A file that was created but could not be written or closed is
      removed again (the deferred removal). */
  method WriteShimFile(env: Env, cfg: OldWrapperConfig, filePattern: string) returns (shim: string, err: Option<Error>)
    modifies env`fsLog
    ensures shim == TempName(env.tempDir, filePattern, env.randomPart(|old(env.fsLog)|))
    ensures err == ShimError(env.fails, shim, cfg)
    ensures err.Some? ==> env.fsLog == old(env.fsLog) + ShimSteps(env.fails, shim, cfg)
    ensures err.None? ==> env.fsLog + [Remove(shim)] == old(env.fsLog) + ShimSteps(env.fails, shim, cfg)
  {
    ghost var log0 := env.fsLog;
    var ok;
    shim, ok := env.TempFile("", filePattern);
    if !ok {
      return shim, Some(StepFailed(CreateTemp(shim)));
    }
    // The template engine renders the shim from `cfg`; the file is modelled by that configuration.
    ok := env.Attempt(WriteShim(shim, cfg));
    if !ok {
      var _ := env.Attempt(Remove(shim));
      assert env.fsLog == log0 + [CreateTemp(shim), WriteShim(shim, cfg), Remove(shim)];
      return shim, Some(StepFailed(WriteShim(shim, cfg)));
    }
    ok := env.Attempt(CloseFile(shim));
    assert env.fsLog == log0 + [CreateTemp(shim), WriteShim(shim, cfg), CloseFile(shim)];
    if !ok {
      var _ := env.Attempt(Remove(shim));
      return shim, Some(StepFailed(CloseFile(shim)));
    }
    err := None;
  }

  /** callOldWrapper: write the shim to a fresh temp file, run it, and remove the
      file again on every path after it was created. Output goes to the real
      streams when `passthrough`, otherwise into the returned buffers. */
  method CallOldWrapper(env: Env, cfg: OldWrapperConfig, inputCmd: Command, filePattern: string, passthrough: bool)
    returns (exitCode: int, stdoutBuffer: string, stderrBuffer: string, err: Option<Error>)
    modifies env
    ensures var shim := TempName(env.tempDir, filePattern, env.randomPart(|old(env.fsLog)|));
      && env.fsLog == old(env.fsLog) + ShimSteps(env.fails, shim, cfg)
      && if ShimError(env.fails, shim, cfg).Some? then
        && env.ran == old(env.ran) && env.stdout == old(env.stdout) && env.stderr == old(env.stderr)
        && exitCode == 0 && err == ShimError(env.fails, shim, cfg)
        && stdoutBuffer == "" && stderrBuffer == ""
      else
        var cmd := OldWrapperCommand(shim, inputCmd);
        var o := env.outcomeOf(|old(env.ran)|, cmd);
        && env.ran == old(env.ran) + [cmd]
        && (exitCode, err) == WrapSubprocessError(cmd, o)
        && (if passthrough && o.Exited? then env.stdout == old(env.stdout) + o.stdout && env.stderr == old(env.stderr) + o.stderr
            else env.stdout == old(env.stdout) && env.stderr == old(env.stderr))
        && (if !passthrough && o.Exited? then stdoutBuffer == o.stdout && stderrBuffer == o.stderr
            else stdoutBuffer == "" && stderrBuffer == "")
  {
    stdoutBuffer, stderrBuffer := "", "";
    var mockFile;
    mockFile, err := WriteShimFile(env, cfg, filePattern);
    if err.Some? {
      return 0, stdoutBuffer, stderrBuffer, err;
    }
    ghost var log1 := env.fsLog;
    var oldWrapperCmd := OldWrapperCommand(mockFile, inputCmd);
    var o := env.Run(oldWrapperCmd, passthrough);
    if !passthrough && o.Exited? {
      stdoutBuffer, stderrBuffer := o.stdout, o.stderr;
    }
    exitCode, err := WrapSubprocessError(oldWrapperCmd, o).0, WrapSubprocessError(oldWrapperCmd, o).1;
    var _ := env.Attempt(Remove(mockFile));
    assert env.fsLog == log1 + [Remove(mockFile)];
  }

  /** forwardToOldWrapper: the legacy wrapper does the whole call, with the real
      output streams and a shim that neither logs nor mocks. Every error of
      newOldWrapperConfig and callOldWrapper comes back unchanged. */
  method ForwardToOldWrapper(env: Env, cfg: Config, inputCmd: Command) returns (exitCode: int, err: Option<Error>)
    modifies env
    ensures var path := OldWrapperPath(env, cfg, inputCmd);
      if path.None? then
        && exitCode == 0 && err == Some(WrapperDirFailed(inputCmd.path))
        && env.ran == old(env.ran) && env.fsLog == old(env.fsLog)
        && env.stdout == old(env.stdout) && env.stderr == old(env.stderr)
      else if !Readable(env, path.value) then
        && exitCode == 0 && err == Some(StepFailed(FsAction.ReadFile(path.value)))
        && env.ran == old(env.ran) && env.fsLog == old(env.fsLog) + [FsAction.ReadFile(path.value)]
        && env.stdout == old(env.stdout) && env.stderr == old(env.stderr)
      else
        var c := BaseShimConfig(env.sources[path.value], cfg, inputCmd);
        var shim := TempName(env.tempDir, ForwardToOldWrapperFilePattern, env.randomPart(|old(env.fsLog)| + 1));
        && env.fsLog == old(env.fsLog) + [FsAction.ReadFile(path.value)] + ShimSteps(env.fails, shim, c)
        && if ShimError(env.fails, shim, c).Some? then
          && exitCode == 0 && err == ShimError(env.fails, shim, c)
          && env.ran == old(env.ran) && env.stdout == old(env.stdout) && env.stderr == old(env.stderr)
        else
          var cmd := OldWrapperCommand(shim, inputCmd);
          var o := env.outcomeOf(|old(env.ran)|, cmd);
          && env.ran == old(env.ran) + [cmd]
          && (exitCode, err) == WrapSubprocessError(cmd, o)
          && (if o.Exited? then env.stdout == old(env.stdout) + o.stdout && env.stderr == old(env.stderr) + o.stderr
              else env.stdout == old(env.stdout) && env.stderr == old(env.stderr))
  {
    var oldWrapperCfg;
    oldWrapperCfg, err := NewOldWrapperConfig(env, cfg, inputCmd);
    if err.Some? {
      return 0, err;
    }
    var forwardedStdout, forwardedStderr;
    exitCode, forwardedStdout, forwardedStderr, err := CallOldWrapper(env, oldWrapperCfg, inputCmd, ForwardToOldWrapperFilePattern, true);
  }

  // ===========================================================================
  // Parsing the shim's command log

  /** The line the shim prints for a command it runs (serialize_cmd). */
  function SerializeCommand(c: Command): string
  {
    CommandPrefix + Join([c.path] + c.args, " ") + EnvUpdatePrefix + Join(c.envUpdates, " ")
  }

  /** The shim's standard error after it ran `cmds`: one printed line per command. */
  function ShimLog(cmds: seq<Command>): string
  {
    if cmds == [] then "" else SerializeCommand(cmds[0]) + "\n" + ShimLog(cmds[1..])
  }

  /** A command whose log line reads back as itself: every word non-empty and
      free of white space, and no word of the command line holding the marker. */
  predicate Loggable(c: Command) {
    var argv := [c.path] + c.args;
    && AllWords(argv) && AllWords(c.envUpdates)
    && forall i :: 0 <= i < |argv| ==> !Contains(argv[i], EnvUpdatePrefix)
  }

  predicate IsCommandLine(line: string) {
    Index(line, CommandPrefix) == 0
  }

  /** The marker cannot start inside the "command:" prefix, which has no '.'. */
  lemma MarkerNotInPrefix(line: string)
    requires IsCommandLine(line)
    ensures forall k :: 0 <= k < |CommandPrefix| ==> !OccursAt(line, EnvUpdatePrefix, k)
  {
    assert line[..|CommandPrefix|] == CommandPrefix;
    forall k | 0 <= k < |CommandPrefix| ensures !OccursAt(line, EnvUpdatePrefix, k) {
      assert line[k] == CommandPrefix[k] != '.';
      if k + |EnvUpdatePrefix| <= |line| {
        assert line[k..k + |EnvUpdatePrefix|][0] == line[k];
      }
    }
  }

  /** The command on a "command:" line, or None where the source panics: a line
      without the ".EnvUpdate:" marker makes a slice go out of range, and a line
      with no field before the marker makes `args[0]` go out of range. */
  function ParseCommandLine(line: string): (r: Option<Command>)
    requires IsCommandLine(line)
  {
    MarkerNotInPrefix(line);
    var envUpdateIdx := Index(line, EnvUpdatePrefix);
    if envUpdateIdx < 0 then None
    else
      var args := Fields(line[|CommandPrefix|..envUpdateIdx]);
      var envUpdate := Fields(line[envUpdateIdx + |EnvUpdatePrefix|..]);
      if args == [] then None else Some(Command(args[0], args[1..], envUpdate))
  }

  /** Every command line among `lines` parses (no panic). */
  predicate AllParse(lines: seq<string>) {
    forall i :: 0 <= i < |lines| ==> IsCommandLine(lines[i]) ==> ParseCommandLine(lines[i]).Some?
  }

  /** The commands of the command lines, in order. */
  function ParsedCommands(lines: seq<string>): seq<Command>
    requires AllParse(lines)
  {
    if lines == [] then []
    else
      var init, last := lines[..|lines| - 1], lines[|lines| - 1];
      assert forall i :: 0 <= i < |init| ==> init[i] == lines[i];
      ParsedCommands(init) + (if IsCommandLine(last) then [ParseCommandLine(last).value] else [])
  }

  /** The other lines, in order. */
  function OtherLines(lines: seq<string>): seq<string>
  {
    if lines == [] then []
    else
      var init, last := lines[..|lines| - 1], lines[|lines| - 1];
      OtherLines(init) + (if IsCommandLine(last) then [] else [last])
  }

  datatype ParseResult = Parsed(cmds: seq<Command>, remainingStderr: string) | Panicked

  /** What parseOldWrapperCommands computes from the shim's standard error. */
  function ParseSpec(stderr: string): ParseResult
  {
    var lines := Split(stderr, '\n');
    if AllParse(lines) then Parsed(ParsedCommands(lines), TrimSpace(Join(OtherLines(lines), "\n")))
    else Panicked
  }

  lemma ParseStep(lines: seq<string>, line: string)
    ensures AllParse(lines + [line]) <==> AllParse(lines) && (IsCommandLine(line) ==> ParseCommandLine(line).Some?)
    ensures OtherLines(lines + [line]) == OtherLines(lines) + (if IsCommandLine(line) then [] else [line])
    ensures AllParse(lines + [line]) ==>
      ParsedCommands(lines + [line]) == ParsedCommands(lines) + (if IsCommandLine(line) then [ParseCommandLine(line).value] else [])
  {
    assert (lines + [line])[..|lines|] == lines;
    assert forall i :: 0 <= i < |lines| ==> (lines + [line])[i] == lines[i];
    assert (lines + [line])[|lines|] == line;
  }

  /** parseOldWrapperCommands */
  method ParseOldWrapperCommands(stderr: string) returns (r: ParseResult)
    ensures r == ParseSpec(stderr)
  {
    var allStderrLines := Split(stderr, '\n');
    var cmds: seq<Command> := [];
    var remainingStderrLines: seq<string> := [];
    for i := 0 to |allStderrLines|
      invariant AllParse(allStderrLines[..i])
      invariant cmds == ParsedCommands(allStderrLines[..i])
      invariant remainingStderrLines == OtherLines(allStderrLines[..i])
    {
      var line := allStderrLines[i];
      assert allStderrLines[..i + 1] == allStderrLines[..i] + [line];
      ParseStep(allStderrLines[..i], line);
      var envUpdateIdx := Index(line, EnvUpdatePrefix);
      if Index(line, CommandPrefix) == 0 {
        if envUpdateIdx == -1 {
          assert ParseCommandLine(line).None?;
          assert !AllParse(allStderrLines) by {
            assert allStderrLines[i] == line;
          }
          return Panicked;
        }
        MarkerNotInPrefix(line);
        var args := Fields(line[|CommandPrefix|..envUpdateIdx]);
        var envUpdate := Fields(line[envUpdateIdx + |EnvUpdatePrefix|..]);
        if |args| == 0 {
          assert ParseCommandLine(line).None?;
          assert !AllParse(allStderrLines) by {
            assert allStderrLines[i] == line;
          }
          return Panicked;
        }
        assert ParseCommandLine(line) == Some(Command(args[0], args[1..], envUpdate));
        cmds := cmds + [Command(args[0], args[1..], envUpdate)];
      } else {
        remainingStderrLines := remainingStderrLines + [line];
      }
    }
    assert allStderrLines[..|allStderrLines|] == allStderrLines;
    r := Parsed(cmds, TrimSpace(Join(remainingStderrLines, "\n")));
  }

  /** How many of `lines` are command lines. */
  function CountCommandLines(lines: seq<string>): nat
  {
    if lines == [] then 0 else (if IsCommandLine(lines[0]) then 1 else 0) + CountCommandLines(lines[1..])
  }

  lemma {:induction false} CountCommandLinesSnoc(lines: seq<string>, line: string)
    ensures CountCommandLines(lines + [line]) == CountCommandLines(lines) + (if IsCommandLine(line) then 1 else 0)
  {
    if lines != [] {
      assert (lines + [line])[1..] == lines[1..] + [line];
      CountCommandLinesSnoc(lines[1..], line);
    } else {
      assert ([] + [line])[1..] == [];
    }
  }

  /** Every line is either parsed into a command or kept as stderr, and never
      both: the kept lines are exactly the lines that are not command lines, and
      there is one command per command line, each parsed from its line. */
  lemma {:induction false} ParsePartitionsLines(lines: seq<string>)
    requires AllParse(lines)
    ensures forall x :: x in OtherLines(lines) <==> x in lines && !IsCommandLine(x)
    ensures forall i :: 0 <= i < |lines| && IsCommandLine(lines[i]) ==> ParseCommandLine(lines[i]).value in ParsedCommands(lines)
    ensures |ParsedCommands(lines)| == CountCommandLines(lines)
    ensures |ParsedCommands(lines)| + |OtherLines(lines)| == |lines|
  {
    if lines != [] {
      var init, last := lines[..|lines| - 1], lines[|lines| - 1];
      assert lines == init + [last];
      assert forall i :: 0 <= i < |init| ==> init[i] == lines[i];
      ParsePartitionsLines(init);
      ParseStep(init, last);
      CountCommandLinesSnoc(init, last);
      forall i | 0 <= i < |lines| && IsCommandLine(lines[i])
        ensures ParseCommandLine(lines[i]).value in ParsedCommands(lines)
      {
        if i < |init| {
          assert lines[i] == init[i];
        }
      }
    }
  }

  /** Parsing a stream of lines works line by line. */
  lemma ParseOfLines(lines: seq<string>)
    requires |lines| >= 1
    requires forall i :: 0 <= i < |lines| ==> Excludes(lines[i], '\n')
    ensures ParseSpec(Join(lines, "\n")) ==
      if AllParse(lines) then Parsed(ParsedCommands(lines), TrimSpace(Join(OtherLines(lines), "\n"))) else Panicked
  {
    SplitOfJoin(lines, '\n');
  }

  /** No occurrence of a space-free needle in a space-joined list of strings that lack it. */
  lemma {:induction false} JoinLacks(xs: seq<string>, m: string)
    requires m != [] && Excludes(m, ' ')
    requires forall i :: 0 <= i < |xs| ==> !Contains(xs[i], m)
    ensures !Contains(Join(xs, " "), m)
  {
    if |xs| > 1 {
      JoinLacks(xs[1..], m);
      var x, t, s := xs[0], Join(xs[1..], " "), Join(xs, " ");
      assert s == x + " " + t;
      assert !Contains(x, m);
      forall k | 0 <= k ensures !OccursAt(s, m, k) {
        if k + |m| <= |x| {
          assert s[k..k + |m|] == x[k..k + |m|];
          assert !OccursAt(x, m, k);
        } else if k <= |x| {
          if k + |m| <= |s| {
            assert s[k..k + |m|][|x| - k] == s[|x|] == ' ';
            assert m[|x| - k] != ' ';
          }
        } else {
          assert !OccursAt(t, m, k - |x| - 1);
          if k + |m| <= |s| {
            assert s[k..k + |m|] == t[k - |x| - 1..k - |x| - 1 + |m|];
          }
        }
      }
    }
  }

  /** In "command:" + j + ".EnvUpdate:" + e, with no marker in j, the marker first occurs right after j. */
  lemma {:induction false} MarkerAfterCommandLine(j: string, e: string)
    requires !Contains(j, EnvUpdatePrefix)
    ensures var line := CommandPrefix + j + EnvUpdatePrefix + e;
      Index(line, EnvUpdatePrefix) == |CommandPrefix| + |j|
  {
    var p := CommandPrefix + j;
    var line := p + EnvUpdatePrefix + e;
    forall k | 0 <= k < |p| ensures !OccursAt(line, EnvUpdatePrefix, k) {
      if k + |EnvUpdatePrefix| <= |line| {
        var w := line[k..k + |EnvUpdatePrefix|];
        if k < |CommandPrefix| {
          assert w[0] == line[k] == CommandPrefix[k] != '.';
          assert EnvUpdatePrefix[0] == '.';
        } else if k + |EnvUpdatePrefix| <= |p| {
          assert w == j[k - |CommandPrefix|..k - |CommandPrefix| + |EnvUpdatePrefix|];
          assert !OccursAt(j, EnvUpdatePrefix, k - |CommandPrefix|);
        } else {
          assert w[|p| - k] == line[|p|] == '.';
          assert EnvUpdatePrefix[|p| - k] != '.';
        }
        assert w != EnvUpdatePrefix;
      }
    }
    assert line[|p|..|p| + |EnvUpdatePrefix|] == EnvUpdatePrefix;
    assert OccursAt(line, EnvUpdatePrefix, |p|);
  }

  lemma StartsWithCommandPrefix(rest: string)
    ensures IsCommandLine(CommandPrefix + rest)
  {
    assert (CommandPrefix + rest)[..|CommandPrefix|] == CommandPrefix;
    assert OccursAt(CommandPrefix + rest, CommandPrefix, 0);
  }

  /** The parser reads a logged command back as the command that was logged. */
  lemma ParseSerializedCommand(c: Command)
    requires Loggable(c)
    ensures IsCommandLine(SerializeCommand(c))
    ensures ParseCommandLine(SerializeCommand(c)) == Some(c)
  {
    var argv := [c.path] + c.args;
    var j, e := Join(argv, " "), Join(c.envUpdates, " ");
    var line := SerializeCommand(c);
    assert line == CommandPrefix + j + EnvUpdatePrefix + e;
    StartsWithCommandPrefix(j + EnvUpdatePrefix + e);
    JoinLacks(argv, EnvUpdatePrefix);
    MarkerAfterCommandLine(j, e);
    var idx := Index(line, EnvUpdatePrefix);
    assert line[|CommandPrefix|..idx] == j;
    assert line[idx + |EnvUpdatePrefix|..] == e;
    FieldsOfJoin(argv);
    FieldsOfJoin(c.envUpdates);
  }

  lemma SerializedLineHasNoNewline(c: Command)
    requires Loggable(c)
    ensures Excludes(SerializeCommand(c), '\n')
  {
    var argv := [c.path] + c.args;
    forall i | 0 <= i < |argv| ensures Excludes(argv[i], '\n') {
      assert IsWord(argv[i]);
    }
    forall i | 0 <= i < |c.envUpdates| ensures Excludes(c.envUpdates[i], '\n') {
      assert IsWord(c.envUpdates[i]);
    }
    JoinExcludes(argv, " ", '\n');
    JoinExcludes(c.envUpdates, " ", '\n');
  }

  function LogLines(cmds: seq<Command>): seq<string>
  {
    seq(|cmds|, i requires 0 <= i < |cmds| => SerializeCommand(cmds[i]))
  }

  lemma {:induction false} SplitShimLog(cmds: seq<Command>)
    requires forall i :: 0 <= i < |cmds| ==> Loggable(cmds[i])
    ensures Split(ShimLog(cmds), '\n') == LogLines(cmds) + [""]
  {
    if cmds != [] {
      SerializedLineHasNoNewline(cmds[0]);
      SplitAfterPiece(SerializeCommand(cmds[0]), '\n', ShimLog(cmds[1..]));
      assert SerializeCommand(cmds[0]) + "\n" + ShimLog(cmds[1..]) == SerializeCommand(cmds[0]) + ['\n'] + ShimLog(cmds[1..]);
      SplitShimLog(cmds[1..]);
      assert LogLines(cmds) == [SerializeCommand(cmds[0])] + LogLines(cmds[1..]);
    }
  }

  lemma LogLinesSnoc(cmds: seq<Command>, c: Command)
    ensures LogLines(cmds + [c]) == LogLines(cmds) + [SerializeCommand(c)]
  {
  }

  lemma {:induction false} ParsedLogLines(cmds: seq<Command>)
    requires forall i :: 0 <= i < |cmds| ==> Loggable(cmds[i])
    ensures AllParse(LogLines(cmds))
    ensures ParsedCommands(LogLines(cmds)) == cmds
    ensures OtherLines(LogLines(cmds)) == []
  {
    if cmds != [] {
      var init, last := cmds[..|cmds| - 1], cmds[|cmds| - 1];
      assert cmds == init + [last];
      LogLinesSnoc(init, last);
      assert forall i :: 0 <= i < |init| ==> init[i] == cmds[i];
      ParsedLogLines(init);
      ParseSerializedCommand(last);
      ParseStep(LogLines(init), SerializeCommand(last));
    }
  }

  /** The shim's lines, with the empty piece after the final newline, parse to its commands and leave only that piece. */
  lemma ParseOfLogLinesAndTail(cmds: seq<Command>)
    requires forall i :: 0 <= i < |cmds| ==> Loggable(cmds[i])
    ensures AllParse(LogLines(cmds) + [""])
    ensures ParsedCommands(LogLines(cmds) + [""]) == cmds
    ensures OtherLines(LogLines(cmds) + [""]) == [""]
  {
    ParsedLogLines(cmds);
    assert !IsCommandLine("");
    ParseStep(LogLines(cmds), "");
    assert cmds + [] == cmds;
  }

  /** Everything the shim logs reads back as the commands it ran, in order, with no stderr left over. */
  lemma ParseOfShimLog(cmds: seq<Command>)
    requires forall i :: 0 <= i < |cmds| ==> Loggable(cmds[i])
    ensures ParseSpec(ShimLog(cmds)) == Parsed(cmds, "")
  {
    SplitShimLog(cmds);
    ParseOfLogLinesAndTail(cmds);
    assert Join([""], "\n") == "";
    assert TrimSpace("") == "";
  }

  // ===========================================================================
  // Comparing command lists

  function Max(a: int, b: int): int { if a < b then b else a }
  function Min(a: int, b: int): int { if a < b then a else b }

  /** The two commands agree up to the order of their environment updates. */
  predicate SameCommand(a: Command, b: Command) {
    a.path == b.path && a.args == b.args && multiset(a.envUpdates) == multiset(b.envUpdates)
  }

  predicate SameCommands(oldCmds: seq<Command>, newCmds: seq<Command>) {
    |oldCmds| == |newCmds| && forall i :: 0 <= i < |oldCmds| ==> SameCommand(oldCmds[i], newCmds[i])
  }

  /** The differences reported at index `i`: "missing command" past the end of
      the new list, "extra command" past the end of the old one, otherwise the
      fields that differ, in the order path, args, env updates. */
  function IndexDifferences(oldCmds: seq<Command>, newCmds: seq<Command>, i: nat): (r: seq<string>)
    requires i < Max(|oldCmds|, |newCmds|)
    ensures i >= |newCmds| ==> r == ["missing command"]
    ensures |oldCmds| <= i < |newCmds| ==> r == ["extra command"]
    ensures i < |oldCmds| && i < |newCmds| ==> |r| <= 3 && (r == [] <==> SameCommand(oldCmds[i], newCmds[i]))
  {
    if i >= |newCmds| then ["missing command"]
    else if i >= |oldCmds| then ["extra command"]
    else FieldDifferences(oldCmds[i], newCmds[i])
  }

  /** The fields in which two paired commands differ; env updates are compared
      irrespective of order (the source compares sorted copies, see DiffCommands). */
  function FieldDifferences(o: Command, n: Command): (r: seq<string>)
  {
    (if n.path != o.path then ["path"] else [])
    + (if n.args != o.args then ["args"] else [])
    + (if multiset(n.envUpdates) != multiset(o.envUpdates) then ["env updates"] else [])
  }

  /** Each field is named exactly when it differs. */
  lemma FieldDifferencesNameChanges(o: Command, n: Command)
    ensures var r := FieldDifferences(o, n);
      && ("path" in r <==> o.path != n.path)
      && ("args" in r <==> o.args != n.args)
      && ("env updates" in r <==> multiset(o.envUpdates) != multiset(n.envUpdates))
  {
    NamedIff(n.path != o.path, n.args != o.args, multiset(n.envUpdates) != multiset(o.envUpdates));
  }

  lemma NamedIff(pathDiffers: bool, argsDiffer: bool, envDiffers: bool)
    ensures var r := (if pathDiffers then ["path"] else []) + (if argsDiffer then ["args"] else [])
                     + (if envDiffers then ["env updates"] else []);
      && ("path" in r <==> pathDiffers)
      && ("args" in r <==> argsDiffer)
      && ("env updates" in r <==> envDiffers)
  {
    assert "path"[0] != "args"[0];
  }

  /** One line of the report: "Index <i>: " and the differences, or "none". */
  function Entry(i: nat, differences: seq<string>): string
  {
    "Index " + IntToString(i) + ": " + Join(if differences == [] then ["none"] else differences, ",")
  }

  /** The report lines for the indices below `i`, in order. */
  function EntriesBefore(oldCmds: seq<Command>, newCmds: seq<Command>, i: nat): (r: seq<string>)
    requires i <= Max(|oldCmds|, |newCmds|)
    ensures |r| == i
  {
    if i == 0 then []
    else EntriesBefore(oldCmds, newCmds, i - 1) + [Entry(i - 1, IndexDifferences(oldCmds, newCmds, i - 1))]
  }

  /** Some index below `i` has a difference. */
  predicate DiffersBefore(oldCmds: seq<Command>, newCmds: seq<Command>, i: nat)
    requires i <= Max(|oldCmds|, |newCmds|)
  {
    i > 0 && (DiffersBefore(oldCmds, newCmds, i - 1) || IndexDifferences(oldCmds, newCmds, i - 1) != [])
  }

  function DiffEntries(oldCmds: seq<Command>, newCmds: seq<Command>): (r: seq<string>)
    ensures |r| == Max(|oldCmds|, |newCmds|)
  {
    EntriesBefore(oldCmds, newCmds, Max(|oldCmds|, |newCmds|))
  }

  predicate HasDifferences(oldCmds: seq<Command>, newCmds: seq<Command>) {
    DiffersBefore(oldCmds, newCmds, Max(|oldCmds|, |newCmds|))
  }

  /** What diffCommands returns (without the dump of both lists). */
  function DiffReport(oldCmds: seq<Command>, newCmds: seq<Command>): string
  {
    if HasDifferences(oldCmds, newCmds) then "commands differ:\n" + Join(DiffEntries(oldCmds, newCmds), "\n") else ""
  }

  /** Line `j` of the report is the entry for index `j`. */
  lemma {:induction false} EntriesBeforeAt(oldCmds: seq<Command>, newCmds: seq<Command>, i: nat, j: nat)
    requires j < i <= Max(|oldCmds|, |newCmds|)
    ensures EntriesBefore(oldCmds, newCmds, i)[j] == Entry(j, IndexDifferences(oldCmds, newCmds, j))
  {
    if j < i - 1 {
      EntriesBeforeAt(oldCmds, newCmds, i - 1, j);
    }
  }

  lemma {:induction false} DiffersBeforeIff(oldCmds: seq<Command>, newCmds: seq<Command>, i: nat)
    requires i <= Max(|oldCmds|, |newCmds|)
    ensures DiffersBefore(oldCmds, newCmds, i) <==> exists j :: 0 <= j < i && IndexDifferences(oldCmds, newCmds, j) != []
  {
    if i > 0 {
      DiffersBeforeIff(oldCmds, newCmds, i - 1);
      if DiffersBefore(oldCmds, newCmds, i) {
        if !DiffersBefore(oldCmds, newCmds, i - 1) {
          assert IndexDifferences(oldCmds, newCmds, i - 1) != [];
        }
      } else {
        forall j | 0 <= j < i ensures IndexDifferences(oldCmds, newCmds, j) == [] {
          if j < i - 1 {
            assert !DiffersBefore(oldCmds, newCmds, i - 1);
          }
        }
      }
    }
  }

  /** The report has one line per index of the longer list, each naming that index's differences. */
  lemma DiffEntryAt(oldCmds: seq<Command>, newCmds: seq<Command>, i: nat)
    requires i < Max(|oldCmds|, |newCmds|)
    ensures DiffEntries(oldCmds, newCmds)[i] == Entry(i, IndexDifferences(oldCmds, newCmds, i))
  {
    EntriesBeforeAt(oldCmds, newCmds, Max(|oldCmds|, |newCmds|), i);
  }

  /** `after` is `before` with its env updates sorted: the same path and args,
      and a sorted permutation of the env updates. */
  predicate EnvSorted(before: Command, after: Command) {
    && after.path == before.path && after.args == before.args
    && Sorted(after.envUpdates) && multiset(after.envUpdates) == multiset(before.envUpdates)
  }

  /** A list as diffCommands leaves it after visiting the indices below `i`:
      the commands at indices the other list (of length `otherLen`) also has
      carry their env updates sorted in place, all others are untouched. */
  predicate SortedBelow(before: seq<Command>, after: seq<Command>, i: nat, otherLen: nat) {
    && |after| == |before|
    && forall k :: 0 <= k < |before| ==>
         if k < i && k < otherLen then EnvSorted(before[k], after[k]) else after[k] == before[k]
  }

  lemma SortedBelowSkip(before: seq<Command>, after: seq<Command>, i: nat, otherLen: nat)
    requires SortedBelow(before, after, i, otherLen) && (|before| <= i || otherLen <= i)
    ensures SortedBelow(before, after, i + 1, otherLen)
  {
  }

  lemma SortedBelowStep(before: seq<Command>, after: seq<Command>, i: nat, otherLen: nat, sorted: Command)
    requires SortedBelow(before, after, i, otherLen) && i < |before| && i < otherLen
    requires EnvSorted(after[i], sorted)
    ensures SortedBelow(before, after[i := sorted], i + 1, otherLen)
  {
  }

  /** The comparison diffCommands makes at an index present in both lists; it
      also yields the sorted env updates the source leaves in both commands. */
  method CompareFields(oldCmd: Command, newCmd: Command) returns (differences: seq<string>, newEnvUpdates: seq<string>, oldEnvUpdates: seq<string>)
    ensures differences == FieldDifferences(oldCmd, newCmd)
    ensures Sorted(newEnvUpdates) && multiset(newEnvUpdates) == multiset(newCmd.envUpdates)
    ensures Sorted(oldEnvUpdates) && multiset(oldEnvUpdates) == multiset(oldCmd.envUpdates)
  {
    differences := [];
    if newCmd.path != oldCmd.path {
      differences := differences + ["path"];
    }
    if newCmd.args != oldCmd.args {
      differences := differences + ["args"];
    }
    // Sort the environment as the order in which it was modified does not matter.
    newEnvUpdates := SortStrings(newCmd.envUpdates);
    oldEnvUpdates := SortStrings(oldCmd.envUpdates);
    SortedEqualIff(newCmd.envUpdates, oldCmd.envUpdates, newEnvUpdates, oldEnvUpdates);
    if newEnvUpdates != oldEnvUpdates {
      differences := differences + ["env updates"];
    }
  }

  /** One iteration of diffCommands' loop: the report line for index `i`, whether
      that index differs, and both lists with the env updates at `i` sorted in
      place when both lists have a command there. */
  method DiffAt(oldCmds: seq<Command>, newCmds: seq<Command>, oldAfter: seq<Command>, newAfter: seq<Command>, i: nat)
    returns (entry: string, differs: bool, oldNext: seq<Command>, newNext: seq<Command>)
    requires i < Max(|oldCmds|, |newCmds|)
    requires SortedBelow(oldCmds, oldAfter, i, |newCmds|)
    requires SortedBelow(newCmds, newAfter, i, |oldCmds|)
    ensures entry == Entry(i, IndexDifferences(oldCmds, newCmds, i))
    ensures differs == (IndexDifferences(oldCmds, newCmds, i) != [])
    ensures SortedBelow(oldCmds, oldNext, i + 1, |newCmds|)
    ensures SortedBelow(newCmds, newNext, i + 1, |oldCmds|)
  {
    oldNext, newNext := oldAfter, newAfter;
    var differences: seq<string> := [];
    if i >= |newCmds| {
      differences := differences + ["missing command"];
      SortedBelowSkip(oldCmds, oldAfter, i, |newCmds|);
      SortedBelowSkip(newCmds, newAfter, i, |oldCmds|);
    } else if i >= |oldCmds| {
      differences := differences + ["extra command"];
      SortedBelowSkip(oldCmds, oldAfter, i, |newCmds|);
      SortedBelowSkip(newCmds, newAfter, i, |oldCmds|);
    } else {
      var newCmd := newAfter[i];
      var oldCmd := oldAfter[i];
      var newEnvUpdates, oldEnvUpdates;
      differences, newEnvUpdates, oldEnvUpdates := CompareFields(oldCmd, newCmd);
      SortedBelowStep(newCmds, newAfter, i, |oldCmds|, newCmd.(envUpdates := newEnvUpdates));
      newNext := newAfter[i := newCmd.(envUpdates := newEnvUpdates)];
      SortedBelowStep(oldCmds, oldAfter, i, |newCmds|, oldCmd.(envUpdates := oldEnvUpdates));
      oldNext := oldAfter[i := oldCmd.(envUpdates := oldEnvUpdates)];
    }
    assert differences == IndexDifferences(oldCmds, newCmds, i);
    differs := |differences| > 0;
    if !differs {
      differences := ["none"];
    }
    entry := "Index " + IntToString(i) + ": " + Join(differences, ",");
  }

  /** diffCommands */
  method DiffCommands(oldCmds: seq<Command>, newCmds: seq<Command>) returns (report: string, oldAfter: seq<Command>, newAfter: seq<Command>)
    ensures report == DiffReport(oldCmds, newCmds)
    ensures SortedBelow(oldCmds, oldAfter, Max(|oldCmds|, |newCmds|), |newCmds|)
    ensures SortedBelow(newCmds, newAfter, Max(|oldCmds|, |newCmds|), |oldCmds|)
  {
    var maxLen := |newCmds|;
    if maxLen < |oldCmds| {
      maxLen := |oldCmds|;
    }
    var hasDifferences := false;
    var cmdDifferences: seq<string> := [];
    oldAfter, newAfter := oldCmds, newCmds;
    for i := 0 to maxLen
      invariant cmdDifferences == EntriesBefore(oldCmds, newCmds, i)
      invariant hasDifferences == DiffersBefore(oldCmds, newCmds, i)
      invariant SortedBelow(oldCmds, oldAfter, i, |newCmds|)
      invariant SortedBelow(newCmds, newAfter, i, |oldCmds|)
    {
      var entry, differs;
      entry, differs, oldAfter, newAfter := DiffAt(oldCmds, newCmds, oldAfter, newAfter, i);
      if differs {
        hasDifferences := true;
      }
      cmdDifferences := cmdDifferences + [entry];
    }
    if hasDifferences {
      report := "commands differ:\n" + Join(cmdDifferences, "\n");
    } else {
      report := "";
    }
  }

  /** The report is empty exactly when both lists have the same length and agree
      at every index on path, on args in order, and on env updates in any order. */
  lemma DiffReportEmptyIff(oldCmds: seq<Command>, newCmds: seq<Command>)
    ensures DiffReport(oldCmds, newCmds) == "" <==> SameCommands(oldCmds, newCmds)
  {
    DiffersBeforeIff(oldCmds, newCmds, Max(|oldCmds|, |newCmds|));
    if SameCommands(oldCmds, newCmds) {
      forall i | 0 <= i < Max(|oldCmds|, |newCmds|) ensures IndexDifferences(oldCmds, newCmds, i) == [] {
        assert SameCommand(oldCmds[i], newCmds[i]);
      }
    } else if |oldCmds| != |newCmds| {
      var i := Min(|oldCmds|, |newCmds|);
      assert IndexDifferences(oldCmds, newCmds, i) != [];
    } else {
      var i :| 0 <= i < |oldCmds| && !SameCommand(oldCmds[i], newCmds[i]);
      assert IndexDifferences(oldCmds, newCmds, i) != [];
    }
  }

  /** Both lists are the same commands, index by index, up to env-update order. */
  predicate PairwiseSame(cmds: seq<Command>, cmds': seq<Command>) {
    |cmds| == |cmds'| && forall k :: 0 <= k < |cmds| ==> SameCommand(cmds[k], cmds'[k])
  }

  lemma SameIndexDifferences(oldCmds: seq<Command>, oldCmds': seq<Command>, newCmds: seq<Command>, newCmds': seq<Command>, k: nat)
    requires |oldCmds| == |oldCmds'| && |newCmds| == |newCmds'| && k < Max(|oldCmds|, |newCmds|)
    requires k < |oldCmds| ==> SameCommand(oldCmds[k], oldCmds'[k])
    requires k < |newCmds| ==> SameCommand(newCmds[k], newCmds'[k])
    ensures IndexDifferences(oldCmds, newCmds, k) == IndexDifferences(oldCmds', newCmds', k)
  {
  }

  /** Two pairs of lists with the same lengths and the same differences at every
      index have the same report lines below any index ... */
  lemma SameEntriesBefore(oldCmds: seq<Command>, oldCmds': seq<Command>, newCmds: seq<Command>, newCmds': seq<Command>, i: nat)
    requires |oldCmds| == |oldCmds'| && |newCmds| == |newCmds'| && i <= Max(|oldCmds|, |newCmds|)
    requires forall k :: 0 <= k < i ==> IndexDifferences(oldCmds, newCmds, k) == IndexDifferences(oldCmds', newCmds', k)
    ensures EntriesBefore(oldCmds, newCmds, i) == EntriesBefore(oldCmds', newCmds', i)
  {
    var a, b := EntriesBefore(oldCmds, newCmds, i), EntriesBefore(oldCmds', newCmds', i);
    forall j | 0 <= j < i ensures a[j] == b[j] {
      EntriesBeforeAt(oldCmds, newCmds, i, j);
      EntriesBeforeAt(oldCmds', newCmds', i, j);
    }
  }

  /** ... and the same has-differences flag. */
  lemma {:induction false} SameDiffersBefore(oldCmds: seq<Command>, oldCmds': seq<Command>, newCmds: seq<Command>, newCmds': seq<Command>, i: nat)
    requires |oldCmds| == |oldCmds'| && |newCmds| == |newCmds'| && i <= Max(|oldCmds|, |newCmds|)
    requires forall k :: 0 <= k < i ==> IndexDifferences(oldCmds, newCmds, k) == IndexDifferences(oldCmds', newCmds', k)
    ensures DiffersBefore(oldCmds, newCmds, i) == DiffersBefore(oldCmds', newCmds', i)
  {
    if i > 0 {
      SameDiffersBefore(oldCmds, oldCmds', newCmds, newCmds', i - 1);
      assert IndexDifferences(oldCmds, newCmds, i - 1) == IndexDifferences(oldCmds', newCmds', i - 1);
    }
  }

  /** Reordering the env updates of any command, in either list, changes no line
      of the report. */
  lemma DiffIgnoresEnvOrder(oldCmds: seq<Command>, oldCmds': seq<Command>, newCmds: seq<Command>, newCmds': seq<Command>)
    requires PairwiseSame(oldCmds, oldCmds') && PairwiseSame(newCmds, newCmds')
    ensures DiffEntries(oldCmds, newCmds) == DiffEntries(oldCmds', newCmds')
    ensures DiffReport(oldCmds, newCmds) == DiffReport(oldCmds', newCmds')
  {
    var len := Max(|oldCmds|, |newCmds|);
    forall k | 0 <= k < len
      ensures IndexDifferences(oldCmds, newCmds, k) == IndexDifferences(oldCmds', newCmds', k)
    {
      SameIndexDifferences(oldCmds, oldCmds', newCmds, newCmds', k);
    }
    SameEntriesBefore(oldCmds, oldCmds', newCmds, newCmds', len);
    SameDiffersBefore(oldCmds, oldCmds', newCmds, newCmds', len);
  }

  /** When the recovered old list is the new list plus one command, every index
      of the new list is clean and the last index reports "missing command". */
  lemma DiffOneMoreOldCommand(newCmds: seq<Command>, extra: Command)
    ensures var oldCmds := newCmds + [extra];
      && (forall i :: 0 <= i < |newCmds| ==> IndexDifferences(oldCmds, newCmds, i) == [])
      && IndexDifferences(oldCmds, newCmds, |newCmds|) == ["missing command"]
      && DiffReport(oldCmds, newCmds) == "commands differ:\n" + Join(DiffEntries(oldCmds, newCmds), "\n")
  {
    var oldCmds := newCmds + [extra];
    forall i | 0 <= i < |newCmds| ensures IndexDifferences(oldCmds, newCmds, i) == [] {
      assert oldCmds[i] == newCmds[i];
    }
    DiffersBeforeIff(oldCmds, newCmds, |oldCmds|);
    assert IndexDifferences(oldCmds, newCmds, |newCmds|) != [];
  }

  // ===========================================================================
  // Comparing with the legacy wrapper

  /** The recorded results as handed to the shim, in call order. */
  function MockResults(results: seq<CommandResult>): (r: seq<OldWrapperCmdResult>)
    ensures |r| == |results|
  {
    seq(|results|, i requires 0 <= i < |results| =>
      OldWrapperCmdResult(results[i].stdout, results[i].stderr, results[i].exitCode))
  }

  /** The commands of the recorded results, in call order. */
  function NewCommands(results: seq<CommandResult>): (r: seq<Command>)
    ensures |r| == |results|
  {
    seq(|results|, i requires 0 <= i < |results| => results[i].cmd)
  }

  function ExitCodesDiffer(oldExitCode: int, newExitCode: int): string
  {
    "exit codes differ: old " + IntToString(oldExitCode) + ", new " + IntToString(newExitCode)
  }

  /** How compareToOldWrapper folds the legacy run into one error or none. */
  function CompareVerdict(oldExitCode: int, newExitCode: int, oldStderr: string, newCmds: seq<Command>): (r: Option<Error>)
    ensures r == None <==>
      && oldExitCode == newExitCode
      && ParseSpec(oldStderr).Parsed?
      && SameCommands(ParseSpec(oldStderr).cmds, newCmds)
    ensures ParseSpec(oldStderr).Panicked? ==> r == Some(Panic)
    ensures ParseSpec(oldStderr).Parsed? && r.Some? ==>
      var oldCmds := ParseSpec(oldStderr).cmds;
      && r.value.WrappersDiffer?
      && r.value.oldStderr == ParseSpec(oldStderr).remainingStderr
      && r.value.differences ==
           (if oldExitCode != newExitCode then [ExitCodesDiffer(oldExitCode, newExitCode)] else [])
           + (if SameCommands(oldCmds, newCmds) then [] else [DiffReport(oldCmds, newCmds)])
  {
    match ParseSpec(oldStderr)
    case Panicked => Some(Panic)
    case Parsed(oldCmds, stderr) =>
      DiffReportEmptyIff(oldCmds, newCmds);
      var cmdDifferences := DiffReport(oldCmds, newCmds);
      var differences :=
        (if oldExitCode != newExitCode then [ExitCodesDiffer(oldExitCode, newExitCode)] else [])
        + (if cmdDifferences != "" then [cmdDifferences] else []);
      if |differences| > 0 then Some(WrappersDiffer(differences, stderr)) else None
  }

  /** The loop of compareToOldWrapper that turns the recorded results into the
      shim's mock results and the list of new commands. */
  method SplitRecordedResults(newCmdResults: seq<CommandResult>) returns (cmdResults: seq<OldWrapperCmdResult>, newCmds: seq<Command>)
    ensures cmdResults == MockResults(newCmdResults)
    ensures newCmds == NewCommands(newCmdResults)
  {
    newCmds, cmdResults := [], [];
    for i := 0 to |newCmdResults|
      invariant cmdResults == MockResults(newCmdResults[..i])
      invariant newCmds == NewCommands(newCmdResults[..i])
    {
      var cmdResult := newCmdResults[i];
      cmdResults := cmdResults + [OldWrapperCmdResult(cmdResult.stdout, cmdResult.stderr, cmdResult.exitCode)];
      newCmds := newCmds + [cmdResult.cmd];
    }
    assert newCmdResults[..|newCmdResults|] == newCmdResults;
  }

  /** diffCommands when only its report is used. */
  method DiffOnly(oldCmds: seq<Command>, newCmds: seq<Command>) returns (report: string)
    ensures report == DiffReport(oldCmds, newCmds)
  {
    var oldAfter, newAfter;
    report, oldAfter, newAfter := DiffCommands(oldCmds, newCmds);
  }

  /** The tail of compareToOldWrapper, once the legacy wrapper has exited:
      compare exit codes, parse its command log and diff the commands. */
  method CompareOutcome(oldExitCode: int, newExitCode: int, stderrBuffer: string, newCmds: seq<Command>) returns (err: Option<Error>)
    ensures err == CompareVerdict(oldExitCode, newExitCode, stderrBuffer, newCmds)
  {
    var exitDifferences: seq<string> := [];
    if oldExitCode != newExitCode {
      exitDifferences := [ExitCodesDiffer(oldExitCode, newExitCode)];
    }
    var parsed := ParseOldWrapperCommands(stderrBuffer);
    if parsed.Panicked? {
      return Some(Panic);
    }
    var cmdDifferences := DiffOnly(parsed.cmds, newCmds);
    var differences := exitDifferences + (if cmdDifferences != "" then [cmdDifferences] else []);
    if |differences| > 0 {
      return Some(WrappersDiffer(differences, parsed.remainingStderr));
    }
    return None;
  }

  /** The shim configuration compareToOldWrapper runs: logging on, the configured
      mocking and overwriting, and the recorded results to replay. */
  function CompareShimConfig(content: string, cfg: Config, inputCmd: Command, newCmdResults: seq<CommandResult>): OldWrapperConfig {
    BaseShimConfig(content, cfg, inputCmd).(logCmds := true, mockCmds := cfg.mockOldWrapperCmds,
      cmdResults := MockResults(newCmdResults), overwriteConfig := cfg.overwriteOldWrapperCfg)
  }

  /** The second half of compareToOldWrapper: run the shim for `c` with buffered
      output, then compare what it did with the new wrapper's run. */
  method RunAndCompare(env: Env, c: OldWrapperConfig, inputCmd: Command, newCmds: seq<Command>, newExitCode: int)
    returns (err: Option<Error>)
    modifies env
    ensures env.stdout == old(env.stdout) && env.stderr == old(env.stderr)
    ensures var shim := TempName(env.tempDir, CompareToOldWrapperFilePattern, env.randomPart(|old(env.fsLog)|));
      && env.fsLog == old(env.fsLog) + ShimSteps(env.fails, shim, c)
      && if ShimError(env.fails, shim, c).Some? then
        err == ShimError(env.fails, shim, c) && env.ran == old(env.ran)
      else
        var cmd := OldWrapperCommand(shim, inputCmd);
        && env.ran == old(env.ran) + [cmd]
        && err == match env.outcomeOf(|old(env.ran)|, cmd)
                  case StartFailed(cause) => Some(ExecFailed(cmd, cause))
                  case Exited(code, _, stderr) => CompareVerdict(code, newExitCode, stderr, newCmds)
  {
    var oldExitCode, stdoutBuffer, stderrBuffer;
    oldExitCode, stdoutBuffer, stderrBuffer, err := CallOldWrapper(env, c, inputCmd, CompareToOldWrapperFilePattern, false);
    if err.Some? {
      return err;
    }
    err := CompareOutcome(oldExitCode, newExitCode, stderrBuffer, newCmds);
  }

  /** compareToOldWrapper: replay the recorded results into the legacy wrapper
      and compare its commands and exit code with the new ones. It never writes
      to the real output streams, and every error of newOldWrapperConfig and
      callOldWrapper comes back unchanged. */
  method CompareToOldWrapper(env: Env, cfg: Config, inputCmd: Command, newCmdResults: seq<CommandResult>, newExitCode: int)
    returns (err: Option<Error>)
    modifies env
    ensures env.stdout == old(env.stdout) && env.stderr == old(env.stderr)
    ensures var path := OldWrapperPath(env, cfg, inputCmd);
      if path.None? then
        err == Some(WrapperDirFailed(inputCmd.path)) && env.ran == old(env.ran) && env.fsLog == old(env.fsLog)
      else if !Readable(env, path.value) then
        && err == Some(StepFailed(FsAction.ReadFile(path.value)))
        && env.ran == old(env.ran) && env.fsLog == old(env.fsLog) + [FsAction.ReadFile(path.value)]
      else
        var c := CompareShimConfig(env.sources[path.value], cfg, inputCmd, newCmdResults);
        var shim := TempName(env.tempDir, CompareToOldWrapperFilePattern, env.randomPart(|old(env.fsLog)| + 1));
        && env.fsLog == old(env.fsLog) + [FsAction.ReadFile(path.value)] + ShimSteps(env.fails, shim, c)
        && if ShimError(env.fails, shim, c).Some? then
          err == ShimError(env.fails, shim, c) && env.ran == old(env.ran)
        else
          var cmd := OldWrapperCommand(shim, inputCmd);
          && env.ran == old(env.ran) + [cmd]
          && err == match env.outcomeOf(|old(env.ran)|, cmd)
                    case StartFailed(cause) => Some(ExecFailed(cmd, cause))
                    case Exited(code, _, stderr) => CompareVerdict(code, newExitCode, stderr, NewCommands(newCmdResults))
  {
    var oldWrapperCfg;
    oldWrapperCfg, err := NewOldWrapperConfig(env, cfg, inputCmd);
    if err.Some? {
      return err;
    }
    oldWrapperCfg := oldWrapperCfg.(logCmds := true, mockCmds := cfg.mockOldWrapperCmds);
    var cmdResults, newCmds := SplitRecordedResults(newCmdResults);
    oldWrapperCfg := oldWrapperCfg.(cmdResults := cmdResults, overwriteConfig := cfg.overwriteOldWrapperCfg);

    err := RunAndCompare(env, oldWrapperCfg, inputCmd, newCmds, newExitCode);
  }
}
