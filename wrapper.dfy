/**
 * The values the compiler wrapper passes around (commands, results, the
 * configuration, reports, errors) and the process environment it works in.
 *
 * The environment is the wrapper's `env` interface made concrete enough to
 * reason about: environment variables, the working directory, a `run` whose
 * outcome for the n-th started process is given by an oracle, the real
 * standard output and error streams, and the file system as the list of the
 * steps attempted on it, each of which may fail.
 */
module Wrapper {
  import opened GoStrings

  datatype Option<+T> = None | Some(value: T)

  /** One external process invocation: the program, its arguments, and
      "KEY=VALUE" / "KEY=" updates applied on top of the ambient environment. */
  datatype Command = Command(path: string, args: seq<string>, envUpdates: seq<string>)

  /** One executed invocation and what it produced, recorded in call order. */
  datatype CommandResult = CommandResult(cmd: Command, stdout: string, stderr: string, exitCode: int)

  /** The configuration fields the modelled code reads. */
  datatype Config = Config(
    oldWrapperPath: string,
    newWarningsDir: string,
    mockOldWrapperCmds: bool,
    overwriteOldWrapperCfg: bool,
    rootRelPath: string,
    commonFlags: seq<string>,
    gccFlags: seq<string>,
    clangFlags: seq<string>)

  /** The record persisted (as JSON) for a build that failed because of -Werror. */
  datatype WarningsReport = WarningsReport(cwd: string, command: seq<string>, stdout: string)

  /** One recorded result handed to the legacy wrapper, which replays it instead of running a process. */
  datatype OldWrapperCmdResult = OldWrapperCmdResult(stdout: string, stderr: string, exitcode: int)

  /** The parameters the legacy-wrapper shim is rendered from. */
  datatype OldWrapperConfig = OldWrapperConfig(
    cmdPath: string,
    oldWrapperContent: string,
    rootRelPath: string,
    logCmds: bool,
    mockCmds: bool,
    cmdResults: seq<OldWrapperCmdResult>,
    overwriteConfig: bool,
    commonFlags: seq<string>,
    gccFlags: seq<string>,
    clangFlags: seq<string>)

  /** What `run` reports: the process ran and exited with a status (its output
      going to the sinks given), or it could not be started at all. */
  datatype RunOutcome =
    | Exited(code: int, stdout: string, stderr: string)
    | StartFailed(cause: string)

  /** A file-system step, as attempted. */
  datatype FsAction =
    | MkdirAll(path: string)
    | CreateTemp(name: string)
    | EncodeReport(name: string, report: WarningsReport)
    | WriteShim(name: string, config: OldWrapperConfig)
    | CloseFile(name: string)
    | Rename(from: string, to: string)
    | Remove(name: string)
    | ReadFile(path: string)
    | OpenAppend(path: string)
    | AppendLine(path: string, line: string)

  /** The errors the modelled code returns. */
  datatype Error =
    | ExecFailed(cmd: Command, cause: string)               // a command could not be started
    | StepFailed(action: FsAction)                          // a file-system step failed
    | WrapperDirFailed(wrapperPath: string)                 // the wrapper's own directory could not be resolved
    | WrappersDiffer(differences: seq<string>, oldStderr: string)  // the legacy comparison found differences
    | Panic                                                 // a Go runtime panic (not a returned error)

  /** The convention every caller of `run` uses: a clean exit with status `c`
      becomes (c, no error); a process that could not start becomes (0, error). */
  function WrapSubprocessError(cmd: Command, o: RunOutcome): (r: (int, Option<Error>))
    ensures r.1 == None <==> o.Exited?
    ensures o.Exited? ==> r.0 == o.code
    ensures r.1 != None ==> r.0 == 0 && r.1 == Some(ExecFailed(cmd, o.cause))
  {
    match o
    case Exited(code, _, _) => (code, None)
    case StartFailed(cause) => (0, Some(ExecFailed(cmd, cause)))
  }

  /** The name ioutil.TempFile gives a new file: the pattern's last '*' (or its
      end, when it has none) replaced by a random string, inside `dir`. */
  function TempName(dir: string, pattern: string, random: string): string
  {
    var star := LastIndexChar(pattern, '*');
    if star < 0 then PathJoin(dir, pattern + random)
    else PathJoin(dir, pattern[..star] + random + pattern[star + 1..])
  }

  /** The process environment of one wrapper invocation. */
  class Env {
    /** The environment variables; getenv of an absent name is "". */
    const environ: map<string, string>
    /** getwd */
    const wd: string
    /** os.TempDir, used for a temp file whose directory is "". */
    const tempDir: string
    /** What the n-th process started during the call does when it runs a given command. */
    const outcomeOf: (nat, Command) -> RunOutcome
    /** Which file-system steps fail. */
    const fails: FsAction -> bool
    /** The random part of the name of a temp file created as the n-th file-system step. */
    const randomPart: nat -> string
    /** Files the wrapper only reads (the legacy wrapper's source), by path. */
    const sources: map<string, string>
    /** The result of resolving the wrapper's own directory from its path; None when that fails. */
    const absWrapperDirOf: string -> Option<string>

    /** Every command started so far, in order. */
    var ran: seq<Command>
    /** What has been written to the real standard output and error. */
    var stdout: string
    var stderr: string
    /** Every file-system step attempted so far, in order. */
    var fsLog: seq<FsAction>

    constructor (environ: map<string, string>, wd: string, tempDir: string,
                 outcomeOf: (nat, Command) -> RunOutcome, fails: FsAction -> bool,
                 randomPart: nat -> string, sources: map<string, string>,
                 absWrapperDirOf: string -> Option<string>)
      ensures this.environ == environ && this.wd == wd && this.tempDir == tempDir
      ensures this.outcomeOf == outcomeOf && this.fails == fails && this.randomPart == randomPart
      ensures this.sources == sources && this.absWrapperDirOf == absWrapperDirOf
      ensures ran == [] && stdout == "" && stderr == "" && fsLog == []
    {
      this.environ, this.wd, this.tempDir := environ, wd, tempDir;
      this.outcomeOf, this.fails, this.randomPart := outcomeOf, fails, randomPart;
      this.sources, this.absWrapperDirOf := sources, absWrapperDirOf;
      ran, stdout, stderr, fsLog := [], "", "", [];
    }

    function Getenv(name: string): string {
      if name in environ then environ[name] else ""
    }

    function Getwd(): string {
      wd
    }

    /** run: start `cmd`; its output goes to the real streams when `passthrough`,
        otherwise only into the returned outcome (the caller's buffers). */
    method Run(cmd: Command, passthrough: bool) returns (o: RunOutcome)
      modifies this`ran, this`stdout, this`stderr
      ensures o == outcomeOf(|old(ran)|, cmd)
      ensures ran == old(ran) + [cmd]
      ensures if passthrough && o.Exited?
              then stdout == old(stdout) + o.stdout && stderr == old(stderr) + o.stderr
              else stdout == old(stdout) && stderr == old(stderr)
    {
      o := outcomeOf(|ran|, cmd);
      ran := ran + [cmd];
      if passthrough && o.Exited? {
        stdout := stdout + o.stdout;
        stderr := stderr + o.stderr;
      }
    }

    /** Write buffered output to the real streams (bytes.Buffer.WriteTo). */
    method Flush(out: string, err: string)
      modifies this`stdout, this`stderr
      ensures stdout == old(stdout) + out && stderr == old(stderr) + err
    {
      stdout := stdout + out;
      stderr := stderr + err;
    }

    /** Attempt one file-system step. */
    method Attempt(a: FsAction) returns (ok: bool)
      modifies this`fsLog
      ensures fsLog == old(fsLog) + [a]
      ensures ok == !fails(a)
    {
      fsLog := fsLog + [a];
      ok := !fails(a);
    }

    /** ioutil.TempFile(dir, pattern) */
    method TempFile(dir: string, pattern: string) returns (name: string, ok: bool)
      modifies this`fsLog
      ensures name == TempName(if dir == "" then tempDir else dir, pattern, randomPart(|old(fsLog)|))
      ensures fsLog == old(fsLog) + [CreateTemp(name)]
      ensures ok == !fails(CreateTemp(name))
    {
      name := TempName(if dir == "" then tempDir else dir, pattern, randomPart(|fsLog|));
      ok := Attempt(CreateTemp(name));
    }

    /** ioutil.ReadFile(path): fails when the step fails or there is no such file. */
    method ReadFile(path: string) returns (content: string, ok: bool)
      modifies this`fsLog
      ensures fsLog == old(fsLog) + [FsAction.ReadFile(path)]
      ensures ok == (!fails(FsAction.ReadFile(path)) && path in sources)
      ensures ok ==> content == sources[path]
    {
      ok := Attempt(FsAction.ReadFile(path));
      ok := ok && path in sources;
      content := if ok then sources[path] else "";
    }
  }
}
