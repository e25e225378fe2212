/**
 * `main`: the command line picks one lecture or a whole directory; no
 * argument, or `--batch` without a directory, prints help or an error and
 * exits with 1 before anything else happens.
 */
module Cli {
  import opened Pipeline

  const BatchFlag: string := "--batch"

  datatype Command =
    | ShowUsage
    | MissingDirectory
    | BatchCommand(dir: string)
    | SingleCommand(path: string)

  /** `process.argv.slice(2)`: the arguments after the runtime and the
      script. */
  function UserArgs(argv: seq<string>): (args: seq<string>)
    ensures |argv| <= 2 ==> args == []
    ensures |argv| > 2 ==> argv == argv[..2] + args
  {
    if |argv| <= 2 then [] else argv[2..]
  }

  /** The decision `main` takes on its arguments. Arguments after the ones it
      reads are ignored. */
  function ParseArgs(args: seq<string>): (command: Command)
    ensures command.ShowUsage? <==> args == []
    ensures command.MissingDirectory? <==> args == [BatchFlag]
    ensures command.BatchCommand? <==> |args| >= 2 && args[0] == BatchFlag
    ensures command.BatchCommand? ==> command.dir == args[1]
    ensures command.SingleCommand? <==> |args| >= 1 && args[0] != BatchFlag
    ensures command.SingleCommand? ==> command.path == args[0]
  {
    if |args| == 0 then ShowUsage
    else if args[0] == BatchFlag then
      if |args| < 2 then MissingDirectory else BatchCommand(args[1])
    else SingleCommand(args[0])
  }

  /** The shortest command line that asks for `command`. */
  function CommandLine(command: Command): seq<string> {
    match command
    case ShowUsage => []
    case MissingDirectory => [BatchFlag]
    case BatchCommand(dir) => [BatchFlag, dir]
    case SingleCommand(path) => [path]
  }

  /** Every command can be asked for, except a single file literally named
      `--batch`, which is always read as the flag; extra arguments after a
      complete command change nothing. */
  lemma ParseCommandLine(command: Command, extra: seq<string>)
    requires command != SingleCommand(BatchFlag)
    requires command.BatchCommand? || command.SingleCommand? || extra == []
    ensures ParseArgs(CommandLine(command) + extra) == command
  {
    var args := CommandLine(command) + extra;
    if command.BatchCommand? {
      assert args[0] == BatchFlag && args[1] == command.dir;
    } else if command.SingleCommand? {
      assert args[0] == command.path;
    } else if command.MissingDirectory? {
      assert args == [BatchFlag];
    }
  }

  /** `main()` on the full `process.argv`. */
  function Main(argv: seq<string>, fs: FileSystem, services: Services, cwd: string, today: string): (run: Run)
    ensures ExitsLastIn(run.trace, run.exitCode)
    ensures Untouched(fs, run.fs, cwd)
    ensures ParseArgs(UserArgs(argv)).ShowUsage? || ParseArgs(UserArgs(argv)).MissingDirectory? ==>
      run.fs == fs && run.exitCode == 1 && Accessed(run.trace) == [] && |run.trace| == 1
    ensures ParseArgs(UserArgs(argv)).SingleCommand? ==>
      Accessed(run.trace) == [UserArgs(argv)[0]]
    ensures ParseArgs(UserArgs(argv)).BatchCommand? ==>
      |run.trace| > 0 && run.trace[0] == ListDir(UserArgs(argv)[1])
  {
    match ParseArgs(UserArgs(argv))
    case ShowUsage => Run(fs, [Exit(1)], 1)
    case MissingDirectory => Run(fs, [Exit(1)], 1)
    case BatchCommand(dir) => BatchProcess(fs, services, cwd, today, dir)
    case SingleCommand(path) =>
      var run := ProcessLecture(fs, services, cwd, today, path);
      AccessedOfLecture(run, path);
      run
  }
}
