// TaskManager: runs the task files one after another against the shared
// SystemState. Each file is parsed as a whole first; a file that does not
// parse runs nothing. Its commands then run in order until one throws
// (the file fails, the effects of the earlier commands stay) or EXIT is
// triggered (the rest of that file is skipped, the flag is reset and the
// next file runs as usual).
module Tasks {
  import opened Errors
  import DirectorySpec
  import Domain
  import Commands
  import Registry
  import TasksParser

  /** What a file's run reports, in order: OutputPrinter's task lines, a
      notice for each command that ran without throwing (the lines it
      printed are those Commands.Execute returns for it), and the error
      ErrorHandler handles when a command throws. */
  datatype Event =
    | TaskStart(file: string)
    | CommandOk(command: Commands.Command)
    | CommandFailed(error: Error)
    | TaskSuccess(file: string)
    | TaskFailure(file: string)

  /** TaskFile: a file's name and its raw lines, as the loader reads them. */
  datatype TaskFile = TaskFile(name: string, lines: seq<string>)

  /** The end of a file's command loop: a notice per command that passed,
      the error that stopped it, if any, the directory and the EXIT flag. */
  datatype CommandsRun = CommandsRun(log: seq<Event>, failure: Option<Error>, after: DirectorySpec.Directory, exit: bool)

  /** The inner loop of RunTasksFromFiles: execute each command; a thrown
      error stops the file; after a command that leaves the EXIT flag set,
      the flag is reset and the file stops. */
  function RunCommands(cmds: seq<Commands.Command>, d: DirectorySpec.Directory, exit: bool): CommandsRun
    decreases |cmds|
  {
    if cmds == [] then CommandsRun([], None, d, exit)
    else
      var st := Commands.Apply(cmds[0], d, exit);
      if st.outcome.Fail? then CommandsRun([], Some(st.outcome.error), st.after, st.exit)
      else if st.exit then CommandsRun([CommandOk(cmds[0])], None, st.after, false)
      else Behind([CommandOk(cmds[0])], RunCommands(cmds[1..], st.after, st.exit))
  }

  /** The notices so far followed by what the remaining commands do. */
  function Behind(log: seq<Event>, rest: CommandsRun): CommandsRun {
    rest.(log := log + rest.log)
  }

  lemma BehindBehind(a: seq<Event>, b: seq<Event>, rest: CommandsRun)
    ensures Behind(a, Behind(b, rest)) == Behind(a + b, rest)
  {
    assert a + (b + rest.log) == a + b + rest.log;
  }

  /** RunCommands from command k on, once command k has given outcome r,
      directory d' and flag e'. */
  lemma RunCommandsStep(cmds: seq<Commands.Command>, k: nat, d: DirectorySpec.Directory, exit: bool,
                        r: Outcome, d': DirectorySpec.Directory, exit': bool)
    requires k < |cmds| && Commands.Apply(cmds[k], d, exit) == Commands.Step(r, d', exit')
    ensures r.Fail? ==> RunCommands(cmds[k..], d, exit) == CommandsRun([], Some(r.error), d', exit')
    ensures r.Pass? && exit' ==> RunCommands(cmds[k..], d, exit) == CommandsRun([CommandOk(cmds[k])], None, d', false)
    ensures r.Pass? && !exit' ==>
      RunCommands(cmds[k..], d, exit) == Behind([CommandOk(cmds[k])], RunCommands(cmds[k + 1..], d', false))
  {
    assert cmds[k..][0] == cmds[k] && cmds[k..][1..] == cmds[k + 1..];
  }

  /** The command loop of one file, over the shared state and the EXIT
      flag: each command runs in order; one that throws stops the file;
      after one that leaves the flag set, the flag is reset and the file
      stops. */
  method ExecuteCommands(cmds: seq<Commands.Command>, state: Domain.SystemState, exit: Commands.ExitFlag)
    returns (oks: seq<Event>, failure: Option<Error>)
    requires state.Valid() && exit !in state.Repr
    modifies state.Repr, exit
    ensures state.Valid() && exit !in state.Repr && old(state.Repr) <= state.Repr && fresh(state.Repr - old(state.Repr))
    ensures RunCommands(cmds, old(state.Abstract()), old(exit.triggered)) ==
      CommandsRun(oks, failure, state.Abstract(), exit.triggered)
  {
    oks, failure := [], None;
    ghost var goal := RunCommands(cmds, old(state.Abstract()), old(exit.triggered));
    var k := 0;
    while k < |cmds|
      invariant 0 <= k <= |cmds| && failure == None
      invariant state.Valid() && exit !in state.Repr && old(state.Repr) <= state.Repr && fresh(state.Repr - old(state.Repr))
      invariant goal == Behind(oks, RunCommands(cmds[k..], state.Abstract(), exit.triggered))
    {
      var ok, stop;
      ok, failure, stop := ExecuteAt(cmds, k, state, exit, RunCommands(cmds[k..], state.Abstract(), exit.triggered));
      BehindBehind(oks, ok, RunCommands(cmds[k + 1..], state.Abstract(), exit.triggered));
      oks := oks + ok;
      if stop {
        return;
      }
      k := k + 1;
    }
    assert cmds[k..] == [];
    assert oks + [] == oks;
  }

  /** One iteration of the command loop, where rest is what the commands
      from k on do: run command k; stop with its error if it threw, or
      reset the flag and stop if it left EXIT set. */
  method ExecuteAt(cmds: seq<Commands.Command>, k: nat, state: Domain.SystemState, exit: Commands.ExitFlag,
                   ghost rest: CommandsRun)
    returns (ok: seq<Event>, failure: Option<Error>, stop: bool)
    requires k < |cmds| && state.Valid() && exit !in state.Repr
    requires rest == RunCommands(cmds[k..], state.Abstract(), exit.triggered)
    modifies state.Repr, exit
    ensures state.Valid() && exit !in state.Repr && old(state.Repr) <= state.Repr && fresh(state.Repr - old(state.Repr))
    ensures ok == (if failure.None? then [CommandOk(cmds[k])] else [])
    ensures stop ==> rest == CommandsRun(ok, failure, state.Abstract(), exit.triggered)
    ensures !stop ==> failure.None? && rest == Behind(ok, RunCommands(cmds[k + 1..], state.Abstract(), exit.triggered))
  {
    ghost var d, e := state.Abstract(), exit.triggered;
    var r, _ := Commands.Execute(cmds[k], state, exit);
    RunCommandsStep(cmds, k, d, e, r, state.Abstract(), exit.triggered);
    if r.Fail? {
      return [], Some(r.error), true;
    }
    if exit.triggered {
      label BeforeReset:
      exit.Reset();
      Domain.Untouched@BeforeReset(state);
      return [CommandOk(cmds[k])], None, true;
    }
    return [CommandOk(cmds[k])], None, false;
  }

  /** What running files leaves: the executor's events, the directory and
      the EXIT flag. */
  datatype Run = Run(log: seq<Event>, after: DirectorySpec.Directory, exit: bool)

  /** One iteration of the file loop: the start line, then the failure line
      if the file did not parse, otherwise what its commands do. */
  function RunFile(policy: TasksParser.ManyPolicy, table: map<string, Registry.Factory>, file: TaskFile,
                   d: DirectorySpec.Directory, exit: bool): Run
  {
    match TasksParser.ParseFile(policy, table, file.lines)
    case None => Run([TaskStart(file.name), TaskFailure(file.name)], d, exit)
    case Some(cmds) => RunParsed(file.name, cmds, d, exit)
  }

  /** A parsed file: the start line, the commands, then the failure line
      if a command threw, otherwise the success line unless the EXIT flag
      is still set. */
  function RunParsed(name: string, cmds: seq<Commands.Command>, d: DirectorySpec.Directory, exit: bool): Run {
    var c := RunCommands(cmds, d, exit);
    var verdict :=
      if c.failure.Some? then [CommandFailed(c.failure.value), TaskFailure(name)]
      else if !c.exit then [TaskSuccess(name)]
      else [];
    Run([TaskStart(name)] + c.log + verdict, c.after, c.exit)
  }

  /** The file loop: every file in the loader's order, each starting from
      what the previous one left. */
  function RunFiles(policy: TasksParser.ManyPolicy, table: map<string, Registry.Factory>, files: seq<TaskFile>,
                    d: DirectorySpec.Directory, exit: bool): Run
    decreases |files|
  {
    if files == [] then Run([], d, exit)
    else
      var first := RunFile(policy, table, files[0], d, exit);
      var rest := RunFiles(policy, table, files[1..], first.after, first.exit);
      Run(first.log + rest.log, rest.after, rest.exit)
  }

  /** The executor: the registry and the parser built over it, the state
      SetState installed (null until then) and ExitCommand's static flag. */
  class TaskManager {
    const policy: TasksParser.ManyPolicy
    const registry: Registry.CommandRegistry
    const exit: Commands.ExitFlag
    var state: Domain.SystemState?

    /** A state is installed and shares no object with the executor. */
    ghost predicate Valid()
      reads this, state, if state != null then state.Repr else {}
    {
      && state != null
      && state.Valid()
      && this !in state.Repr
      && registry !in state.Repr
      && exit !in state.Repr
    }

    /** The registry registers the eleven commands; no state is set yet. */
    constructor (policy: TasksParser.ManyPolicy, exit: Commands.ExitFlag)
      ensures this.policy == policy && this.exit == exit && state == null
      ensures registry.table == Registry.Standard && fresh(registry)
    {
      this.policy := policy;
      this.exit := exit;
      registry := new Registry.CommandRegistry();
      state := null;
    }

    /** TaskManager::SetState. */
    method SetState(state: Domain.SystemState)
      modifies this
      ensures this.state == state
    {
      this.state := state;
    }

    /** One iteration of the file loop. */
    method RunTaskFile(file: TaskFile) returns (fileLog: seq<Event>)
      requires Valid()
      modifies state.Repr, exit
      ensures Valid() && old(state.Repr) <= state.Repr && fresh(state.Repr - old(state.Repr))
      ensures RunFile(policy, registry.table, file, old(state.Abstract()), old(exit.triggered)) ==
        Run(fileLog, state.Abstract(), exit.triggered)
    {
      ghost var goal := RunFile(policy, registry.table, file, state.Abstract(), exit.triggered);
      var parsed := TasksParser.ParseTasks(policy, registry, file.name, file.lines);
      if parsed == [] {
        fileLog := [TaskStart(file.name), TaskFailure(file.name)];
      } else {
        assert goal == RunParsed(file.name, parsed[0].commands, state.Abstract(), exit.triggered);
        fileLog := RunCommandList(file.name, parsed[0].commands);
      }
    }

    /** The rest of the iteration once the file has parsed. */
    method RunCommandList(name: string, cmds: seq<Commands.Command>) returns (fileLog: seq<Event>)
      requires Valid()
      modifies state.Repr, exit
      ensures Valid() && old(state.Repr) <= state.Repr && fresh(state.Repr - old(state.Repr))
      ensures RunParsed(name, cmds, old(state.Abstract()), old(exit.triggered)) ==
        Run(fileLog, state.Abstract(), exit.triggered)
    {
      var oks, failure := ExecuteCommands(cmds, state, exit);
      fileLog := [TaskStart(name)] + oks;
      if failure.Some? {
        fileLog := fileLog + [CommandFailed(failure.value), TaskFailure(name)];
      } else if !exit.triggered {
        fileLog := fileLog + [TaskSuccess(name)];
      }
    }

    /** TaskManager::RunTasksFromFiles over the loaded files: without a
        state it throws before running anything; otherwise every file runs
        in order. */
    method RunTasksFromFiles(files: seq<TaskFile>) returns (ran: bool, log: seq<Event>)
      requires state != null ==> Valid()
      modifies if state != null then state.Repr else {}, exit
      ensures state == old(state)
      ensures state == null ==> !ran && log == [] && exit.triggered == old(exit.triggered)
      ensures state != null ==> ran && Valid() && fresh(state.Repr - old(state.Repr))
      ensures state != null ==>
        RunFiles(policy, registry.table, files, old(state.Abstract()), old(exit.triggered)) ==
        Run(log, state.Abstract(), exit.triggered)
    {
      if state == null {
        return false, [];
      }
      log := RunAll(files);
      ran := true;
    }

    /** The file loop of RunTasksFromFiles. */
    method RunAll(files: seq<TaskFile>) returns (log: seq<Event>)
      requires Valid()
      modifies state.Repr, exit
      ensures Valid() && old(state.Repr) <= state.Repr && fresh(state.Repr - old(state.Repr))
      ensures RunFiles(policy, registry.table, files, old(state.Abstract()), old(exit.triggered)) ==
        Run(log, state.Abstract(), exit.triggered)
    {
      log := [];
      ghost var goal := RunFiles(policy, registry.table, files, old(state.Abstract()), old(exit.triggered));
      var i := 0;
      assert files[0..] == files;
      while i < |files|
        invariant 0 <= i <= |files|
        invariant Valid() && old(state.Repr) <= state.Repr && fresh(state.Repr - old(state.Repr))
        invariant goal == Then(log, RunFiles(policy, registry.table, files[i..], state.Abstract(), exit.triggered))
      {
        log := RunFileAt(files, i, log, RunFiles(policy, registry.table, files[i..], state.Abstract(), exit.triggered));
        i := i + 1;
      }
      assert files[i..] == [];
      assert log + [] == log;
    }

    /** One iteration of the file loop, where rest is what the files from
        i on do: run file i and add its events to the log. */
    method RunFileAt(files: seq<TaskFile>, i: nat, log: seq<Event>, ghost rest: Run) returns (log': seq<Event>)
      requires Valid() && i < |files|
      requires rest == RunFiles(policy, registry.table, files[i..], state.Abstract(), exit.triggered)
      modifies state.Repr, exit
      ensures Valid() && old(state.Repr) <= state.Repr && fresh(state.Repr - old(state.Repr))
      ensures Then(log, rest) == Then(log', RunFiles(policy, registry.table, files[i + 1..], state.Abstract(), exit.triggered))
    {
      RunFilesStep(policy, registry.table, files, i, state.Abstract(), exit.triggered, log);
      var fileLog := RunTaskFile(files[i]);
      log' := log + fileLog;
    }
  }

  /** The events so far followed by what the remaining files do. */
  function Then(log: seq<Event>, rest: Run): Run {
    Run(log + rest.log, rest.after, rest.exit)
  }

  /** RunFiles from file i on, one file unfolded. */
  lemma RunFilesStep(policy: TasksParser.ManyPolicy, table: map<string, Registry.Factory>, files: seq<TaskFile>, i: nat,
                     d: DirectorySpec.Directory, exit: bool, log: seq<Event>)
    requires i < |files|
    ensures var first := RunFile(policy, table, files[i], d, exit);
      Then(log, RunFiles(policy, table, files[i..], d, exit)) ==
      Then(log + first.log, RunFiles(policy, table, files[i + 1..], first.after, first.exit))
  {
    assert files[i..][0] == files[i] && files[i..][1..] == files[i + 1..];
    var first := RunFile(policy, table, files[i], d, exit);
    LogAssoc(log, first.log, RunFiles(policy, table, files[i + 1..], first.after, first.exit).log);
  }

  lemma LogAssoc(a: seq<Event>, b: seq<Event>, c: seq<Event>)
    ensures a + (b + c) == a + b + c
  {
  }

  // ---------------------------------------------------------------------
  // Properties of the executor

  /** The names of the files the log starts, in order. */
  function Started(log: seq<Event>): seq<string> {
    if log == [] then []
    else (if log[0].TaskStart? then [log[0].file] else []) + Started(log[1..])
  }

  function Names(files: seq<TaskFile>): seq<string> {
    if files == [] then [] else [files[0].name] + Names(files[1..])
  }

  lemma {:induction false} StartedAppend(a: seq<Event>, b: seq<Event>)
    ensures Started(a + b) == Started(a) + Started(b)
    decreases |a|
  {
    if a == [] {
      assert a + b == b;
    } else {
      assert (a + b)[0] == a[0] && (a + b)[1..] == a[1..] + b;
      StartedAppend(a[1..], b);
    }
  }

  lemma {:induction false} StartedNone(log: seq<Event>)
    requires forall k :: 0 <= k < |log| ==> !log[k].TaskStart?
    ensures Started(log) == []
    decreases |log|
  {
    if log != [] {
      StartedNone(log[1..]);
    }
  }

  /** Each file's log starts it and starts no other file. */
  lemma RunFileStartsOnce(policy: TasksParser.ManyPolicy, table: map<string, Registry.Factory>, file: TaskFile,
                          d: DirectorySpec.Directory, exit: bool)
    ensures Started(RunFile(policy, table, file, d, exit).log) == [file.name]
  {
    var tail: seq<Event>;
    match TasksParser.ParseFile(policy, table, file.lines) {
      case None =>
        tail := [TaskFailure(file.name)];
      case Some(cmds) =>
        var c := RunCommands(cmds, d, exit);
        CommandsReported(cmds, d, exit);
        tail := c.log + RunParsed(file.name, cmds, d, exit).log[1 + |c.log|..];
        assert RunParsed(file.name, cmds, d, exit).log == [TaskStart(file.name)] + tail;
    }
    assert RunFile(policy, table, file, d, exit).log == [TaskStart(file.name)] + tail;
    StartedNone(tail);
    StartedAppend([TaskStart(file.name)], tail);
  }

  /** EXIT and failing files never stop the loop: every file is started,
      in the loader's order. */
  lemma {:induction false} EveryFileStarts(policy: TasksParser.ManyPolicy, table: map<string, Registry.Factory>,
                                           files: seq<TaskFile>, d: DirectorySpec.Directory, exit: bool)
    ensures Started(RunFiles(policy, table, files, d, exit).log) == Names(files)
    decreases |files|
  {
    if files != [] {
      var first := RunFile(policy, table, files[0], d, exit);
      RunFileStartsOnce(policy, table, files[0], d, exit);
      EveryFileStarts(policy, table, files[1..], first.after, first.exit);
      StartedAppend(first.log, RunFiles(policy, table, files[1..], first.after, first.exit).log);
    }
  }

  /** Starting with the flag cleared, the command loop ends with it cleared:
      EXIT's reset happens inside the loop. */
  lemma {:induction false} CommandsClearExit(cmds: seq<Commands.Command>, d: DirectorySpec.Directory)
    ensures !RunCommands(cmds, d, false).exit
    decreases |cmds|
  {
    if cmds != [] {
      CommandsClearExit(cmds[1..], Commands.Apply(cmds[0], d, false).after);
    }
  }

  /** The notices of a command loop: one per command that ran without
      throwing, in the order of the commands, and a command that throws
      gets none. */
  lemma {:induction false} CommandsReported(cmds: seq<Commands.Command>, d: DirectorySpec.Directory, exit: bool)
    ensures var c := RunCommands(cmds, d, exit);
      && |c.log| <= |cmds|
      && (forall k :: 0 <= k < |c.log| ==> c.log[k] == CommandOk(cmds[k]))
      && (c.failure.Some? ==> |c.log| < |cmds|)
    decreases |cmds|
  {
    if cmds != [] {
      var st := Commands.Apply(cmds[0], d, exit);
      if st.outcome.Pass? && !st.exit {
        CommandsReported(cmds[1..], st.after, st.exit);
      }
    }
  }

  /** With the flag cleared, each file ends with exactly one verdict: a
      failure when it did not parse or a command threw, a success otherwise
      (a file cut short by EXIT included), and the flag cleared again.
      Between the start and the verdict there are only command notices. */
  lemma FileVerdict(policy: TasksParser.ManyPolicy, table: map<string, Registry.Factory>, file: TaskFile,
                    d: DirectorySpec.Directory)
    ensures var r := RunFile(policy, table, file, d, false);
      var parsed := TasksParser.ParseFile(policy, table, file.lines);
      var failed := parsed.None? || RunCommands(parsed.value, d, false).failure.Some?;
      && !r.exit
      && |r.log| >= 2 && r.log[0] == TaskStart(file.name)
      && r.log[|r.log| - 1] == (if failed then TaskFailure(file.name) else TaskSuccess(file.name))
      && forall k :: 0 < k < |r.log| - 1 ==> r.log[k].CommandOk? || r.log[k].CommandFailed?
  {
    var parsed := TasksParser.ParseFile(policy, table, file.lines);
    if parsed.Some? {
      CommandsClearExit(parsed.value, d);
      CommandsReported(parsed.value, d, false);
    }
  }

  /** The flag is cleared between files, whatever they hold. */
  lemma {:induction false} FilesClearExit(policy: TasksParser.ManyPolicy, table: map<string, Registry.Factory>,
                                          files: seq<TaskFile>, d: DirectorySpec.Directory)
    ensures !RunFiles(policy, table, files, d, false).exit
    decreases |files|
  {
    if files != [] {
      var first := RunFile(policy, table, files[0], d, false);
      FileVerdict(policy, table, files[0], d);
      FilesClearExit(policy, table, files[1..], first.after);
    }
  }

  /** EXIT ends its file at once: the commands after it never run. */
  lemma ExitSkipsRest(rest: seq<Commands.Command>, d: DirectorySpec.Directory, exit: bool)
    ensures RunCommands([Commands.Exit] + rest, d, exit) == CommandsRun([CommandOk(Commands.Exit)], None, d, false)
  {
    assert ([Commands.Exit] + rest)[0] == Commands.Exit;
  }

  /** Commands that neither throw nor exit hand their directory on to the
      ones after them, and their notices come first. */
  lemma {:induction false} CommandsAppend(p: seq<Commands.Command>, q: seq<Commands.Command>, d: DirectorySpec.Directory)
    requires forall k :: 0 <= k < |p| ==> !p[k].Exit?
    requires RunCommands(p, d, false).failure.None?
    ensures var first := RunCommands(p, d, false);
      RunCommands(p + q, d, false) == Behind(first.log, RunCommands(q, first.after, false))
    decreases |p|
  {
    if p == [] {
      assert p + q == q;
      assert [] + RunCommands(q, d, false).log == RunCommands(q, d, false).log;
    } else {
      assert (p + q)[0] == p[0] && (p + q)[1..] == p[1..] + q;
      var st := Commands.Apply(p[0], d, false);
      CommandsAppend(p[1..], q, st.after);
      var first := RunCommands(p[1..], st.after, false);
      BehindBehind([CommandOk(p[0])], first.log, RunCommands(q, first.after, false));
    }
  }

  /** A command that throws leaves the file failed and the effects of the
      commands before it in place: nothing is rolled back. */
  lemma FailureKeepsEarlierEffects(p: seq<Commands.Command>, bad: Commands.Command, q: seq<Commands.Command>,
                                   d: DirectorySpec.Directory)
    requires forall k :: 0 <= k < |p| ==> !p[k].Exit?
    requires RunCommands(p, d, false).failure.None?
    requires Commands.Apply(bad, RunCommands(p, d, false).after, false).outcome.Fail?
    ensures var r := RunCommands(p + [bad] + q, d, false);
      r.failure.Some? && r.after == RunCommands(p, d, false).after && r.log == RunCommands(p, d, false).log
  {
    assert p + [bad] + q == p + ([bad] + q);
    CommandsAppend(p, [bad] + q, d);
    assert ([bad] + q)[0] == bad;
    assert RunCommands(p, d, false).log + [] == RunCommands(p, d, false).log;
  }

  /** A file whose lines are all blank or comments runs nothing and is a
      success. */
  lemma CommentOnlyFileSucceeds(policy: TasksParser.ManyPolicy, table: map<string, Registry.Factory>, file: TaskFile,
                                d: DirectorySpec.Directory)
    requires forall k :: 0 <= k < |file.lines| ==> TasksParser.CleanLine(file.lines[k]) == []
    ensures RunFile(policy, table, file, d, false) == Run([TaskStart(file.name), TaskSuccess(file.name)], d, false)
  {
    TasksParser.CommentOnlyFile(policy, table, file.lines);
  }

  /** One line that does not parse fails its file before any of the
      file's commands runs, however many good lines precede it. */
  lemma BadLineRunsNothing(policy: TasksParser.ManyPolicy, table: map<string, Registry.Factory>, name: string,
                                  good: seq<string>, bad: string, rest: seq<string>, d: DirectorySpec.Directory, exit: bool)
    requires TasksParser.CleanLine(bad) != [] && TasksParser.ParseLine(policy, table, TasksParser.CleanLine(bad)).Failure?
    ensures RunFile(policy, table, TaskFile(name, good + [bad] + rest), d, exit) ==
      Run([TaskStart(name), TaskFailure(name)], d, exit)
  {
    TasksParser.BadLineFailsFile(policy, table, good, bad, rest);
  }
}
