// The commands a task line can name, the EXIT flag they share, and what
// executing one does to a SystemState and prints. Each of the nine
// one-line command classes is a constructor of Command; its execute is a
// case of Execute.
module Commands {
  import opened Errors
  import DirectorySpec
  import Domain
  import PingCommand

  datatype Command =
    | AddUserToGroup(user: string, group: string)
    | CreateUser(user: string)
    | DeleteUser(user: string)
    | DisableUser(user: string)
    | Exit
    | GetGroups
    | GetMessageHistory(user: string)
    | GetUsers
    | Ping(user: string, times: int)
    | RemoveUserFromGroup(user: string, group: string)
    | SendMessage(user: string, message: string)

  /** ExitCommand's static m_triggered: one object shared by every EXIT
      command and the task executor. */
  class ExitFlag {
    var triggered: bool

    /** The flag starts cleared. */
    constructor ()
      ensures !triggered
    {
      triggered := false;
    }

    /** ExitCommand::execute. */
    method Trigger()
      modifies this
      ensures triggered
    {
      triggered := true;
    }

    /** ExitCommand::reset. */
    method Reset()
      modifies this
      ensures !triggered
    {
      triggered := false;
    }
  }

  /** What executing a command leaves: its outcome, the directory and the
      EXIT flag. */
  datatype Step = Step(outcome: Outcome, after: DirectorySpec.Directory, exit: bool)

  /** A SystemState operation's result as a step: the new directory on
      success, the old one and the error on failure. */
  function Lift(res: Result<DirectorySpec.Directory>, d: DirectorySpec.Directory, exit: bool): Step {
    match res
    case Success(d') => Step(Pass, d', exit)
    case Failure(e) => Step(Fail(e), d, exit)
  }

  /** Executing cmd on directory d with the EXIT flag at exit. Only EXIT
      touches the flag, and the queries and PING leave d as it is. */
  function Apply(cmd: Command, d: DirectorySpec.Directory, exit: bool): (st: Step)
    ensures !cmd.Exit? ==> st.exit == exit
    ensures cmd.Exit? ==> st == Step(Pass, d, true)
    ensures cmd.GetGroups? || cmd.GetUsers? || cmd.Ping? || cmd.GetMessageHistory? ==> st.after == d
    ensures st.outcome.Fail? ==> st.after == d
  {
    match cmd
    case AddUserToGroup(u, g) => Lift(DirectorySpec.AddUserToGroup(d, u, g), d, exit)
    case CreateUser(u) => Lift(DirectorySpec.AddUser(d, u, DirectorySpec.NewUser), d, exit)
    case DeleteUser(u) => Lift(DirectorySpec.DeleteUser(d, u), d, exit)
    case DisableUser(u) => Lift(DirectorySpec.DisableUser(d, u), d, exit)
    case Exit => Step(Pass, d, true)
    case GetGroups => Step(Pass, d, exit)
    case GetMessageHistory(u) =>
      if u in d.users then Step(Pass, d, exit) else Step(Fail(UserNotFound(u)), d, exit)
    case GetUsers => Step(Pass, d, exit)
    case Ping(_, _) => Step(Pass, d, exit)
    case RemoveUserFromGroup(u, g) => Lift(DirectorySpec.RemoveUserFromGroup(d, u, g), d, exit)
    case SendMessage(u, m) => Lift(DirectorySpec.SendMessage(d, u, m), d, exit)
  }

  /** The lines a successful command prints on directory d (the one it
      started from): the success notice first, then the result lines. The
      listings come in the maps' unspecified order, so only their multiset
      is fixed. The printed verbs are the program's own, misspellings
      included. */
  ghost predicate Prints(cmd: Command, d: DirectorySpec.Directory, lines: seq<string>) {
    match cmd
    case AddUserToGroup(u, g) => lines == ["ADD USER " + u + " TO GROUP " + g]
    case CreateUser(u) => lines == ["CREATE USER " + u]
    case DeleteUser(u) => lines == ["DELETE USER " + u]
    case DisableUser(u) => lines == ["DISABLE USER " + u]
    case Exit => lines == []
    case GetGroups => |lines| >= 1 && lines[0] == "GET GROUPS" && multiset(lines[1..]) == multiset(d.groups.Keys)
    case GetMessageHistory(u) => u in d.users && lines == ["GET MESSAGE HISTORY " + u] + d.users[u].messages
    case GetUsers => |lines| >= 1 && lines[0] == "GET USERS" && multiset(lines[1..]) == multiset(d.users.Keys)
    case Ping(u, n) => lines == [PingCommand.Header(u, n)] + PingCommand.Rounds(u, u in d.users, n)
    case RemoveUserFromGroup(u, g) => lines == ["ROMOVE USER " + u + " FROM GROUP " + g]
    case SendMessage(u, m) => lines == ["SEND MASSAGE " + u + " " + m]
  }

  /** The commands that only read the state. */
  predicate IsQuery(cmd: Command) {
    cmd.GetGroups? || cmd.GetMessageHistory? || cmd.GetUsers? || cmd.Ping?
  }

  /** ICommand::execute of each command class: the SystemState call, then
      the printing, which a thrown error skips. */
  method Execute(cmd: Command, state: Domain.SystemState, exit: ExitFlag) returns (r: Outcome, lines: seq<string>)
    requires state.Valid() && exit !in state.Repr
    modifies state.Repr, exit
    ensures state.Valid() && old(state.Repr) <= state.Repr && fresh(state.Repr - old(state.Repr))
    ensures exit !in state.Repr
    ensures Apply(cmd, old(state.Abstract()), old(exit.triggered)) == Step(r, state.Abstract(), exit.triggered)
    ensures r.Pass? ==> Prints(cmd, old(state.Abstract()), lines)
    ensures r.Fail? ==> lines == []
  {
    if cmd.Exit? {
      exit.Trigger();
      r, lines := Pass, [];
    } else if IsQuery(cmd) {
      ApplyIgnoresFlag(cmd, state.Abstract(), exit.triggered);
      r, lines := Query(cmd, state);
    } else {
      ApplyIgnoresFlag(cmd, state.Abstract(), exit.triggered);
      r, lines := Update(cmd, state);
    }
  }

  /** A command other than EXIT does the same whatever the flag, and
      passes the flag on. */
  lemma ApplyIgnoresFlag(cmd: Command, d: DirectorySpec.Directory, exit: bool)
    requires !cmd.Exit?
    ensures Apply(cmd, d, exit) == Apply(cmd, d, false).(exit := exit)
  {
    match cmd
    case AddUserToGroup(u, g) =>
    case CreateUser(u) =>
    case DeleteUser(u) =>
    case DisableUser(u) =>
    case GetGroups =>
    case GetMessageHistory(u) =>
    case GetUsers =>
    case Ping(_, _) =>
    case RemoveUserFromGroup(u, g) =>
    case SendMessage(u, m) =>
  }

  /** execute of the commands that change the state: the SystemState
      operation, then the success line. */
  method Update(cmd: Command, state: Domain.SystemState) returns (r: Outcome, lines: seq<string>)
    requires state.Valid() && !cmd.Exit? && !IsQuery(cmd)
    modifies state.Repr
    ensures state.Valid() && old(state.Repr) <= state.Repr && fresh(state.Repr - old(state.Repr))
    ensures Apply(cmd, old(state.Abstract()), false) == Step(r, state.Abstract(), false)
    ensures r.Pass? ==> Prints(cmd, old(state.Abstract()), lines)
    ensures r.Fail? ==> lines == []
  {
    match cmd {
      case AddUserToGroup(u, g) => r, lines := ExecuteAddUserToGroup(u, g, state);
      case CreateUser(u) => r, lines := ExecuteCreateUser(u, state);
      case DeleteUser(u) => r, lines := ExecuteDeleteUser(u, state);
      case DisableUser(u) => r, lines := ExecuteDisableUser(u, state);
      case RemoveUserFromGroup(u, g) => r, lines := ExecuteRemoveUserFromGroup(u, g, state);
      case SendMessage(u, m) => r, lines := ExecuteSendMessage(u, m, state);
    }
  }

  /** AddUserToGroupCommand::execute. */
  method ExecuteAddUserToGroup(u: string, g: string, state: Domain.SystemState) returns (r: Outcome, lines: seq<string>)
    requires state.Valid()
    modifies state.Repr
    ensures state.Valid() && old(state.Repr) <= state.Repr && fresh(state.Repr - old(state.Repr))
    ensures Apply(AddUserToGroup(u, g), old(state.Abstract()), false) == Step(r, state.Abstract(), false)
    ensures lines == if r.Pass? then ["ADD USER " + u + " TO GROUP " + g] else []
  {
    r := state.AddUserToGroup(u, g);
    lines := if r.Pass? then ["ADD USER " + u + " TO GROUP " + g] else [];
  }

  /** CreateUserCommand::execute: a new User object with no groups and no
      messages, registered under its name, then the success line. */
  method ExecuteCreateUser(u: string, state: Domain.SystemState) returns (r: Outcome, lines: seq<string>)
    requires state.Valid()
    modifies state
    ensures state.Valid() && old(state.Repr) <= state.Repr && fresh(state.Repr - old(state.Repr))
    ensures Apply(CreateUser(u), old(state.Abstract()), false) == Step(r, state.Abstract(), false)
    ensures lines == if r.Pass? then ["CREATE USER " + u] else []
  {
    var user := new Domain.User(u);
    assert user.View() == DirectorySpec.NewUser;
    r := state.AddUser(user);
    lines := if r.Pass? then ["CREATE USER " + u] else [];
  }

  /** DeleteUserCommand::execute. */
  method ExecuteDeleteUser(u: string, state: Domain.SystemState) returns (r: Outcome, lines: seq<string>)
    requires state.Valid()
    modifies state.Repr
    ensures state.Valid() && old(state.Repr) <= state.Repr && fresh(state.Repr - old(state.Repr))
    ensures Apply(DeleteUser(u), old(state.Abstract()), false) == Step(r, state.Abstract(), false)
    ensures lines == if r.Pass? then ["DELETE USER " + u] else []
  {
    r := state.DeleteUser(u);
    lines := if r.Pass? then ["DELETE USER " + u] else [];
  }

  /** DisableUserCommand::execute. */
  method ExecuteDisableUser(u: string, state: Domain.SystemState) returns (r: Outcome, lines: seq<string>)
    requires state.Valid()
    modifies state.Repr
    ensures state.Valid() && old(state.Repr) <= state.Repr && fresh(state.Repr - old(state.Repr))
    ensures Apply(DisableUser(u), old(state.Abstract()), false) == Step(r, state.Abstract(), false)
    ensures lines == if r.Pass? then ["DISABLE USER " + u] else []
  {
    r := state.DisableUser(u);
    lines := if r.Pass? then ["DISABLE USER " + u] else [];
  }

  /** RemoveUserFromGroupCommand::execute, with the program's spelling of
      its success line. */
  method ExecuteRemoveUserFromGroup(u: string, g: string, state: Domain.SystemState) returns (r: Outcome, lines: seq<string>)
    requires state.Valid()
    modifies state.Repr
    ensures state.Valid() && old(state.Repr) <= state.Repr && fresh(state.Repr - old(state.Repr))
    ensures Apply(RemoveUserFromGroup(u, g), old(state.Abstract()), false) == Step(r, state.Abstract(), false)
    ensures lines == if r.Pass? then ["ROMOVE USER " + u + " FROM GROUP " + g] else []
  {
    r := state.RemoveUserFromGroup(u, g);
    lines := if r.Pass? then ["ROMOVE USER " + u + " FROM GROUP " + g] else [];
  }

  /** SendMessageCommand::execute, with the program's spelling of its
      success line. */
  method ExecuteSendMessage(u: string, m: string, state: Domain.SystemState) returns (r: Outcome, lines: seq<string>)
    requires state.Valid()
    modifies state.Repr
    ensures state.Valid() && old(state.Repr) <= state.Repr && fresh(state.Repr - old(state.Repr))
    ensures Apply(SendMessage(u, m), old(state.Abstract()), false) == Step(r, state.Abstract(), false)
    ensures lines == if r.Pass? then ["SEND MASSAGE " + u + " " + m] else []
  {
    r := state.SendMessage(u, m);
    lines := if r.Pass? then ["SEND MASSAGE " + u + " " + m] else [];
  }

  /** execute of the commands that only read the state: the success line,
      then one line per result. */
  method Query(cmd: Command, state: Domain.SystemState) returns (r: Outcome, lines: seq<string>)
    requires state.Valid() && IsQuery(cmd)
    ensures Apply(cmd, state.Abstract(), false).outcome == r
    ensures r.Pass? ==> Prints(cmd, state.Abstract(), lines)
    ensures r.Fail? ==> lines == []
  {
    match cmd {
      case GetGroups =>
        lines := ExecuteGetGroups(state);
        r := Pass;
      case GetMessageHistory(u) =>
        r, lines := ExecuteGetMessageHistory(u, state);
      case GetUsers =>
        lines := ExecuteGetUsers(state);
        r := Pass;
      case Ping(u, n) =>
        var isUser := state.IsUserExists(u);
        lines := PingCommand.Execute(u, n, isUser);
        r := Pass;
    }
  }

  /** GetGroupsCommand::execute: the header, then one line per group, in
      the map's order. */
  method ExecuteGetGroups(state: Domain.SystemState) returns (lines: seq<string>)
    requires state.Valid()
    ensures Prints(GetGroups, state.Abstract(), lines)
  {
    var groups := state.GetGroups();
    lines := ["GET GROUPS"];
    for k := 0 to |groups|
      invariant lines == ["GET GROUPS"] + Domain.GroupNames(groups[..k])
    {
      lines := lines + [groups[k].name];
    }
    assert groups[..|groups|] == groups;
  }

  /** GetMessageHistoryCommand::execute: an unknown user throws before
      anything is printed; otherwise the header, then the messages. */
  method ExecuteGetMessageHistory(u: string, state: Domain.SystemState) returns (r: Outcome, lines: seq<string>)
    requires state.Valid()
    ensures r == Apply(GetMessageHistory(u), state.Abstract(), false).outcome
    ensures r.Pass? ==> Prints(GetMessageHistory(u), state.Abstract(), lines)
    ensures r.Fail? ==> lines == []
  {
    var history := state.GetMessageHistory(u);
    if history.Failure? {
      return Fail(history.error), [];
    }
    lines := ["GET MESSAGE HISTORY " + u];
    for k := 0 to |history.value|
      invariant lines == ["GET MESSAGE HISTORY " + u] + history.value[..k]
    {
      lines := lines + [history.value[k]];
    }
    assert history.value[..|history.value|] == history.value;
    r := Pass;
  }

  /** GetUsersCommand::execute: the header, then one line per user, in the
      map's order. */
  method ExecuteGetUsers(state: Domain.SystemState) returns (lines: seq<string>)
    requires state.Valid()
    ensures Prints(GetUsers, state.Abstract(), lines)
  {
    var users := state.GetUsers();
    lines := ["GET USERS"];
    for k := 0 to |users|
      invariant lines == ["GET USERS"] + Domain.Names(users[..k])
    {
      lines := lines + [users[k].name];
    }
    assert users[..|users|] == users;
  }

  // ---------------------------------------------------------------------
  // Properties of the commands

  /** EXIT sets the flag whatever it was and changes nothing else; running
      it twice leaves what running it once left. */
  lemma ExitIdempotent(d: DirectorySpec.Directory, exit: bool)
    ensures var once := Apply(Exit, d, exit);
      once.exit && once.after == d && Apply(Exit, once.after, once.exit) == once
  {
  }

  /** PING only asks whether the user exists: on any directory it passes
      and leaves the directory as it was. */
  lemma PingLeavesState(d: DirectorySpec.Directory, user: string, times: int, exit: bool)
    ensures Apply(Ping(user, times), d, exit) == Step(Pass, d, exit)
  {
  }
}
