// CommandRegistry: the table from command names to the factories that
// check a line's argument count and build the command.
module Registry {
  import opened Errors
  import opened Commands
  import PingCommand

  // The command names (CommandStrings.h).
  const AddUserToGroupName := "ADD USER TO GROUP"
  const CreateUserName := "CREATE USER"
  const DeleteUserName := "DELETE USER"
  const DisableUserName := "DISABLE USER"
  const SendMessageName := "SEND MESSAGE"
  const GetUsersName := "GET USERS"
  const GetGroupsName := "GET GROUPS"
  const GetMessageHistoryName := "GET MESSAGE HISTORY"
  const RemoveUserFromGroupName := "REMOVE USER FROM GROUP"
  const PingName := "PING"
  const ExitName := "EXIT"

  /** One factory lambda of the registry's constructor: which command it
      builds. What it does with the arguments is Build. */
  datatype Factory =
    | MakeAddUserToGroup
    | MakeCreateUser
    | MakeDeleteUser
    | MakeDisableUser
    | MakeExit
    | MakeGetGroups
    | MakeGetMessageHistory
    | MakeGetUsers
    | MakePing
    | MakeRemoveUserFromGroup
    | MakeSendMessage

  /** The number of arguments a factory accepts. */
  function Arity(f: Factory): nat {
    match f
    case MakeAddUserToGroup | MakePing | MakeRemoveUserFromGroup | MakeSendMessage => 2
    case MakeCreateUser | MakeDeleteUser | MakeDisableUser | MakeGetMessageHistory => 1
    case MakeExit | MakeGetGroups | MakeGetUsers => 0
  }

  /** A factory's body: refuse a wrong argument count, then construct the
      command from the arguments by position. PING's constructor also
      refuses a count std::stoi cannot read. */
  function Build(f: Factory, args: seq<string>): (r: Result<Command>) {
    if |args| != Arity(f) then Failure(InvalidArgument)
    else
      match f
      case MakeAddUserToGroup => Success(AddUserToGroup(args[0], args[1]))
      case MakeCreateUser => Success(CreateUser(args[0]))
      case MakeDeleteUser => Success(DeleteUser(args[0]))
      case MakeDisableUser => Success(DisableUser(args[0]))
      case MakeExit => Success(Exit)
      case MakeGetGroups => Success(GetGroups)
      case MakeGetMessageHistory => Success(GetMessageHistory(args[0]))
      case MakeGetUsers => Success(GetUsers)
      case MakePing =>
        (match PingCommand.Stoi(args[1])
         case None => Failure(InvalidArgument)
         case Some(n) => Success(Ping(args[0], n)))
      case MakeRemoveUserFromGroup => Success(RemoveUserFromGroup(args[0], args[1]))
      case MakeSendMessage => Success(SendMessage(args[0], args[1]))
  }

  /** CommandRegistry::createCommand on a table: an unknown name is an
      InvalidCommand, a known one is handed to its factory. */
  function Create(table: map<string, Factory>, name: string, args: seq<string>): (r: Result<Command>) {
    if name !in table then Failure(InvalidCommand(name)) else Build(table[name], args)
  }

  /** The table the registry's constructor registers. */
  const Standard: map<string, Factory> := map[
    AddUserToGroupName := MakeAddUserToGroup,
    CreateUserName := MakeCreateUser,
    DeleteUserName := MakeDeleteUser,
    DisableUserName := MakeDisableUser,
    ExitName := MakeExit,
    GetGroupsName := MakeGetGroups,
    GetMessageHistoryName := MakeGetMessageHistory,
    GetUsersName := MakeGetUsers,
    PingName := MakePing,
    RemoveUserFromGroupName := MakeRemoveUserFromGroup,
    SendMessageName := MakeSendMessage
  ]

  class CommandRegistry {
    var table: map<string, Factory>

    /** Registers the eleven commands, each under its name. */
    constructor ()
      ensures table == Standard
    {
      table := map[];
      new;
      RegisterCommand(AddUserToGroupName, MakeAddUserToGroup);
      RegisterCommand(CreateUserName, MakeCreateUser);
      RegisterCommand(DeleteUserName, MakeDeleteUser);
      RegisterCommand(DisableUserName, MakeDisableUser);
      RegisterCommand(ExitName, MakeExit);
      RegisterCommand(GetGroupsName, MakeGetGroups);
      RegisterCommand(GetMessageHistoryName, MakeGetMessageHistory);
      RegisterCommand(GetUsersName, MakeGetUsers);
      RegisterCommand(PingName, MakePing);
      RegisterCommand(RemoveUserFromGroupName, MakeRemoveUserFromGroup);
      RegisterCommand(SendMessageName, MakeSendMessage);
    }

    /** Stores the factory under the key, replacing any earlier one. */
    method RegisterCommand(key: string, f: Factory)
      modifies this
      ensures table == old(table)[key := f]
    {
      table := table[key := f];
    }

    /** Looks the name up and runs its factory; never touches a
        SystemState. */
    function CreateCommand(name: string, args: seq<string>): (r: Result<Command>)
      reads this
      ensures name !in table ==> r == Failure(InvalidCommand(name))
      ensures name in table ==> r == Build(table[name], args)
    {
      Create(table, name, args)
    }
  }

  // ---------------------------------------------------------------------
  // Properties of the standard table

  /** The registered names are exactly the eleven command names. */
  lemma StandardNames(name: string)
    ensures name in Standard <==>
      name in {AddUserToGroupName, CreateUserName, DeleteUserName, DisableUserName, SendMessageName,
               GetUsersName, GetGroupsName, GetMessageHistoryName, RemoveUserFromGroupName, PingName, ExitName}
  {
  }

  /** createCommand fails with InvalidCommand exactly when the name is not
      registered; a factory never raises that error. */
  lemma InvalidCommandIffUnknown(table: map<string, Factory>, name: string, args: seq<string>)
    ensures Create(table, name, args) == Failure(InvalidCommand(name)) <==> name !in table
  {
    if name in table {
      var f := table[name];
      if |args| == Arity(f) && f.MakePing? && PingCommand.Stoi(args[1]).None? {
        assert Create(table, name, args) == Failure(InvalidArgument);
      }
    }
  }

  /** A wrong argument count is an InvalidArgument; a right one builds the
      command, except for a PING count std::stoi refuses. */
  lemma ArityChecked(f: Factory, args: seq<string>)
    ensures |args| != Arity(f) ==> Build(f, args) == Failure(InvalidArgument)
    ensures |args| == Arity(f) && f != MakePing ==> Build(f, args).Success?
    ensures |args| == Arity(f) && f == MakePing ==>
      (Build(f, args).Success? <==> PingCommand.Stoi(args[1]).Some?)
  {
  }

  /** The arguments a command was built from, by position; the count of a
      PING is the value std::stoi read. */
  function ArgsOf(c: Command): seq<string> {
    match c
    case AddUserToGroup(u, g) => [u, g]
    case CreateUser(u) => [u]
    case DeleteUser(u) => [u]
    case DisableUser(u) => [u]
    case Exit => []
    case GetGroups => []
    case GetMessageHistory(u) => [u]
    case GetUsers => []
    case Ping(u, n) => [u, PingCommand.IntToString(n)]
    case RemoveUserFromGroup(u, g) => [u, g]
    case SendMessage(u, m) => [u, m]
  }

  /** The factory that builds a command of that kind. */
  function FactoryOf(c: Command): Factory {
    match c
    case AddUserToGroup(_, _) => MakeAddUserToGroup
    case CreateUser(_) => MakeCreateUser
    case DeleteUser(_) => MakeDeleteUser
    case DisableUser(_) => MakeDisableUser
    case Exit => MakeExit
    case GetGroups => MakeGetGroups
    case GetMessageHistory(_) => MakeGetMessageHistory
    case GetUsers => MakeGetUsers
    case Ping(_, _) => MakePing
    case RemoveUserFromGroup(_, _) => MakeRemoveUserFromGroup
    case SendMessage(_, _) => MakeSendMessage
  }

  /** Arguments are taken by position: a built command gives back its
      arguments, with a PING count as std::stoi read it. */
  lemma BuildByPosition(f: Factory, args: seq<string>)
    requires Build(f, args).Success?
    ensures FactoryOf(Build(f, args).value) == f
    ensures !f.MakePing? ==> ArgsOf(Build(f, args).value) == args
    ensures f.MakePing? ==>
      Build(f, args).value.user == args[0] && PingCommand.Stoi(args[1]) == Some(Build(f, args).value.times)
  {
  }

  /** Every command can be written as a line's arguments and built back:
      its factory applied to ArgsOf gives the same command. */
  lemma BuildArgsOf(c: Command)
    requires c.Ping? ==> PingCommand.InIntRange(c.times)
    ensures Build(FactoryOf(c), ArgsOf(c)) == Success(c)
  {
    if c.Ping? {
      PingCommand.StoiOfIntToString(c.times, "");
      assert PingCommand.IntToString(c.times) + "" == PingCommand.IntToString(c.times);
    }
  }

  /** "PING alice invalid" names a registered command with the right count
      and is still refused. */
  lemma PingInvalidCount()
    ensures Create(Standard, PingName, ["alice", "invalid"]) == Failure(InvalidArgument)
  {
    PingCommand.StoiRejectsWord();
  }
}
