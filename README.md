# User management task runner, modelled in Dafny

The system reads task files. Each file holds one command per line, such as
`CREATE USER alice`, `ADD USER alice TO GROUP admins`,
`SEND MESSAGE alice "hello there"` or `PING alice 3`. The commands run
against one in-memory directory of users, groups and messages. This project
models the core of that system:

- **TasksParser**: cleans each line. It drops leading spaces and tabs,
  cuts at the first `#`, and trims trailing spaces, tabs, CRs and LFs. A small set of parser combinators splits the line into its
  uppercase command name and its arguments. ParseTasks turns a file into
  commands, or into nothing when any line fails.
- **CommandRegistry**: the table from the eleven command names to factories.
  Each factory checks the argument count, and for PING the count's `stoi`.
- **SystemState, User, Group**: the directory. It is two maps of heap
  objects: users by name, and groups by name with their members. The model
  keeps it as Dafny classes with a footprint (`Repr`) and proves each
  operation against a value-level specification (module `DirectorySpec`).
- **The commands**: each command's `execute` (module `Commands`). This
  includes PING's output loop and EXIT's shared flag: its `execute` and
  `reset` are methods, and `wasTriggered` is a read of the flag.
- **TaskManager::RunTasksFromFiles**: the file loop and the command loop.
  It handles failures and EXIT. Its report is a log of events: each
  file's start, a notice per command that ran, the error that stopped a
  file, and each file's success or failure.

The modules are `Errors`, `Chars`, `PingCommand`, `DirectorySpec`,
`Domain`, `Commands`, `Registry`, `TasksParser` and `Tasks`, one per file.

Some behaviours of the code are easy to miss. The model keeps each of them:

- **EXIT ends only the current file.** The command loop resets the flag
  as soon as EXIT has run (src/app/TaskManager.cpp:93-97). The checks
  after the loop find it cleared, and the next file runs as usual
  (`Tasks.EveryFileStarts`, `Tasks.FilesClearExit`).
- **A file cut short by EXIT is reported as a success.** The flag has
  already been reset when the verdict is chosen (`Tasks.FileVerdict`).
- **A file of blank and comment lines is a success.** ParseTasks still
  adds the file's entry, with an empty command list, and the executor
  reports it as a success (`TasksParser.CommentOnlyFile`,
  `Tasks.CommentOnlyFileSucceeds`).
- **PING accepts negative counts.** The factory only checks that
  `std::stoi` succeeds (`PingCommand.StoiAcceptsNegative`). A count of
  zero or less prints only the header.
- **DeleteUser leaves stale memberships.** It does not remove the user from
  its groups. A user created later under the same name is already a member
  of those groups (`DirectorySpec.DeleteLeavesStaleMembership`).
- **The success lines keep the code's spelling:** "ROMOVE USER … FROM
  GROUP …" and "SEND MASSAGE …".

## Model

| member | source | states |
|---|---|---|
| Chars.RunEnd | src/app/TasksParser.cpp:50-59 | the longest run of matching characters from i: every character before the end matches, the one at the end does not |
| Chars.RunEndAt | src/app/TasksParser.cpp:50-59 | any end index bounded by those two facts is that run's end |
| Chars.RunStart | src/app/TasksParser.cpp:260-276 | the backward run ending at j (find_last_not_of): everything in it matches, the character before it does not |
| Chars.RunStartAt | src/app/TasksParser.cpp:260-276 | any start index bounded by those two facts is that backward run's start |
| TasksParser.ManyCharsRun | src/app/TasksParser.cpp:18-45 | many(char_p_if(p)) yields exactly the run of matching characters; many1 yields the same run but fails at the start when the run is empty |
| TasksParser.SpacesLoop | src/app/TasksParser.cpp:50-59 | spaces() always succeeds, consuming exactly the whitespace at i, all of it whitespace |
| TasksParser.Spaces1Loop | src/app/TasksParser.cpp:64-76 | spaces1() fails at i exactly when the character at i is not whitespace; otherwise it consumes a non-empty run |
| TasksParser.PrimitivesAdvance | src/app/TasksParser.cpp:18-139 | char_p, char_p_if, spaces1 and word_parser succeed exactly when their first character fits; spaces always succeeds; uppercase_word_parser succeeds exactly when the word at i is all uppercase; on success each advances past exactly what it matched, and on failure each reports the start index |
| TasksParser.WordAt | src/app/TasksParser.cpp:81-95 | a word at i is exactly the maximal run of non-space, non-quote characters |
| TasksParser.QuotedAt | src/app/TasksParser.cpp:100-109 | a quoted string is the text up to the next double quote, and fails when there is no closing quote |
| TasksParser.Classify | src/app/TasksParser.cpp:147-177 | the token classifier advances on success, fails at its start index otherwise, and every name part is a non-empty uppercase word |
| TasksParser.Item | src/app/TasksParser.cpp:179 | spaces1() >> classifier advances on success |
| TasksParser.Many | src/app/TasksParser.cpp:179 | many(...) stays within the line |
| TasksParser.FoldTokens | src/app/TasksParser.cpp:181-201 | the fold appends each uppercase token to the name after a space, and each other token to the arguments, in order |
| TasksParser.ManyPolicies | src/app/TasksParser.cpp:179 | backtracking many never fails; when propagating many succeeds, both give the same tokens |
| TasksParser.ExtractPolicies | src/app/TasksParser.cpp:145-202 | under backtracking a line parses iff it starts with an uppercase word; a propagating success agrees with backtracking |
| TasksParser.CommandNameUpper | src/app/TasksParser.cpp:145-202 | a parsed command name is non-empty, starts with an uppercase letter, and holds only uppercase letters and spaces |
| TasksParser.QuotedIsArgument | src/app/TasksParser.cpp:161-169 | a token that starts with a double quote is an argument, never a name part; its text is what stood between the quotes and holds no quote |
| TasksParser.ParseRendered | src/app/TasksParser.cpp:145-202 | round trip: an uppercase word and writable tokens, written with single spaces (quoted where needed), parse back to the name and arguments they fold into |
| TasksParser.AddUserToGroupLine | src/app/TasksParser.cpp:145-202 | "ADD USER u TO GROUP g" parses to the registry name "ADD USER TO GROUP" with arguments [u, g] |
| TasksParser.SendMessageLine | src/app/TasksParser.cpp:145-202 | `SEND MESSAGE u "m"` parses to "SEND MESSAGE" with arguments [u, m]; the quoted message stays one argument, spaces included |
| TasksParser.CleanLine | src/app/TasksParser.cpp:260-276 | the cleaned line has no leading space or tab, no '#', and no trailing space, tab, CR or LF (a trailing vertical tab or form feed stays) |
| TasksParser.CleanLineIdempotent | src/app/TasksParser.cpp:260-276 | cleaning a cleaned line changes nothing |
| TasksParser.CleanLineCutsAtHash | src/app/TasksParser.cpp:260-276 | whatever follows the first '#' never changes the cleaned line |
| TasksParser.CleanLineAt | src/app/TasksParser.cpp:260-276 | a line indented by a blanks, with its comment at h, cleans to the text between them with trailing spaces, tabs, CRs and LFs trimmed |
| TasksParser.CommentLineIsEmpty | src/app/TasksParser.cpp:222-227 | a line of blanks, or of blanks and then a comment, cleans to empty and is skipped |
| TasksParser.CleanLineStrips | src/app/TasksParser.cpp:260-276 | indentation, trailing padding and a comment around a command are all removed, and the command text is kept |
| TasksParser.CleanLineStripsTail | src/app/TasksParser.cpp:260-276 | the same for any trailing text that starts with a '#' |
| TasksParser.CreateCommandFromLine | src/app/TasksParser.cpp:229-236 | agrees with ParseLine: the result is a CommandExecutionException exactly when the tokenizer fails, and a built command's name is registered |
| TasksParser.ParseLineOutcomes | src/app/TasksParser.cpp:229-236 | only the tokenizer raises CommandExecutionException; the result is InvalidCommand, for the name the tokenizer read, exactly when that name is not registered; a built command comes from the registered factory, and every command except PING keeps the line's arguments by position |
| TasksParser.ParseTasks | src/app/TasksParser.cpp:216-254 | the loop gives exactly one entry, holding the file's commands, when no line fails, and no entry otherwise |
| TasksParser.ParseFileSkipsEmpty | src/app/TasksParser.cpp:222-248 | parsing a file equals parsing its non-empty cleaned lines one after another |
| TasksParser.ParseEachLines | src/app/TasksParser.cpp:229-247 | lines parse together iff each one parses, and then give one command per line, in order |
| TasksParser.ParseFileLines | src/app/TasksParser.cpp:216-254 | a file parses iff each non-empty cleaned line does; it then has one command per such line, in order |
| TasksParser.CommentOnlyFile | src/app/TasksParser.cpp:249-251 | a file of blank and comment lines still parses, to an empty command list |
| TasksParser.BadLineFailsFile | src/app/TasksParser.cpp:242-251 | one failing line makes the whole file fail, whatever precedes it |
| Registry.CommandRegistry.constructor | src/app/CommandRegistry.cpp:27-94 | the table holds exactly the eleven standard factories |
| Registry.CommandRegistry.RegisterCommand | src/app/CommandRegistry.cpp:101-104 | the key now maps to the new factory, replacing any earlier one, and the other entries are unchanged |
| Registry.CommandRegistry.CreateCommand | src/app/CommandRegistry.cpp:115-123 | an unknown name is an InvalidCommandException; a known name runs its factory on the arguments |
| Registry.StandardNames | include/utils/CommandStrings.h:1-18 | the registered names are exactly the eleven command names |
| Registry.InvalidCommandIffUnknown | src/app/CommandRegistry.cpp:115-123 | createCommand fails with InvalidCommand iff the name is not registered |
| Registry.ArityChecked | src/app/CommandRegistry.cpp:29-93 | a wrong argument count is an InvalidArgumentException; a right one builds the command, except PING, which also needs its count to pass stoi |
| Registry.BuildByPosition | src/app/CommandRegistry.cpp:29-93 | a built command is of its factory's kind and keeps its arguments by position |
| Registry.BuildArgsOf | src/app/CommandRegistry.cpp:29-93 | every command, with an int-range PING count, is rebuilt from its arguments by its factory |
| Registry.PingInvalidCount | src/commands/PingCommand.cpp:11-22 | "PING alice invalid" is refused with InvalidArgument |
| PingCommand.Stoi | src/commands/PingCommand.cpp:14-21 | an accepted count fits in a 32-bit int |
| PingCommand.NatToStringDigits | src/commands/PingCommand.cpp:27 | to_string of a natural number is a non-empty string of digits with that value |
| PingCommand.StoiOfIntToString | src/commands/PingCommand.cpp:14-21 | stoi reads back any in-range int that to_string wrote, whatever non-digit text follows |
| PingCommand.StoiRejectsWord | src/commands/PingCommand.cpp:14-21 | "invalid" is not a count |
| PingCommand.StoiAcceptsNegative | src/commands/PingCommand.cpp:14-21 | "-3" is accepted as a count |
| PingCommand.Execute | src/commands/PingCommand.cpp:24-35 | the loop prints the header and then one round per iteration |
| PingCommand.RoundsLength | src/commands/PingCommand.cpp:28-33 | n rounds print 2n lines when the user exists, n when not, and none for n <= 0 |
| PingCommand.RoundsAt | src/commands/PingCommand.cpp:28-33 | round k sits at offset k times the round width; its "Sent Ping" line comes first, then "received a ping" when the user exists |
| PingCommand.NoReceiptWithoutUser | src/commands/PingCommand.cpp:31-32 | without the user, no line says it received a ping |
| PingCommand.PingLineCounts | tests/commands/CommandsTest.cpp:325-362 | PING of an existing user with count 2 prints 5 lines; PING of a missing user with count 3 prints 4 |
| DirectorySpec.Without | src/domain/Group.cpp:45-54 | erase/remove_if keeps exactly the other elements and never grows the list |
| DirectorySpec.WithoutAbsent | src/domain/Group.cpp:45-54 | removing a name that is absent changes nothing |
| DirectorySpec.WithoutDistinct | src/domain/Group.cpp:45-54 | removing a name from a list without repeats leaves a list without repeats, one shorter when the name was there |
| DirectorySpec.AddUserKeepsWf | src/domain/SystemState.cpp:55-61 | adding a user with no groups keeps the directory's invariants |
| DirectorySpec.DeleteUserKeepsWf | src/domain/SystemState.cpp:75-81 | deleting a user keeps the invariants |
| DirectorySpec.DisableUserKeepsWf | src/domain/SystemState.cpp:87-95 | disabling a user keeps the invariants |
| DirectorySpec.SendMessageKeepsWf | src/domain/SystemState.cpp:187-196 | sending a message keeps the invariants |
| DirectorySpec.AddUserToGroupKeepsWf | src/domain/SystemState.cpp:131-152 | adding a user to a group keeps the invariants: groups are non-empty and without repeats, and the user's list and the group's members agree |
| DirectorySpec.RemoveUserFromGroupKeepsWf | src/domain/SystemState.cpp:160-179 | removing a user from a group keeps the invariants |
| DirectorySpec.ListedGroupsExist | src/domain/SystemState.cpp:36-49 | under the invariants, every group a user lists exists |
| DirectorySpec.AddThenRemove | src/domain/SystemState.cpp:131-179 | a successful add to a group is undone by removing the user from it again, an added group included |
| DirectorySpec.RemoveErasesLastMember | src/domain/SystemState.cpp:174-178 | after a removal the group is gone iff the user was its only member |
| DirectorySpec.DisabledUserIsBlocked | src/domain/SystemState.cpp:137-142 | a disabled user can neither join a group it is not in nor receive a message |
| DirectorySpec.DisableIdempotent | src/domain/SystemState.cpp:87-95 | disabling twice is disabling once |
| DirectorySpec.SendMessageAppends | src/domain/SystemState.cpp:187-209 | a message goes to the end of the recipient's history and leaves everyone else's history unchanged |
| DirectorySpec.AddThenDelete | src/domain/SystemState.cpp:55-81 | adding a new user and deleting it gives back the directory |
| DirectorySpec.DeleteLeavesStaleMembership | src/domain/SystemState.cpp:75-81 | for any user and any group it belongs to: after DeleteUser the name still counts as a member; once created again, the user is a member with an empty list of its own and cannot join the group |
| DirectorySpec.StaleMembershipFromEmpty | src/domain/SystemState.cpp:131-152 | from the empty directory, a created user who joins a group is a member of it, so the stale case arises |
| Domain.Drop | src/domain/User.cpp:67-73 | the remaining groups are all taken from the list and none of them is the dropped group object |
| Domain.NamesDropNamed | src/domain/Group.cpp:45-54 | dropping the members with a username drops exactly that name from the member names |
| Domain.GroupNamesDrop | src/domain/User.cpp:67-73 | dropping the only group object of its name drops exactly that name from the user's group names |
| Domain.RemoveMemberCount | src/domain/Group.cpp:45-54 | the member list shrinks by one iff the user was a member, while RemoveMember decrements the count either way |
| Domain.User.constructor | src/domain/User.cpp:12-20 | a new user has the given name, is enabled and has no groups and no messages |
| Domain.User.Disable | src/domain/User.cpp:32-35 | sets the disabled flag and changes nothing else |
| Domain.User.IsInGroup | src/domain/User.cpp:79-89 | true iff a group of that name is in the user's list |
| Domain.User.JoinGroup | src/domain/User.cpp:56-62 | appends the group unless a group of that name is already listed; flag and messages unchanged |
| Domain.User.RemoveGroup | src/domain/User.cpp:67-73 | removes every occurrence of that group object; flag and messages unchanged |
| Domain.User.AddMessage | src/domain/User.cpp:94-97 | appends the message to the history; flag and groups unchanged |
| Domain.Group.constructor | src/domain/Group.cpp:11-19 | a new group has the given name, no members and a count of zero |
| Domain.Group.HasMember | src/domain/Group.cpp:61-67 | true iff a member has that username |
| Domain.Group.AddMembers | src/domain/Group.cpp:32-40 | a user who is not yet a member is appended and counted, and joins the group on its side; a present member changes nothing |
| Domain.Group.RemoveMember | src/domain/Group.cpp:45-54 | removes the members with that name, decrements the count, and removes the group from the user's list |
| Domain.SystemState.constructor | include/domain/SystemState.h:17-43 | a new state is valid and stands for the empty directory |
| Domain.SystemState.IsUserExists | src/domain/SystemState.cpp:17-20 | true iff the username is registered |
| Domain.SystemState.IsGroupExists | src/domain/SystemState.cpp:26-29 | true iff the group name is registered |
| Domain.SystemState.IsUserInGroup | src/domain/SystemState.cpp:36-49 | the member walk answers iff the group exists and lists the username |
| Domain.SystemState.AddUser | src/domain/SystemState.cpp:55-61 | an existing name is UserAlreadyExists and changes nothing; otherwise the user is registered, and the state stays valid |
| Domain.SystemState.DeleteUser | src/domain/SystemState.cpp:75-81 | an unknown name is UserNotFound; otherwise the user is unregistered and its group memberships stay |
| Domain.SystemState.DisableUser | src/domain/SystemState.cpp:87-95 | an unknown name is UserNotFound; otherwise only that user's flag is set |
| Domain.SystemState.SendMessage | src/domain/SystemState.cpp:187-196 | unknown user, then disabled user, are errors that change nothing; otherwise the message is appended to that user's history |
| Domain.SystemState.AddUserToGroup | src/domain/SystemState.cpp:131-152 | checked in order: unknown user, already a member, disabled; then a missing group is created, the user is appended to its members, and the group is added to the user's list |
| Domain.SystemState.Join | src/domain/SystemState.cpp:144-151 | once the checks pass, the heap updates (CreateNewGroup inlined, then AddMembers) give the specified directory |
| Domain.SystemState.RemoveUserFromGroup | src/domain/SystemState.cpp:160-179 | checked in order: unknown user, unknown group, not a member; then the user leaves the group on both sides, and a group left with no members is erased |
| Domain.SystemState.Leave | src/domain/SystemState.cpp:174-178 | once the checks pass, RemoveMember, RemoveGroup and the erase give the specified directory |
| Domain.SystemState.GetMessageHistory | src/domain/SystemState.cpp:203-209 | an unknown user is UserNotFound; otherwise the user's messages, in arrival order |
| Domain.SystemState.GetUsers | src/domain/SystemState.cpp:100-109 | one registered user object per username, with the same multiset of names as the directory |
| Domain.SystemState.GetGroups | src/domain/SystemState.cpp:114-123 | one registered group object per group name, with the same multiset of names as the directory |
| Commands.ExitFlag.constructor | include/commands/ExitCommand.h:20 | the flag starts cleared |
| Commands.ExitFlag.Trigger | src/commands/ExitCommand.cpp:5-8 | EXIT's execute sets the flag |
| Commands.ExitFlag.Reset | src/commands/ExitCommand.cpp:15-18 | reset clears the flag |
| Commands.Apply | include/commands/ICommand.h:10 | only EXIT touches the flag, and it sets it and changes nothing else; the queries, PING included, leave the directory unchanged; a failing command leaves it unchanged |
| Commands.Execute | include/commands/ICommand.h:7-12 | each command's execute follows Apply: the same outcome, directory and flag; on success it prints the command's success line and results, and on failure nothing |
| Commands.ApplyIgnoresFlag | src/app/TaskManager.cpp:84-97 | a command other than EXIT does the same whatever the flag |
| Commands.Update | include/commands/ICommand.h:10 | each state-changing command follows Apply for its SystemState operation, prints its success line on success and nothing on failure |
| Commands.ExecuteAddUserToGroup | src/commands/AddUserToGroupCommand.cpp:10-14 | ADD USER TO GROUP follows SystemState's AddUserToGroup; it prints "ADD USER u TO GROUP g" on success and nothing on failure |
| Commands.ExecuteCreateUser | src/commands/CreateUserCommand.cpp:11-16 | CREATE USER registers a new user object with no groups and no messages, or fails with UserAlreadyExists; it prints "CREATE USER u" on success |
| Commands.ExecuteDeleteUser | src/commands/DelateUserCommand.cpp:11-15 | DELETE USER follows DeleteUser and prints "DELETE USER u" on success |
| Commands.ExecuteDisableUser | src/commands/DisableUserCommand.cpp:10-14 | DISABLE USER follows DisableUser and prints "DISABLE USER u" on success |
| Commands.ExecuteRemoveUserFromGroup | src/commands/RemoveUserFromGroupCommand.cpp:10-14 | REMOVE USER FROM GROUP follows RemoveUserFromGroup and prints "ROMOVE USER u FROM GROUP g" on success |
| Commands.ExecuteSendMessage | src/commands/SendMessageCommand.cpp:11-17 | SEND MESSAGE follows SendMessage and prints "SEND MASSAGE u m" on success |
| Commands.Query | include/commands/ICommand.h:10 | the read-only commands change nothing, fail only for an unknown user's history, and print their header and results; PING prints its header and rounds for whether the user exists |
| Commands.ExecuteGetMessageHistory | src/commands/GetMessageHistoryCommand.cpp:10-17 | an unknown user is UserNotFound with nothing printed; otherwise the header and then the user's messages in arrival order |
| Commands.ExecuteGetUsers | src/commands/GetUsersCommand.cpp:7-14 | the header, then one line per registered username: the same multiset of names as the directory |
| Commands.ExecuteGetGroups | src/commands/GetGroupsCommand.cpp:7-14 | the header, then one line per group: the same multiset of names as the directory |
| Commands.ExitIdempotent | src/commands/ExitCommand.cpp:5-8 | EXIT sets the flag whatever it was, and running it twice is running it once |
| Commands.PingLeavesState | src/commands/PingCommand.cpp:24-35 | PING passes on any directory and changes neither the directory nor the flag |
| Tasks.ExecuteCommands | src/app/TaskManager.cpp:78-98 | the command loop gives the notices, the directory, the stopping error and the flag that the specification of the loop gives: a throw stops the file, and EXIT stops it and resets the flag |
| Tasks.ExecuteAt | src/app/TaskManager.cpp:80-97 | one iteration: a throwing command stops the file with its error and no notice; a passing command gets a notice, and if it left EXIT set it stops the file with the flag reset; otherwise the rest of the file continues from the new directory |
| Tasks.TaskManager.constructor | src/app/TaskManager.cpp:18-22 | the executor's registry holds the standard table, and no state is set |
| Tasks.TaskManager.SetState | src/app/TaskManager.cpp:29-32 | installs the state |
| Tasks.TaskManager.RunTaskFile | src/app/TaskManager.cpp:66-111 | one file: start, then failure if it does not parse, otherwise its commands and verdict, as the file specification gives |
| Tasks.TaskManager.RunCommandList | src/app/TaskManager.cpp:75-111 | a parsed file: the start, its commands' notices, then the failure lines if one threw, else the success line unless the flag is still set |
| Tasks.TaskManager.RunTasksFromFiles | src/app/TaskManager.cpp:55-118 | without a state it throws before running anything; otherwise every file runs in order, as the file-loop specification gives |
| Tasks.TaskManager.RunAll | src/app/TaskManager.cpp:64-112 | the file loop runs every file in order, each starting from what the previous one left |
| Tasks.TaskManager.RunFileAt | src/app/TaskManager.cpp:64-111 | one iteration of the file loop: the file's events follow the log so far, and the remaining files run from what it left |
| Tasks.RunFileStartsOnce | src/app/TaskManager.cpp:67 | each file's log starts exactly that file |
| Tasks.EveryFileStarts | src/app/TaskManager.cpp:64-112 | EXIT and failing files never stop the loop: every file is started, in the loader's order |
| Tasks.CommandsReported | src/app/TaskManager.cpp:78-98 | the command loop gives one notice per command that ran without throwing, in the order of the commands; a command that throws gets none, and a failure leaves some command unreported |
| Tasks.CommandsClearExit | src/app/TaskManager.cpp:93-97 | starting cleared, the command loop ends with the flag cleared |
| Tasks.FileVerdict | src/app/TaskManager.cpp:104-111 | each file starts, ends with a verdict, and holds only command notices and errors in between, so it has exactly one verdict: failure when it did not parse or a command threw, success otherwise, a file cut short by EXIT included |
| Tasks.FilesClearExit | src/app/TaskManager.cpp:93-102 | the flag is clear between files, whatever they hold |
| Tasks.ExitSkipsRest | src/app/TaskManager.cpp:93-97 | EXIT gets its notice, and the commands after it in its file never run |
| Tasks.CommandsAppend | src/app/TaskManager.cpp:78-98 | commands that neither throw nor exit hand their directory on to the commands after them, and their notices come first |
| Tasks.FailureKeepsEarlierEffects | src/app/TaskManager.cpp:86-91 | a throwing command fails the file and leaves the effects and the notices of the commands before it in place |
| Tasks.CommentOnlyFileSucceeds | src/app/TaskManager.cpp:70-111 | a file of blank and comment lines runs nothing and is reported as a success |
| Tasks.BadLineRunsNothing | src/app/TaskManager.cpp:68-74 | a line that does not parse fails its file before any of the file's commands runs |

## Left out

- TaskfilesLoader (directory listing and file reading) is not part of this model. The files reach RunTasksFromFiles as a parameter, in the loader's order.
- OutputPrinter's symbols, its indentation and the console: the executor's report is a log of events, and each command's lines are returned as strings without the prefix.
- Tasks.ExecuteAt: a passing command's notice is `CommandOk` with the command. The log does not copy the lines the command printed. Those are the lines Commands.Execute returns, which Commands.Prints fixes only up to order for GET USERS and GET GROUPS.
- ErrorHandler's message text is left out. The error is kept as a value in the log. The parse-time report in ParseTasks is not logged at all, because only its effect (the file fails) is modelled.
- TaskManager::UpdateTasksPath, main.cpp and logger.cpp drive the run and do not belong to the core.
- The outer catch of RunTasksFromFiles is left out: every error the modelled code raises is caught inside the loops, so the catch has nothing to catch.
- The weak_ptr lock in User::isInGroup always succeeds in the model: while the state is valid, every group a user lists is registered and alive.
- Message.cpp: a message is kept as its text.
- The Parsec library's `many` is not part of this model. Its behaviour on a partly consumed element is the `ManyPolicy` parameter, and every parser result is stated for either policy.
- Tasks.TaskManager.RunTaskFile: ParsedTasks is a vector of (file name, command list) pairs, and ParseTasks adds at most one pair. So the model reads that one entry instead of looping over the vector.
- Getters are read as fields: `User::isDisabled`, `getMessages`, `getUsername`, `Group::getMemberCount`, and `ExitCommand::wasTriggered` as a read of `ExitFlag.triggered`.
- Character classes are the ASCII "C" locale.
- Domain.SystemState.GetUsers: unordered_map iteration order is unspecified, so the contract fixes the result only as a multiset of names. The same holds for Domain.SystemState.GetGroups, and for the printed lines of GET USERS and GET GROUPS.
- PingCommand.Stoi: only the int range is modelled; `std::out_of_range` and `std::invalid_argument` are both a refused count.
- Domain.SystemState.Join: CreateNewGroup is inlined, since it is only ever called from AddUserToGroup.
- Domain.SystemState.AddUser: the caller must pass a fresh user object with no groups, as CreateUserCommand always does.
