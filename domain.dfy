// The domain objects: User and Group update their fields in place and
// point at each other; SystemState owns the two maps. Abstract() reads the
// maps and the objects as a DirectorySpec.Directory; every SystemState
// operation is proved to change it exactly as the matching function of
// DirectorySpec does, and to keep Valid().
module Domain {
  import opened Errors
  import opened DirectorySpec

  /** The usernames of a list of users, in order. */
  function Names(us: seq<User>): seq<string>
  {
    seq(|us|, k requires 0 <= k < |us| => us[k].name)
  }

  /** The names of a list of groups, in order. */
  function GroupNames(gs: seq<Group>): seq<string>
  {
    seq(|gs|, k requires 0 <= k < |gs| => gs[k].name)
  }

  /** us without the users called n (the remove_if of Group::RemoveMember). */
  function DropNamed(us: seq<User>, n: string): seq<User>
  {
    if us == [] then []
    else DropNamed(us[..|us| - 1], n) + (if us[|us| - 1].name == n then [] else [us[|us| - 1]])
  }

  /** gs without the group object g (the remove_if of User::RemoveGroup,
      which compares owners, that is, identity). */
  function Drop(gs: seq<Group>, g: Group): (r: seq<Group>)
    ensures forall k :: 0 <= k < |r| ==> r[k] in gs && r[k] != g
  {
    if gs == [] then []
    else Drop(gs[..|gs| - 1], g) + (if gs[|gs| - 1] == g then [] else [gs[|gs| - 1]])
  }

  lemma InNames(us: seq<User>, x: string)
    ensures x in Names(us) <==> exists k :: 0 <= k < |us| && us[k].name == x
  {
    if exists k :: 0 <= k < |us| && us[k].name == x {
      var k :| 0 <= k < |us| && us[k].name == x;
      assert Names(us)[k] == x;
    }
  }

  lemma InGroupNames(gs: seq<Group>, x: string)
    ensures x in GroupNames(gs) <==> exists k :: 0 <= k < |gs| && gs[k].name == x
  {
    if exists k :: 0 <= k < |gs| && gs[k].name == x {
      var k :| 0 <= k < |gs| && gs[k].name == x;
      assert GroupNames(gs)[k] == x;
    }
  }

  lemma NamesAppend(us: seq<User>, u: User)
    ensures Names(us + [u]) == Names(us) + [u.name]
  {
  }

  lemma GroupNamesAppend(gs: seq<Group>, g: Group)
    ensures GroupNames(gs + [g]) == GroupNames(gs) + [g.name]
  {
  }

  /** Dropping the users of a name drops that name from the names. */
  lemma {:induction false} NamesDropNamed(us: seq<User>, n: string)
    ensures Names(DropNamed(us, n)) == Without(Names(us), n)
  {
    if us != [] {
      var init, last := us[..|us| - 1], us[|us| - 1];
      NamesDropNamed(init, n);
      assert Names(us)[..|us| - 1] == Names(init);
      if last.name != n {
        NamesAppend(DropNamed(init, n), last);
      }
    }
  }

  /** When g is the only group object of its name in gs, dropping g drops
      exactly its name. */
  lemma {:induction false} GroupNamesDrop(gs: seq<Group>, g: Group)
    requires forall k :: 0 <= k < |gs| && gs[k].name == g.name ==> gs[k] == g
    ensures GroupNames(Drop(gs, g)) == Without(GroupNames(gs), g.name)
  {
    if gs != [] {
      var init, last := gs[..|gs| - 1], gs[|gs| - 1];
      GroupNamesDrop(init, g);
      assert GroupNames(gs)[..|gs| - 1] == GroupNames(init);
      if last != g {
        GroupNamesAppend(Drop(init, g), last);
      }
    }
  }

  lemma {:induction false} DropAbsent(gs: seq<Group>, g: Group)
    requires g !in gs
    ensures Drop(gs, g) == gs
  {
    if gs != [] {
      DropAbsent(gs[..|gs| - 1], g);
      assert gs == gs[..|gs| - 1] + [gs[|gs| - 1]];
    }
  }

  /** Group::RemoveMember decrements the count whether or not the user was
      a member; the count stays the number of members exactly when the
      name was there once. */
  lemma RemoveMemberCount(us: seq<User>, n: string)
    requires Distinct(Names(us))
    ensures |DropNamed(us, n)| == |us| - 1 <==> n in Names(us)
  {
    NamesDropNamed(us, n);
    WithoutDistinct(Names(us), n);
    if n !in Names(us) {
      WithoutAbsent(Names(us), n);
    }
  }

  /** Each group object of the list is the one registered under its name
      in gm. */
  ghost predicate Registered(gm: map<string, Group>, gs: seq<Group>) {
    forall k :: 0 <= k < |gs| ==> gs[k].name in gm && gm[gs[k].name] == gs[k]
  }

  /** A list stays registered in a map that keeps every entry it uses. */
  lemma RegisteredKept(gm: map<string, Group>, gm': map<string, Group>, gs0: seq<Group>, gs: seq<Group>)
    requires Registered(gm, gs0)
    requires forall k :: 0 <= k < |gs| ==> gs[k] in gs0
    requires forall k :: 0 <= k < |gs| ==> gs[k].name in gm' && gm'[gs[k].name] == gm[gs[k].name]
    ensures Registered(gm', gs)
  {
    forall k | 0 <= k < |gs|
      ensures gs[k].name in gm' && gm'[gs[k].name] == gs[k]
    {
      var j :| 0 <= j < |gs0| && gs0[j] == gs[k];
    }
  }

  /** A list of registered groups whose names all remain in a map that
      only drops entries stays registered. */
  lemma RegisteredWithin(gm: map<string, Group>, gm': map<string, Group>, gs0: seq<Group>, gs: seq<Group>)
    requires Registered(gm, gs0)
    requires forall k :: 0 <= k < |gs| ==> gs[k] in gs0
    requires forall x :: x in gm' ==> x in gm && gm'[x] == gm[x]
    requires forall x :: x in GroupNames(gs) ==> x in gm'
    ensures Registered(gm', gs)
  {
    forall k | 0 <= k < |gs|
      ensures gs[k].name in gm' && gm'[gs[k].name] == gs[k]
    {
      assert GroupNames(gs)[k] == gs[k].name;
      var j :| 0 <= j < |gs0| && gs0[j] == gs[k];
    }
  }

  lemma RegisteredAppend(gm: map<string, Group>, gs: seq<Group>, g: Group)
    requires Registered(gm, gs) && g.name in gm && gm[g.name] == g
    ensures Registered(gm, gs + [g])
  {
  }

  class User {
    const name: string
    var disabled: bool
    var groups: seq<Group>
    var messages: seq<string>

    constructor (name: string)
      ensures this.name == name && !disabled && groups == [] && messages == []
    {
      this.name := name;
      disabled := false;
      groups := [];
      messages := [];
    }

    /** The user as the directory records it. */
    ghost function View(): UserRec
      reads this
    {
      UserRec(disabled, GroupNames(groups), messages)
    }

    method Disable()
      modifies this
      ensures disabled && groups == old(groups) && messages == old(messages)
    {
      disabled := true;
    }

    /** Whether a group of that name is in the user's list. */
    predicate IsInGroup(groupName: string)
      reads this
      ensures IsInGroup(groupName) <==> groupName in GroupNames(groups)
    {
      InGroupNames(groups, groupName);
      exists k :: 0 <= k < |groups| && groups[k].name == groupName
    }

    /** Appends the group unless a group of the same name is listed. */
    method JoinGroup(group: Group)
      modifies this
      ensures groups == if old(IsInGroup(group.name)) then old(groups) else old(groups) + [group]
      ensures disabled == old(disabled) && messages == old(messages)
    {
      if !IsInGroup(group.name) {
        groups := groups + [group];
      }
    }

    /** Removes every occurrence of this very group object. */
    method RemoveGroup(group: Group)
      modifies this
      ensures groups == Drop(old(groups), group)
      ensures disabled == old(disabled) && messages == old(messages)
    {
      groups := Drop(groups, group);
    }

    method AddMessage(message: string)
      modifies this
      ensures messages == old(messages) + [message]
      ensures disabled == old(disabled) && groups == old(groups)
    {
      messages := messages + [message];
    }
  }

  class Group {
    const name: string
    var members: seq<User>
    var memberCount: int

    constructor (name: string)
      ensures this.name == name && members == [] && memberCount == 0
    {
      this.name := name;
      members := [];
      memberCount := 0;
    }

    /** The group as the directory records it: its members' names. */
    ghost function View(): seq<string>
      reads this
    {
      Names(members)
    }

    /** Whether a member has that username. */
    predicate HasMember(username: string)
      reads this
      ensures HasMember(username) <==> username in Names(members)
    {
      InNames(members, username);
      exists k :: 0 <= k < |members| && members[k].name == username
    }

    /** Appends the user and counts it, unless a member of that name is
        already there; the user then lists this group. */
    method AddMembers(user: User)
      modifies this, user
      ensures old(HasMember(user.name)) ==>
        members == old(members) && memberCount == old(memberCount) && user.groups == old(user.groups)
      ensures !old(HasMember(user.name)) ==>
        && members == old(members) + [user]
        && memberCount == old(memberCount) + 1
        && user.groups == (if old(user.IsInGroup(name)) then old(user.groups) else old(user.groups) + [this])
      ensures user.disabled == old(user.disabled) && user.messages == old(user.messages)
    {
      if !HasMember(user.name) {
        members := members + [user];
        memberCount := memberCount + 1;
        user.JoinGroup(this);
      }
    }

    /** Removes the members called like the user, decrements the count
        whether or not one was there, and takes this group off the user's
        list. */
    method RemoveMember(user: User)
      modifies this, user
      ensures members == DropNamed(old(members), user.name)
      ensures memberCount == old(memberCount) - 1
      ensures user.groups == Drop(old(user.groups), this)
      ensures user.disabled == old(user.disabled) && user.messages == old(user.messages)
    {
      members := DropNamed(members, user.name);
      memberCount := memberCount - 1;
      user.RemoveGroup(this);
    }
  }

  /** The outcome and the new directory agree with what the specification
      function returned: on success its directory, on failure its error and
      the directory as it was. */
  ghost predicate Follows(before: Directory, spec: Result<Directory>, r: Outcome, after: Directory) {
    match spec
    case Success(d) => r == Pass && after == d
    case Failure(e) => r == Fail(e) && after == before
  }

  class SystemState {
    var userMap: map<string, User>
    var groupMap: map<string, Group>
    ghost var Repr: set<object>

    ghost function Users(): map<string, UserRec>
      reads this`userMap, userMap.Values
    {
      map n | n in userMap :: userMap[n].View()
    }

    ghost function Groups(): map<string, seq<string>>
      reads this`groupMap, groupMap.Values
    {
      map n | n in groupMap :: groupMap[n].View()
    }

    /** The directory the two maps and the objects behind them stand for. */
    ghost function Abstract(): Directory
      reads this`userMap, this`groupMap, userMap.Values, groupMap.Values
    {
      Directory(Users(), Groups())
    }

    /** Keys are the objects' names, each group's count is its number of
        members, every group object a registered user lists is the one
        registered under its name, and the directory is well formed. */
    ghost predicate Valid()
      reads this, Repr
    {
      && this in Repr
      && (forall n :: n in userMap ==> userMap[n] in Repr && userMap[n].name == n)
      && (forall n :: n in groupMap ==> groupMap[n] in Repr && groupMap[n].name == n)
      && (forall n :: n in groupMap ==> groupMap[n].memberCount == |groupMap[n].members|)
      && (forall n :: n in userMap ==> Registered(groupMap, userMap[n].groups))
      && Wf(Abstract())
    }

    constructor ()
      ensures Valid() && fresh(Repr)
      ensures Abstract() == DirectorySpec.Empty
    {
      userMap := map[];
      groupMap := map[];
      Repr := {this};
    }

    predicate IsUserExists(username: string)
      requires Valid()
      reads this, Repr
      ensures IsUserExists(username) <==> username in Abstract().users
    {
      username in userMap
    }

    predicate IsGroupExists(groupName: string)
      requires Valid()
      reads this, Repr
      ensures IsGroupExists(groupName) <==> groupName in Abstract().groups
    {
      groupName in groupMap
    }

    /** Walks the group's members looking for the username. */
    method IsUserInGroup(username: string, groupName: string) returns (b: bool)
      requires Valid()
      ensures b <==> DirectorySpec.IsUserInGroup(Abstract(), username, groupName)
    {
      if groupName !in groupMap {
        return false;
      }
      var users := groupMap[groupName].members;
      assert Abstract().groups[groupName] == Names(users);
      InNames(users, username);
      var i := 0;
      while i < |users|
        invariant 0 <= i <= |users|
        invariant forall k :: 0 <= k < i ==> users[k].name != username
      {
        if users[i].name == username {
          return true;
        }
        i := i + 1;
      }
      return false;
    }

    /** Registers a user built by the caller, which lists no group yet. */
    method AddUser(user: User) returns (r: Outcome)
      requires Valid() && user !in Repr && user.groups == []
      modifies this
      ensures Valid() && Repr == old(Repr) + (if r.Pass? then {user} else {})
      ensures Follows(old(Abstract()), DirectorySpec.AddUser(old(Abstract()), user.name, user.View()), r, Abstract())
    {
      if user.name in userMap {
        return Fail(UserAlreadyExists(user.name));
      }
      userMap := userMap[user.name := user];
      Repr := Repr + {user};
      UserAdded(this, user);
      r := Pass;
    }

    /** Unregisters the user; the groups it belongs to keep it. */
    method DeleteUser(username: string) returns (r: Outcome)
      requires Valid()
      modifies this
      ensures Valid() && Repr == old(Repr)
      ensures Follows(old(Abstract()), DirectorySpec.DeleteUser(old(Abstract()), username), r, Abstract())
    {
      ghost var d := Abstract();
      if username !in userMap {
        return Fail(UserNotFound(username));
      }
      userMap := userMap - {username};
      assert Users() == d.users - {username};
      DeleteUserKeepsWf(d, username);
      assert Abstract() == DirectorySpec.DeleteUser(d, username).value;
      r := Pass;
    }

    method DisableUser(username: string) returns (r: Outcome)
      requires Valid()
      modifies Repr
      ensures Valid() && Repr == old(Repr)
      ensures Follows(old(Abstract()), DirectorySpec.DisableUser(old(Abstract()), username), r, Abstract())
    {
      ghost var d := Abstract();
      if username !in userMap {
        return Fail(UserNotFound(username));
      }
      var user := userMap[username];
      user.Disable();
      assert Users() == d.users[username := d.users[username].(disabled := true)];
      DisableUserKeepsWf(d, username);
      assert Abstract() == DirectorySpec.DisableUser(d, username).value;
      r := Pass;
    }

    method SendMessage(toUser: string, message: string) returns (r: Outcome)
      requires Valid()
      modifies Repr
      ensures Valid() && Repr == old(Repr)
      ensures Follows(old(Abstract()), DirectorySpec.SendMessage(old(Abstract()), toUser, message), r, Abstract())
    {
      ghost var d := Abstract();
      if toUser !in userMap {
        return Fail(UserNotFound(toUser));
      }
      var user := userMap[toUser];
      if user.disabled {
        return Fail(CommandExecution(Disabled));
      }
      user.AddMessage(message);
      assert Users() == d.users[toUser := d.users[toUser].(messages := d.users[toUser].messages + [message])];
      SendMessageKeepsWf(d, toUser, message);
      assert Abstract() == DirectorySpec.SendMessage(d, toUser, message).value;
      r := Pass;
    }

    /** Checks in order that the user exists, is not yet a member and is
        not disabled; creates the group when there is none of that name;
        then adds the user to the group, which adds the group to the user. */
    method AddUserToGroup(username: string, groupName: string) returns (r: Outcome)
      requires Valid()
      modifies Repr
      ensures Valid() && old(Repr) <= Repr && fresh(Repr - old(Repr))
      ensures Follows(old(Abstract()), DirectorySpec.AddUserToGroup(old(Abstract()), username, groupName), r, Abstract())
    {
      if username !in userMap {
        return Fail(UserNotFound(username));
      }
      var inGroup := IsUserInGroup(username, groupName);
      if inGroup {
        return Fail(CommandExecution(AlreadyMember));
      }
      var user := userMap[username];
      if user.disabled {
        return Fail(CommandExecution(Disabled));
      }
      Join(username, groupName);
      r := Pass;
    }

    /** AddUserToGroup once its checks have passed. */
    method Join(username: string, groupName: string)
      requires Valid() && username in userMap && !userMap[username].disabled
      requires !DirectorySpec.IsUserInGroup(Abstract(), username, groupName)
      modifies Repr
      ensures Valid() && old(Repr) <= Repr && fresh(Repr - old(Repr))
      ensures Follows(old(Abstract()), DirectorySpec.AddUserToGroup(old(Abstract()), username, groupName), Pass, Abstract())
    {
      var user := userMap[username];
      if groupName !in groupMap {
        var g := new Group(groupName);
        groupMap := groupMap[groupName := g];
        Repr := Repr + {g};
      }
      var group := groupMap[groupName];
      ghost var members0, count0, groups0 := group.members, group.memberCount, user.groups;
      group.AddMembers(user);
      AddedToGroup(this, username, groupName, user, group, members0, count0, groups0);
    }

    /** Checks in order that the user exists, the group exists and the
        user is a member; then the user leaves the group on both sides and
        the group is erased when its count drops to zero. */
    method RemoveUserFromGroup(username: string, groupName: string) returns (r: Outcome)
      requires Valid()
      modifies Repr
      ensures Valid() && Repr == old(Repr)
      ensures Follows(old(Abstract()), DirectorySpec.RemoveUserFromGroup(old(Abstract()), username, groupName), r, Abstract())
    {
      if username !in userMap {
        return Fail(UserNotFound(username));
      }
      if groupName !in groupMap {
        return Fail(CommandExecution(NoSuchGroup));
      }
      var inGroup := IsUserInGroup(username, groupName);
      if !inGroup {
        return Fail(CommandExecution(NotMember));
      }
      Leave(username, groupName);
      r := Pass;
    }

    /** RemoveUserFromGroup once its checks have passed. */
    method Leave(username: string, groupName: string)
      requires Valid() && username in userMap
      requires DirectorySpec.IsUserInGroup(Abstract(), username, groupName)
      modifies Repr
      ensures Valid() && Repr == old(Repr)
      ensures Follows(old(Abstract()), DirectorySpec.RemoveUserFromGroup(old(Abstract()), username, groupName), Pass, Abstract())
    {
      var user := userMap[username];
      var group := groupMap[groupName];
      group.RemoveMember(user);
      user.RemoveGroup(group);
      if group.memberCount == 0 {
        groupMap := groupMap - {groupName};
      }
      RemovedFromGroup(this, username, groupName, user, group);
    }

    function GetMessageHistory(username: string): (r: Result<seq<string>>)
      requires Valid()
      reads this, Repr
      ensures r == DirectorySpec.GetMessageHistory(Abstract(), username)
    {
      if username !in userMap then Failure(UserNotFound(username)) else Success(userMap[username].messages)
    }

    /** The registered user objects, one per username, in no particular
        order (the maps are unordered). */
    method GetUsers() returns (users: seq<User>)
      requires Valid()
      ensures multiset(Names(users)) == multiset(Abstract().users.Keys)
      ensures forall k :: 0 <= k < |users| ==> users[k].name in userMap && userMap[users[k].name] == users[k]
    {
      users := [];
      var rest := userMap.Keys;
      while rest != {}
        invariant rest <= userMap.Keys
        invariant multiset(Names(users)) + multiset(rest) == multiset(userMap.Keys)
        invariant forall k :: 0 <= k < |users| ==> users[k].name in userMap && userMap[users[k].name] == users[k]
        decreases |rest|
      {
        var n :| n in rest;
        NamesAppend(users, userMap[n]);
        assert multiset(rest) == multiset(rest - {n}) + multiset{n};
        users := users + [userMap[n]];
        rest := rest - {n};
      }
      assert Abstract().users.Keys == userMap.Keys;
    }

    /** The registered group objects, one per group name, in no particular
        order. */
    method GetGroups() returns (groups: seq<Group>)
      requires Valid()
      ensures multiset(GroupNames(groups)) == multiset(Abstract().groups.Keys)
      ensures Registered(groupMap, groups)
    {
      groups := [];
      var rest := groupMap.Keys;
      while rest != {}
        invariant rest <= groupMap.Keys
        invariant multiset(GroupNames(groups)) + multiset(rest) == multiset(groupMap.Keys)
        invariant Registered(groupMap, groups)
        decreases |rest|
      {
        var n :| n in rest;
        GroupNamesAppend(groups, groupMap[n]);
        assert multiset(rest) == multiset(rest - {n}) + multiset{n};
        groups := groups + [groupMap[n]];
        rest := rest - {n};
      }
      assert Abstract().groups.Keys == groupMap.Keys;
    }
  }

  /** A step that touches no object of the state's footprint leaves it
      valid and standing for the same directory. */
  twostate lemma Untouched(s: SystemState)
    requires old(s.Valid()) && unchanged(s) && unchanged(s.Repr)
    ensures s.Valid() && s.Abstract() == old(s.Abstract())
  {
  }

  /** Registering a fresh user with no groups keeps the heap valid and
      adds the user's record to the directory. */
  twostate lemma UserAdded(s: SystemState, new user: User)
    requires old(s.Valid()) && user.name !in old(s.userMap) && user.groups == []
    requires s.userMap == old(s.userMap)[user.name := user] && s.groupMap == old(s.groupMap)
    requires s.Repr == old(s.Repr) + {user}
    requires forall n :: n in s.userMap && n != user.name ==> unchanged(s.userMap[n])
    requires forall n :: n in s.groupMap ==> unchanged(s.groupMap[n])
    ensures s.Valid()
    ensures s.Abstract() == DirectorySpec.AddUser(old(s.Abstract()), user.name, user.View()).value
  {
    ghost var d := old(s.Abstract());
    UserAddedView(s, user);
    DirectorySpec.AddUserKeepsWf(d, user.name, user.View());
    forall n | n in s.userMap
      ensures Registered(s.groupMap, s.userMap[n].groups)
    {
      if n != user.name {
        assert s.userMap[n] == old(s.userMap[n]);
      }
    }
  }

  /** Registering a user adds its record to the users the heap stands for. */
  twostate lemma UserAddedView(s: SystemState, new user: User)
    requires old(s.Valid()) && user.name !in old(s.userMap)
    requires s.userMap == old(s.userMap)[user.name := user] && s.groupMap == old(s.groupMap)
    requires forall n :: n in s.userMap && n != user.name ==> unchanged(s.userMap[n])
    requires forall n :: n in s.groupMap ==> unchanged(s.groupMap[n])
    ensures s.Abstract() == old(s.Abstract()).(users := old(s.Users())[user.name := user.View()])
  {
    assert s.Users() == old(s.Users())[user.name := user.View()];
  }

  /** The heap after AddUserToGroup's updates is valid and stands for the
      directory DirectorySpec.AddUserToGroup returns. members0, count0 and
      groups0 are the group's members and count and the user's list just
      before Group::AddMembers. */
  twostate lemma AddedToGroup(s: SystemState, new username: string, new groupName: string, new user: User, new group: Group,
                              new members0: seq<User>, new count0: int, new groups0: seq<Group>)
    requires old(s.Valid())
    requires s.userMap == old(s.userMap) && old(s.Repr) <= s.Repr && group in s.Repr
    requires username in s.userMap && s.userMap[username] == user
    requires !DirectorySpec.IsUserInGroup(old(s.Abstract()), username, groupName)
    requires !user.disabled && user.disabled == old(s.userMap[username].disabled) && user.messages == old(s.userMap[username].messages)
    requires groups0 == old(s.userMap[username].groups)
    requires group.name == groupName && s.groupMap == old(s.groupMap)[groupName := group]
    requires groupName in old(s.groupMap) ==>
      old(s.groupMap[groupName]) == group &&
      members0 == old(s.groupMap[groupName].members) && count0 == old(s.groupMap[groupName].memberCount)
    requires groupName !in old(s.groupMap) ==> members0 == [] && count0 == 0
    requires username !in Names(members0) ==>
      && group.members == members0 + [user]
      && group.memberCount == count0 + 1
      && user.groups == (if groupName in GroupNames(groups0) then groups0 else groups0 + [group])
    requires forall n :: n in s.userMap && n != username ==> unchanged(s.userMap[n])
    requires forall n :: n in s.groupMap && n != groupName ==> unchanged(s.groupMap[n])
    ensures DirectorySpec.AddUserToGroup(old(s.Abstract()), username, groupName).Success?
    ensures s.Valid()
    ensures s.Abstract() == DirectorySpec.AddUserToGroup(old(s.Abstract()), username, groupName).value
  {
    ghost var d := old(s.Abstract());
    assert Names(members0) == if groupName in d.groups then d.groups[groupName] else [];
    AddedView(s, username, groupName, user, group, members0, groups0);
    AddUserToGroupKeepsWf(d, username, groupName);
    assert username !in Names(members0);
    AddedKeepsRegistered(s, username, groupName, group, groups0);
    assert count0 == |members0|;
    AddedKeepsGroups(s, groupName, group, members0, count0);
  }

  /** Replacing the group's entry by the updated group keeps every group
      registered under its name, in the footprint, and counted right. */
  twostate lemma AddedKeepsGroups(s: SystemState, new groupName: string, new group: Group, new members0: seq<User>, new count0: int)
    requires old(s.Valid())
    requires old(s.Repr) <= s.Repr && group in s.Repr
    requires group.name == groupName && s.groupMap == old(s.groupMap)[groupName := group]
    requires count0 == |members0| && group.memberCount == count0 + 1 && |group.members| == |members0| + 1
    requires forall n :: n in s.groupMap && n != groupName ==> unchanged(s.groupMap[n])
    ensures forall n :: n in s.groupMap ==> s.groupMap[n] in s.Repr && s.groupMap[n].name == n
    ensures forall n :: n in s.groupMap ==> s.groupMap[n].memberCount == |s.groupMap[n].members|
  {
  }

  /** Appending the group to one user's list keeps every user's groups
      registered in the updated group map. */
  twostate lemma AddedKeepsRegistered(s: SystemState, new username: string, new groupName: string, new group: Group, new groups0: seq<Group>)
    requires old(s.Valid())
    requires s.userMap == old(s.userMap) && username in s.userMap
    requires group.name == groupName && (groupName in old(s.groupMap) ==> old(s.groupMap[groupName]) == group)
    requires s.groupMap == old(s.groupMap)[groupName := group]
    requires groups0 == old(s.userMap[username].groups)
    requires s.userMap[username].groups == groups0 || s.userMap[username].groups == groups0 + [group]
    requires forall n :: n in s.userMap && n != username ==> unchanged(s.userMap[n])
    ensures forall n :: n in s.userMap ==> Registered(s.groupMap, s.userMap[n].groups)
  {
    forall n | n in s.userMap
      ensures Registered(s.groupMap, s.userMap[n].groups)
    {
      var gs := old(s.userMap[n].groups);
      RegisteredKept(old(s.groupMap), s.groupMap, gs, gs);
      if n == username && s.userMap[n].groups != gs {
        RegisteredAppend(s.groupMap, gs, group);
      }
    }
  }

  /** AddUserToGroup's updates change the directory as
      DirectorySpec.AddUserToGroup does. */
  twostate lemma AddedView(s: SystemState, new username: string, new groupName: string, new user: User, new group: Group,
                           new members0: seq<User>, new groups0: seq<Group>)
    requires old(s.Valid())
    requires s.userMap == old(s.userMap)
    requires username in s.userMap && s.userMap[username] == user
    requires !DirectorySpec.IsUserInGroup(old(s.Abstract()), username, groupName)
    requires !user.disabled && user.disabled == old(s.userMap[username].disabled) && user.messages == old(s.userMap[username].messages)
    requires groups0 == old(s.userMap[username].groups)
    requires group.name == groupName && s.groupMap == old(s.groupMap)[groupName := group]
    requires Names(members0) == if groupName in old(s.groupMap) then old(s.Abstract()).groups[groupName] else []
    requires username !in Names(members0) ==>
      && group.members == members0 + [user]
      && user.groups == (if groupName in GroupNames(groups0) then groups0 else groups0 + [group])
    requires forall n :: n in s.userMap && n != username ==> unchanged(s.userMap[n])
    requires forall n :: n in s.groupMap && n != groupName ==> unchanged(s.groupMap[n])
    ensures DirectorySpec.AddUserToGroup(old(s.Abstract()), username, groupName).Success?
    ensures s.Abstract() == DirectorySpec.AddUserToGroup(old(s.Abstract()), username, groupName).value
  {
    ghost var d := old(s.Abstract());
    assert GroupNames(groups0) == d.users[username].groups;
    NamesAppend(members0, user);
    GroupNamesAppend(groups0, group);
    UserChanged(s, user);
    GroupChanged(s, groupName, group);
    ghost var d' := DirectorySpec.AddUserToGroup(d, username, groupName).value;
    assert s.Users() == d'.users;
    assert s.Groups() == d'.groups;
  }

  /** The heap after RemoveUserFromGroup's updates is valid and stands for
      the directory DirectorySpec.RemoveUserFromGroup returns. */
  twostate lemma RemovedFromGroup(s: SystemState, new username: string, new groupName: string, new user: User, new group: Group)
    requires old(s.Valid())
    requires s.userMap == old(s.userMap) && s.Repr == old(s.Repr)
    requires username in s.userMap && s.userMap[username] == user
    requires groupName in old(s.groupMap) && old(s.groupMap[groupName]) == group
    requires DirectorySpec.IsUserInGroup(old(s.Abstract()), username, groupName)
    requires group.members == DropNamed(old(s.groupMap[groupName].members), username)
    requires group.memberCount == old(s.groupMap[groupName].memberCount) - 1
    requires user.groups == Drop(Drop(old(s.userMap[username].groups), group), group)
    requires user.disabled == old(s.userMap[username].disabled) && user.messages == old(s.userMap[username].messages)
    requires s.groupMap == if group.memberCount == 0 then old(s.groupMap) - {groupName} else old(s.groupMap)
    requires forall n :: n in s.userMap && n != username ==> unchanged(s.userMap[n])
    requires forall n :: n in s.groupMap && n != groupName ==> unchanged(s.groupMap[n])
    ensures DirectorySpec.RemoveUserFromGroup(old(s.Abstract()), username, groupName).Success?
    ensures s.Valid()
    ensures s.Abstract() == DirectorySpec.RemoveUserFromGroup(old(s.Abstract()), username, groupName).value
  {
    ghost var d := old(s.Abstract());
    ghost var members := old(s.groupMap[groupName].members);
    assert Names(members) == d.groups[groupName];
    RemoveMemberCount(members, username);
    RemovedView(s, username, groupName, user, group);
    ghost var d' := DirectorySpec.RemoveUserFromGroup(d, username, groupName).value;
    RemoveUserFromGroupKeepsWf(d, username, groupName);
    forall n | n in s.userMap
      ensures Registered(s.groupMap, s.userMap[n].groups)
    {
      var gs0, gs := old(s.userMap[n].groups), s.userMap[n].groups;
      if n == username {
        forall k | 0 <= k < |gs| ensures gs[k] in gs0 {
          assert gs[k] in Drop(gs0, group);
        }
      }
      assert GroupNames(gs) == d'.users[n].groups;
      ListedGroupsExist(d', n);
      RegisteredWithin(old(s.groupMap), s.groupMap, gs0, gs);
    }
  }

  /** RemoveUserFromGroup's updates change the directory as
      DirectorySpec.RemoveUserFromGroup does. */
  twostate lemma RemovedView(s: SystemState, new username: string, new groupName: string, new user: User, new group: Group)
    requires old(s.Valid())
    requires s.userMap == old(s.userMap)
    requires username in s.userMap && s.userMap[username] == user
    requires groupName in old(s.groupMap) && old(s.groupMap[groupName]) == group
    requires DirectorySpec.IsUserInGroup(old(s.Abstract()), username, groupName)
    requires group.members == DropNamed(old(s.groupMap[groupName].members), username)
    requires user.groups == Drop(Drop(old(s.userMap[username].groups), group), group)
    requires user.disabled == old(s.userMap[username].disabled) && user.messages == old(s.userMap[username].messages)
    requires s.groupMap == if |group.members| == 0 then old(s.groupMap) - {groupName} else old(s.groupMap)
    requires forall n :: n in s.userMap && n != username ==> unchanged(s.userMap[n])
    requires forall n :: n in s.groupMap && n != groupName ==> unchanged(s.groupMap[n])
    ensures DirectorySpec.RemoveUserFromGroup(old(s.Abstract()), username, groupName).Success?
    ensures s.Abstract() == DirectorySpec.RemoveUserFromGroup(old(s.Abstract()), username, groupName).value
  {
    ghost var d := old(s.Abstract());
    ghost var members, groups := old(s.groupMap[groupName].members), old(s.userMap[username].groups);
    assert Names(members) == d.groups[groupName];
    NamesDropNamed(members, username);
    assert GroupNames(groups) == d.users[username].groups;
    GroupNamesDrop(groups, group);
    DropAbsent(Drop(groups, group), group);
    ghost var d' := DirectorySpec.RemoveUserFromGroup(d, username, groupName).value;
    UserChanged(s, user);
    GroupChanged(s, groupName, group);
    assert s.Users() == d'.users;
    assert s.Groups() == d'.groups;
  }

  /** Of the registered users only user changed: Users() changes at its
      name only. */
  twostate lemma UserChanged(s: SystemState, new user: User)
    requires s.userMap == old(s.userMap)
    requires user.name in s.userMap && s.userMap[user.name] == user
    requires forall n :: n in s.userMap && n != user.name ==> unchanged(s.userMap[n])
    ensures s.Users() == old(s.Users())[user.name := user.View()]
  {
  }

  /** Of the registered groups only the one under name changed, or was
      registered or erased: Groups() changes at that name only. */
  twostate lemma GroupChanged(s: SystemState, new name: string, new group: Group)
    requires forall n :: n in s.groupMap && n != name ==> n in old(s.groupMap) && s.groupMap[n] == old(s.groupMap[n])
    requires forall n :: n in old(s.groupMap) && n != name ==> n in s.groupMap
    requires forall n :: n in s.groupMap && n != name ==> unchanged(s.groupMap[n])
    requires name in s.groupMap ==> s.groupMap[name] == group
    ensures s.Groups() == if name in s.groupMap then old(s.Groups())[name := group.View()] else old(s.Groups()) - {name}
  {
  }
}
