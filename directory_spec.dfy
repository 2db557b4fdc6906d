// The directory of users and groups as a value: what SystemState's maps,
// Users and Groups amount to, and each SystemState operation as a function
// of that value. The classes of module Domain are proved to follow these.
module DirectorySpec {
  import opened Errors

  /** A User seen by value: its flag, the names of the groups in its list,
      and its messages in arrival order. */
  datatype UserRec = UserRec(disabled: bool, groups: seq<string>, messages: seq<string>)

  /** users: username -> User; groups: group name -> usernames of its
      members, in the order they joined. A member name need not be a key
      of users: DeleteUser leaves the deleted user in its groups. */
  datatype Directory = Directory(users: map<string, UserRec>, groups: map<string, seq<string>>)

  const Empty: Directory := Directory(map[], map[])

  /** A freshly constructed User. */
  const NewUser: UserRec := UserRec(false, [], [])

  predicate Distinct(s: seq<string>) {
    forall i, j :: 0 <= i < j < |s| ==> s[i] != s[j]
  }

  /** s without any occurrence of x, the rest in order (erase/remove_if). */
  function Without(s: seq<string>, x: string): (r: seq<string>)
    ensures forall y :: y in r <==> y in s && y != x
    ensures |r| <= |s|
  {
    if s == [] then []
    else Without(s[..|s| - 1], x) + (if s[|s| - 1] == x then [] else [s[|s| - 1]])
  }

  /** SystemState::isUserInGroup: the group exists and one of its members
      has that username. */
  predicate IsUserInGroup(d: Directory, user: string, group: string) {
    group in d.groups && user in d.groups[group]
  }

  /** The invariants the operations keep: every group has a member, no
      group lists a username twice, and every group in a user's list
      exists and lists that user, once. */
  ghost predicate Wf(d: Directory) {
    && (forall g :: g in d.groups ==> |d.groups[g]| > 0 && Distinct(d.groups[g]))
    && (forall u :: u in d.users ==> Distinct(d.users[u].groups))
    && (forall u, g :: u in d.users && g in d.users[u].groups ==> IsUserInGroup(d, u, g))
  }

  function AddUser(d: Directory, name: string, user: UserRec): (r: Result<Directory>) {
    if name in d.users then Failure(UserAlreadyExists(name))
    else Success(d.(users := d.users[name := user]))
  }

  function DeleteUser(d: Directory, name: string): (r: Result<Directory>) {
    if name !in d.users then Failure(UserNotFound(name))
    else Success(d.(users := d.users - {name}))
  }

  function DisableUser(d: Directory, name: string): (r: Result<Directory>) {
    if name !in d.users then Failure(UserNotFound(name))
    else Success(d.(users := d.users[name := d.users[name].(disabled := true)]))
  }

  /** Checks in order: unknown user, already a member, disabled; then the
      group is created if absent, the user is appended to its members, and
      the group is appended to the user's list unless a group of that name
      is already there (User::JoinGroup). */
  function AddUserToGroup(d: Directory, user: string, group: string): (r: Result<Directory>) {
    if user !in d.users then Failure(UserNotFound(user))
    else if IsUserInGroup(d, user, group) then Failure(CommandExecution(AlreadyMember))
    else if d.users[user].disabled then Failure(CommandExecution(Disabled))
    else
      var rec := d.users[user];
      var members := if group in d.groups then d.groups[group] else [];
      var joined := if group in rec.groups then rec.groups else rec.groups + [group];
      Success(Directory(d.users[user := rec.(groups := joined)], d.groups[group := members + [user]]))
  }

  /** Checks in order: unknown user, unknown group, not a member; then the
      user leaves the group in both directions and the group is erased
      when no member is left. */
  function RemoveUserFromGroup(d: Directory, user: string, group: string): (r: Result<Directory>) {
    if user !in d.users then Failure(UserNotFound(user))
    else if group !in d.groups then Failure(CommandExecution(NoSuchGroup))
    else if user !in d.groups[group] then Failure(CommandExecution(NotMember))
    else
      var rec := d.users[user];
      var members := Without(d.groups[group], user);
      var users := d.users[user := rec.(groups := Without(rec.groups, group))];
      if |members| == 0 then Success(Directory(users, d.groups - {group}))
      else Success(Directory(users, d.groups[group := members]))
  }

  function SendMessage(d: Directory, user: string, message: string): (r: Result<Directory>) {
    if user !in d.users then Failure(UserNotFound(user))
    else if d.users[user].disabled then Failure(CommandExecution(Disabled))
    else
      var rec := d.users[user];
      Success(d.(users := d.users[user := rec.(messages := rec.messages + [message])]))
  }

  function GetMessageHistory(d: Directory, user: string): (r: Result<seq<string>>) {
    if user !in d.users then Failure(UserNotFound(user)) else Success(d.users[user].messages)
  }

  // ---------------------------------------------------------------------
  // Properties of the operations

  /** Without(s, x) drops exactly the occurrences of x. */
  lemma {:induction false} WithoutAbsent(s: seq<string>, x: string)
    requires x !in s
    ensures Without(s, x) == s
  {
    if s != [] {
      WithoutAbsent(s[..|s| - 1], x);
      assert s == s[..|s| - 1] + [s[|s| - 1]];
    }
  }

  lemma {:induction false} WithoutDistinct(s: seq<string>, x: string)
    requires Distinct(s)
    ensures Distinct(Without(s, x))
    ensures x in s ==> |Without(s, x)| == |s| - 1
  {
    if s != [] {
      var init, last := s[..|s| - 1], s[|s| - 1];
      assert s == init + [last];
      assert Distinct(init);
      assert last !in init by {
        forall k | 0 <= k < |init| ensures init[k] != last {
          assert s[k] != s[|s| - 1];
        }
      }
      WithoutDistinct(init, x);
      if last != x {
        DistinctAppend(Without(init, x), last);
      } else {
        WithoutAbsent(init, x);
      }
    }
  }

  /** Removing the element just appended gives back the sequence. */
  lemma WithoutAppended(s: seq<string>, x: string)
    requires x !in s
    ensures Without(s + [x], x) == s
  {
    assert (s + [x])[..|s|] == s;
    WithoutAbsent(s, x);
  }

  lemma DistinctAppend(s: seq<string>, x: string)
    requires Distinct(s) && x !in s
    ensures Distinct(s + [x])
  {
  }

  /** Under Wf every group a user lists exists. */
  lemma ListedGroupsExist(d: Directory, u: string)
    requires Wf(d) && u in d.users
    ensures forall g :: g in d.users[u].groups ==> g in d.groups
  {
  }

  /** Every operation keeps the invariants (AddUser for a user that has no
      groups yet, as CreateUserCommand builds it). */
  lemma AddUserKeepsWf(d: Directory, name: string, user: UserRec)
    requires Wf(d) && user.groups == []
    ensures AddUser(d, name, user).Success? ==> Wf(AddUser(d, name, user).value)
  {
  }

  lemma DeleteUserKeepsWf(d: Directory, name: string)
    requires Wf(d)
    ensures DeleteUser(d, name).Success? ==> Wf(DeleteUser(d, name).value)
  {
  }

  lemma DisableUserKeepsWf(d: Directory, name: string)
    requires Wf(d)
    ensures DisableUser(d, name).Success? ==> Wf(DisableUser(d, name).value)
  {
  }

  lemma SendMessageKeepsWf(d: Directory, name: string, message: string)
    requires Wf(d)
    ensures SendMessage(d, name, message).Success? ==> Wf(SendMessage(d, name, message).value)
  {
  }

  lemma AddUserToGroupKeepsWf(d: Directory, user: string, group: string)
    requires Wf(d)
    ensures AddUserToGroup(d, user, group).Success? ==> Wf(AddUserToGroup(d, user, group).value)
  {
    if AddUserToGroup(d, user, group).Success? {
      var d' := AddUserToGroup(d, user, group).value;
      var rec := d.users[user];
      assert group !in rec.groups;
      DistinctAppend(rec.groups, group);
      var members := if group in d.groups then d.groups[group] else [];
      DistinctAppend(members, user);
      forall u, g | u in d'.users && g in d'.users[u].groups
        ensures IsUserInGroup(d', u, g)
      {
        if g != group {
          assert g in d.users[u].groups;
        }
      }
    }
  }

  lemma RemoveUserFromGroupKeepsWf(d: Directory, user: string, group: string)
    requires Wf(d)
    ensures RemoveUserFromGroup(d, user, group).Success? ==> Wf(RemoveUserFromGroup(d, user, group).value)
  {
    if RemoveUserFromGroup(d, user, group).Success? {
      var d' := RemoveUserFromGroup(d, user, group).value;
      WithoutDistinct(d.groups[group], user);
      WithoutDistinct(d.users[user].groups, group);
      forall u, g | u in d'.users && g in d'.users[u].groups
        ensures IsUserInGroup(d', u, g)
      {
        assert g in d.users[u].groups;
        assert IsUserInGroup(d, u, g);
        if g == group {
          assert u != user;
          assert u in Without(d.groups[group], user);
        }
      }
    }
  }

  /** A successful add is undone by removing the user from the group again:
      the directory is exactly as before, including the case where the add
      created the group. */
  lemma AddThenRemove(d: Directory, user: string, group: string)
    requires Wf(d)
    requires AddUserToGroup(d, user, group).Success?
    ensures RemoveUserFromGroup(AddUserToGroup(d, user, group).value, user, group) == Success(d)
  {
    var rec := d.users[user];
    assert group !in rec.groups;
    var members := if group in d.groups then d.groups[group] else [];
    assert |members| > 0 <==> group in d.groups;
    AddThenRemoveStep(d, user, group, rec, members);
  }

  lemma AddThenRemoveStep(d: Directory, user: string, group: string, rec: UserRec, members: seq<string>)
    requires user in d.users && d.users[user] == rec && !rec.disabled && group !in rec.groups
    requires members == (if group in d.groups then d.groups[group] else [])
    requires user !in members && (|members| > 0 <==> group in d.groups)
    ensures RemoveUserFromGroup(AddUserToGroup(d, user, group).value, user, group) == Success(d)
  {
    var d1 := Directory(d.users[user := rec.(groups := rec.groups + [group])], d.groups[group := members + [user]]);
    assert AddUserToGroup(d, user, group) == Success(d1);
    RemoveAppended(d, d1, user, group, rec, members);
  }

  /** Removing the user from the directory where it was just appended to
      the group gives back the directory before the append. */
  lemma RemoveAppended(d: Directory, d1: Directory, user: string, group: string, rec: UserRec, members: seq<string>)
    requires user in d.users && d.users[user] == rec && group !in rec.groups
    requires members == (if group in d.groups then d.groups[group] else [])
    requires user !in members && (|members| > 0 <==> group in d.groups)
    requires d1 == Directory(d.users[user := rec.(groups := rec.groups + [group])], d.groups[group := members + [user]])
    ensures RemoveUserFromGroup(d1, user, group) == Success(d)
  {
    WithoutAppended(members, user);
    WithoutAppended(rec.groups, group);
    assert d1.users[user] == rec.(groups := rec.groups + [group]);
    assert d1.groups[group] == members + [user];
    assert user in d1.groups[group] by {
      assert (members + [user])[|members|] == user;
    }
    var users := d1.users[user := rec];
    assert users == d.users;
    assert users == d1.users[user := d1.users[user].(groups := Without(d1.users[user].groups, group))];
    if group in d.groups {
      assert d1.groups[group := members] == d.groups;
      assert RemoveUserFromGroup(d1, user, group) == Success(Directory(users, d1.groups[group := members]));
    } else {
      assert d1.groups - {group} == d.groups;
      assert RemoveUserFromGroup(d1, user, group) == Success(Directory(users, d1.groups - {group}));
    }
  }

  /** After a successful removal the group is gone exactly when the user
      was its only member. */
  lemma RemoveErasesLastMember(d: Directory, user: string, group: string)
    requires Wf(d)
    requires RemoveUserFromGroup(d, user, group).Success?
    ensures group !in RemoveUserFromGroup(d, user, group).value.groups <==> d.groups[group] == [user]
  {
    var members := d.groups[group];
    WithoutDistinct(members, user);
    if |members| == 1 {
      assert members == [user];
    }
  }

  /** A disabled user can neither join a group it is not in nor receive a
      message; the directory stays as it was. */
  lemma DisabledUserIsBlocked(d: Directory, user: string, group: string, message: string)
    requires user in d.users && d.users[user].disabled
    ensures !IsUserInGroup(d, user, group) ==>
      AddUserToGroup(d, user, group) == Failure(CommandExecution(Disabled))
    ensures SendMessage(d, user, message) == Failure(CommandExecution(Disabled))
  {
  }

  /** Disabling twice is disabling once. */
  lemma DisableIdempotent(d: Directory, name: string)
    requires DisableUser(d, name).Success?
    ensures DisableUser(DisableUser(d, name).value, name) == DisableUser(d, name)
  {
    var d1 := DisableUser(d, name).value;
    assert d1.users[name := d1.users[name].(disabled := true)] == d1.users;
  }

  /** A sent message is appended to the end of the recipient's history;
      every other user's history is untouched. */
  lemma SendMessageAppends(d: Directory, user: string, message: string, other: string)
    requires SendMessage(d, user, message).Success?
    ensures GetMessageHistory(SendMessage(d, user, message).value, user)
      == Success(GetMessageHistory(d, user).value + [message])
    ensures other != user ==>
      GetMessageHistory(SendMessage(d, user, message).value, other) == GetMessageHistory(d, other)
  {
  }

  /** Adding a new user and deleting it again gives back the directory. */
  lemma AddThenDelete(d: Directory, name: string, user: UserRec)
    requires name !in d.users
    ensures DeleteUser(AddUser(d, name, user).value, name) == Success(d)
  {
    assert d.users[name := user] - {name} == d.users;
  }

  /** DeleteUser does not scrub memberships: once a member of g is deleted,
      a user created afterwards under the same name counts as a member of
      g, although g is not in its list, and cannot join g. */
  lemma DeleteLeavesStaleMembership(d: Directory, u: string, g: string)
    requires u in d.users && IsUserInGroup(d, u, g)
    ensures var d3 := DeleteUser(d, u).value;
      var d4 := AddUser(d3, u, NewUser).value;
      && IsUserInGroup(d3, u, g)
      && IsUserInGroup(d4, u, g)
      && d4.users[u].groups == []
      && AddUserToGroup(d4, u, g) == Failure(CommandExecution(AlreadyMember))
  {
  }

  /** Such a membership arises from the empty directory: bob joins g, is
      deleted and is created again. */
  lemma StaleMembershipFromEmpty()
    ensures var d1 := AddUser(Empty, "bob", NewUser).value;
      var d2 := AddUserToGroup(d1, "bob", "g").value;
      "bob" in d2.users && IsUserInGroup(d2, "bob", "g")
  {
  }
}
