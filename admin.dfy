/**
 * Account administration (administrators only): the user list with each
 * user's Admin flag, the Admin toggle that never leaves a user without a role,
 * and user deletion, which first removes every row that references the user.
 * Both changing actions refuse to touch the seeded administrator.
 */
module AdminController {
  import opened Wrappers
  import opened Text
  import opened Collections
  import opened Entities
  import opened Schema

  // ---------------------------------------------------------------------------
  // Users
  // ---------------------------------------------------------------------------

  /** One row of the user administration view. */
  datatype UserRow = UserRow(id: UserId, email: string, isAdmin: bool)

  function UserEmail(u: ApplicationUser): string { u.email }
  function RowEmail(r: UserRow): string { r.email }

  /** The row shown for a user (`IsInRoleAsync(u, "Admin")`). */
  function RowOf(u: ApplicationUser): UserRow {
    UserRow(u.id, u.email, Admin in u.roles)
  }

  /** Rows built one per user of the e-mail ordering list every user once, in
      e-mail order, each flagged exactly when its user holds Admin. */
  lemma RowsListEveryone(users: seq<ApplicationUser>, rows: seq<UserRow>)
    requires |rows| == |SortBy(users, UserEmail)|
    requires forall j | 0 <= j < |rows| :: rows[j] == RowOf(SortBy(users, UserEmail)[j])
    ensures |rows| == |users|
    ensures SortedBy(rows, RowEmail)
    ensures forall u | u in users :: RowOf(u) in rows
    ensures forall row | row in rows :: exists u | u in users :: row == RowOf(u)
  {
    var sorted := SortBy(users, UserEmail);
    SortByMembers(users, UserEmail);
    forall i, j | 0 <= i < j < |rows| ensures StrLe(RowEmail(rows[i]), RowEmail(rows[j])) {
      assert RowEmail(rows[i]) == UserEmail(sorted[i]) && RowEmail(rows[j]) == UserEmail(sorted[j]);
    }
    forall u | u in users ensures RowOf(u) in rows {
      var j :| 0 <= j < |sorted| && sorted[j] == u;
      assert rows[j] == RowOf(u);
    }
    forall row | row in rows ensures exists u | u in users :: row == RowOf(u) {
      var j :| 0 <= j < |rows| && rows[j] == row;
      assert sorted[j] in users;
    }
  }

  /** `Users`: every user, ordered by e-mail, each with a flag that is set
      exactly when the user holds Admin. */
  method Users(s: Store, p: Principal) returns (r: Result<seq<UserRow>, Outcome>)
    ensures !IsAdmin(p) ==> r == Failure(Forbid)
    ensures IsAdmin(p) ==>
      && r.Success?
      && |r.value| == |s.users|
      && SortedBy(r.value, RowEmail)
      && (forall u | u in s.users :: RowOf(u) in r.value)
      && (forall row | row in r.value :: exists u | u in s.users :: row == RowOf(u))
  {
    if !IsAdmin(p) {
      return Failure(Forbid);
    }
    var users := SortBy(s.users, UserEmail);
    var rows: seq<UserRow> := [];
    var k := 0;
    while k < |users|
      invariant 0 <= k <= |users|
      invariant |rows| == k
      invariant forall j | 0 <= j < k :: rows[j] == RowOf(users[j])
    {
      rows := rows + [RowOf(users[k])];
      k := k + 1;
    }
    RowsListEveryone(s.users, rows);
    return Success(rows);
  }

  // ---------------------------------------------------------------------------
  // ToggleAdmin
  // ---------------------------------------------------------------------------

  /** The role set after the toggle: Admin removed (with User added when
      missing), or Admin added. */
  function ToggleRoles(roles: set<Role>): (r: set<Role>)
    ensures r != {}
    ensures Admin in r <==> Admin !in roles
    ensures User in roles || Admin in roles ==> User in r
  {
    if Admin in roles then
      var lowered := roles - {Admin};
      if User in lowered then lowered else lowered + {User}
    else roles + {Admin}
  }

  /** The toggle flips Admin, never leaves the role set empty, and a demoted
      user holds User. */
  lemma ToggleFlipsAdmin(roles: set<Role>)
    ensures Admin in ToggleRoles(roles) <==> Admin !in roles
    ensures ToggleRoles(roles) != {}
    ensures Admin in roles ==> ToggleRoles(roles) == {User}
    ensures Admin !in roles ==> ToggleRoles(roles) == roles + {Admin}
  {
    if Admin in roles {
      assert User in ToggleRoles(roles);
      assert forall r | r in ToggleRoles(roles) :: r == User;
    } else {
      assert Admin in ToggleRoles(roles);
    }
  }

  /** Toggling twice restores the role set exactly when the user held User;
      in particular a plain user {User} comes back as {User}. */
  lemma ToggleTwice(roles: set<Role>)
    ensures ToggleRoles(ToggleRoles(roles)) == roles <==> User in roles
  {
    ToggleFlipsAdmin(roles);
    ToggleFlipsAdmin(ToggleRoles(roles));
    if Admin in roles {
      assert ToggleRoles(ToggleRoles(roles)) == {User, Admin};
      if User in roles {
        assert roles == {User, Admin} by {
          forall r ensures r in roles <==> r in {User, Admin} {
            assert r == User || r == Admin;
          }
        }
      } else {
        assert User !in roles && User in ToggleRoles(ToggleRoles(roles));
      }
    } else {
      assert ToggleRoles(ToggleRoles(roles)) == (roles + {Admin}) - {Admin} + {User};
      if User in roles {
        assert roles == {User} by {
          forall r ensures r in roles <==> r == User {
            assert r == User || r == Admin;
          }
        }
      } else {
        assert User !in roles && User in ToggleRoles(ToggleRoles(roles));
      }
    }
  }

  /** `ToggleAdmin`: an unknown id changes nothing; the seeded administrator
      (found by exact e-mail) is refused; any other user has Admin toggled and
      nothing else in the store changes. */
  method ToggleAdmin(s: Store, p: Principal, id: UserId) returns (o: Outcome)
    requires s.Valid() && s.Seeded()
    modifies s
    ensures s.Valid() && s.Seeded()
    ensures !IsAdmin(p) ==> o == Forbid && s.Content() == old(s.Content())
    ensures IsAdmin(p) && id !in UserIds(old(s.users)) ==> o == NoOp && s.Content() == old(s.Content())
    ensures IsAdmin(p) && id in UserIds(old(s.users)) ==>
      var i := FindUser(old(s.users), id).value;
      var u := old(s.users)[i];
      && (u.email == SeedAdminEmail ==> o == Protected && s.Content() == old(s.Content()))
      && (u.email != SeedAdminEmail ==>
            && o == Ok
            && s.Content() == old(s.Content()).(users := old(s.users)[i := u.(roles := ToggleRoles(u.roles))]))
  {
    if !IsAdmin(p) {
      return Forbid;
    }
    var found := FindUser(s.users, id);
    if found.None? {
      return NoOp;
    }
    var i := found.value;
    var u := s.users[i];
    if u.email == SeedAdminEmail {
      return Protected;
    }
    var roles := u.roles;
    if Admin in roles {
      roles := roles - {Admin};
      if User !in roles {
        roles := roles + {User};
      }
    } else {
      roles := roles + {Admin};
    }
    assert roles == ToggleRoles(u.roles);
    UpdateUserKeepsTables(s.Content(), i, u.(roles := roles));
    s.users := s.users[i := u.(roles := roles)];
    assert s.Content() == old(s.Content()).(users := old(s.users)[i := u.(roles := roles)]);
    o := Ok;
  }

  // ---------------------------------------------------------------------------
  // DeleteUser
  // ---------------------------------------------------------------------------

  function OtherUser(id: UserId): ApplicationUser -> bool { (u: ApplicationUser) => u.id != id }
  function MembershipNotOf(id: UserId): GroupMember -> bool { (m: GroupMember) => m.userId != id }
  function MessageNotInvolving(id: UserId): Message -> bool {
    (m: Message) => m.senderId != id && m.recipientId != id
  }
  function GroupMessageNotFrom(id: UserId): GroupMessage -> bool { (m: GroupMessage) => m.senderId != id }

  /** The tables after the first `SaveChangesAsync` of `DeleteUser`: the user's
      memberships, its direct messages either way and its group messages removed. */
  function ClearReferences(t: Tables, id: UserId): Tables {
    t.(groupMembers := Filter(t.groupMembers, MembershipNotOf(id)),
       messages := Filter(t.messages, MessageNotInvolving(id)),
       groupMessages := Filter(t.groupMessages, GroupMessageNotFrom(id)))
  }

  /** The tables after `DeleteUser`: the references cleared, then the user row gone. */
  function DeleteUserTables(t: Tables, id: UserId): Tables {
    ClearReferences(t, id).(users := Filter(t.users, OtherUser(id)))
  }

  /** No row references the user. */
  predicate Unreferenced(t: Tables, id: UserId) {
    && CanRemoveUser(t.messages, id)
    && (forall m | m in t.groupMembers :: m.userId != id)
    && (forall m | m in t.groupMessages :: m.senderId != id)
  }

  /** Exactly the rows that reference the user go; none that reference it remain. */
  lemma DeleteUserRemovesExactly(t: Tables, id: UserId)
    ensures UserIds(DeleteUserTables(t, id).users) == UserIds(t.users) - {id}
    ensures forall u | u in t.users :: u in DeleteUserTables(t, id).users <==> u.id != id
    ensures forall m | m in t.groupMembers :: m in DeleteUserTables(t, id).groupMembers <==> m.userId != id
    ensures forall m | m in t.messages ::
              m in DeleteUserTables(t, id).messages <==> m.senderId != id && m.recipientId != id
    ensures forall m | m in t.groupMessages :: m in DeleteUserTables(t, id).groupMessages <==> m.senderId != id
    ensures Unreferenced(ClearReferences(t, id), id)
  {
    var users' := DeleteUserTables(t, id).users;
    forall x | x in UserIds(t.users) - {id} ensures x in UserIds(users') {
      var u :| u in t.users && u.id == x;
      assert u in users';
    }
  }

  /** The restricting foreign keys: while a direct message still names the user,
      the message table is invalid without that user, so the user row cannot go
      first. */
  lemma RestrictRefusesReferencedUser(messages: seq<Message>, live: set<UserId>, id: UserId, nextId: int, clock: int)
    requires !CanRemoveUser(messages, id)
    ensures !MessagesOk(messages, live - {id}, nextId, clock)
  {
    var m :| m in messages && !(m.senderId != id && m.recipientId != id);
    assert m.senderId !in live - {id} || m.recipientId !in live - {id};
  }

  /** Removing rows that reference a user keeps every table valid. */
  lemma ClearReferencesKeepsTables(t: Tables, id: UserId)
    requires TablesOk(t)
    ensures TablesOk(ClearReferences(t, id))
  {
    var live := UserIds(t.users);
    FilterMessagesOk(t.messages, MessageNotInvolving(id), live, live, t.nextMessageId, t.clock);
    FilterMembersOk(t.groupMembers, MembershipNotOf(id), GroupIds(t.groups), GroupIds(t.groups), live, live,
                    t.nextMemberId);
    FilterGroupMessagesOk(t.groupMessages, GroupMessageNotFrom(id), GroupIds(t.groups), GroupIds(t.groups),
                          live, live, t.nextGroupMessageId, t.clock);
  }

  /** Removing a user no row references keeps every table valid; the seeded
      administrator stays when the removed user is not it. */
  lemma RemoveUserKeepsTables(t: Tables, i: nat)
    requires TablesOk(t) && i < |t.users|
    requires Unreferenced(t, t.users[i].id)
    ensures TablesOk(t.(users := Filter(t.users, OtherUser(t.users[i].id))))
    ensures SeededTables(t) && t.users[i].email != SeedAdminEmail ==>
              SeededTables(t.(users := Filter(t.users, OtherUser(t.users[i].id))))
  {
    var id := t.users[i].id;
    var users' := Filter(t.users, OtherUser(id));
    assert UserIds(users') == UserIds(t.users) - {id} by {
      forall x | x in UserIds(t.users) - {id} ensures x in UserIds(users') {
        var u :| u in t.users && u.id == x;
        assert u in users';
      }
    }
    FilterUsersOk(t.users, OtherUser(id), t.roles);
    var live' := UserIds(users');
    assert MessagesOk(t.messages, live', t.nextMessageId, t.clock);
    assert MembersOk(t.groupMembers, GroupIds(t.groups), live', t.nextMemberId);
    assert GroupMessagesOk(t.groupMessages, GroupIds(t.groups), live', t.nextGroupMessageId, t.clock);
    if SeededTables(t) && t.users[i].email != SeedAdminEmail {
      var j :| 0 <= j < |t.users| && t.users[j].email == SeedAdminEmail && Admin in t.users[j].roles;
      if i < j {
        assert DistinctUsers(t.users[i], t.users[j]);
      } else if j < i {
        assert DistinctUsers(t.users[j], t.users[i]);
      }
      assert t.users[j] in users';
    }
  }

  /** The first `SaveChangesAsync` of `DeleteUser`: every membership, direct
      message and group message that references the user is removed. */
  method RemoveReferences(s: Store, id: UserId)
    requires s.Valid() && s.Seeded()
    modifies s
    ensures s.Valid() && s.Seeded()
    ensures s.Content() == ClearReferences(old(s.Content()), id)
  {
    ClearReferencesKeepsTables(s.Content(), id);
    ghost var t' := ClearReferences(s.Content(), id);
    s.groupMembers := Filter(s.groupMembers, MembershipNotOf(id));
    s.messages := Filter(s.messages, MessageNotInvolving(id));
    s.groupMessages := Filter(s.groupMessages, GroupMessageNotFrom(id));
    assert s.Content() == t';
  }

  /** `DeleteAsync(u)`: the user row (with its role assignments) goes; the
      restricting foreign keys require that nothing references it any more. */
  method RemoveUser(s: Store, i: nat)
    requires s.Valid() && s.Seeded()
    requires i < |s.users| && s.users[i].email != SeedAdminEmail
    requires Unreferenced(s.Content(), s.users[i].id)
    modifies s
    ensures s.Valid() && s.Seeded()
    ensures s.Content() == old(s.Content()).(users := Filter(old(s.users), OtherUser(old(s.users)[i].id)))
  {
    RemoveUserKeepsTables(s.Content(), i);
    s.users := Filter(s.users, OtherUser(s.users[i].id));
  }

  /** `DeleteUser`: an unknown id changes nothing; the seeded administrator is
      refused; otherwise the user's memberships, direct messages and group
      messages are removed, then the user, and no other row changes. */
  method DeleteUser(s: Store, p: Principal, id: UserId) returns (o: Outcome)
    requires s.Valid() && s.Seeded()
    modifies s
    ensures s.Valid() && s.Seeded()
    ensures !IsAdmin(p) ==> o == Forbid && s.Content() == old(s.Content())
    ensures IsAdmin(p) && id !in UserIds(old(s.users)) ==> o == NoOp && s.Content() == old(s.Content())
    ensures IsAdmin(p) && id in UserIds(old(s.users)) ==>
      var u := old(s.users)[FindUser(old(s.users), id).value];
      && (u.email == SeedAdminEmail ==> o == Protected && s.Content() == old(s.Content()))
      && (u.email != SeedAdminEmail ==> o == Ok && s.Content() == DeleteUserTables(old(s.Content()), id))
  {
    if !IsAdmin(p) {
      return Forbid;
    }
    var found := FindUser(s.users, id);
    if found.None? {
      return NoOp;
    }
    var i := found.value;
    if s.users[i].email == SeedAdminEmail {
      return Protected;
    }
    DeleteUserRemovesExactly(s.Content(), id);
    RemoveReferences(s, id);
    RemoveUser(s, i);
    o := Ok;
  }
}
