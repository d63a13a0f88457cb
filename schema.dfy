/**
 * The database context: one table per entity set, the constraints the model
 * builder declares (a unique index on a membership's group and user, and
 * restricting foreign keys from a direct message to its sender and recipient),
 * the foreign keys the conventions add for memberships and group messages,
 * and the lookups the controllers run against the tables.
 */
module Schema {
  import opened Wrappers
  import opened Text
  import opened Collections
  import opened Entities

  function UserIds(users: seq<ApplicationUser>): set<UserId> {
    set u | u in users :: u.id
  }

  function GroupIds(groups: seq<Group>): set<int> {
    set g | g in groups :: g.id
  }

  /** Users: ids and normalised e-mails unique, user name equal to e-mail (both
      creation paths set it so), every role one the role table holds. */
  predicate UsersOk(users: seq<ApplicationUser>, roleTable: set<Role>) {
    && Pairwise(users, DistinctUsers)
    && (forall u | u in users :: u.userName == u.email && u.roles <= roleTable)
  }

  /** Two user rows differ in id and in normalised e-mail. */
  predicate DistinctUsers(a: ApplicationUser, b: ApplicationUser) {
    a.id != b.id && NormalizeEmail(a.email) != NormalizeEmail(b.email)
  }

  /** Direct messages: in insertion order (ids and times increasing), below the
      counters, sender and recipient live users, content stored trimmed and non-empty. */
  predicate MessagesOk(messages: seq<Message>, live: set<UserId>, nextId: int, clock: int)
    ensures MessagesOk(messages, live, nextId, clock) ==>
      && (forall i, j | 0 <= i < j < |messages| :: messages[i].id != messages[j].id)
      && (forall m | m in messages :: m.senderId in live && m.recipientId in live)
  {
    && Increasing(messages, MessageId)
    && Increasing(messages, MessageTime)
    && (forall m | m in messages ::
          && m.id < nextId && m.createdAt < clock
          && m.senderId in live && m.recipientId in live
          && IsTrimmedText(m.content))
  }

  predicate GroupsOk(groups: seq<Group>, nextId: int, clock: int) {
    && Increasing(groups, GroupId)
    && Increasing(groups, GroupTime)
    && (forall g | g in groups :: g.id < nextId && g.createdAt < clock && IsTrimmedText(g.name))
  }

  /** The unique index on (GroupId, UserId). */
  predicate UniqueMemberships(members: seq<GroupMember>)
    ensures UniqueMemberships(members) <==>
      forall i, j | 0 <= i < |members| && 0 <= j < |members| ::
        members[i].groupId == members[j].groupId && members[i].userId == members[j].userId ==> i == j
  {
    Pairwise(members, DistinctPair)
  }

  predicate DistinctPair(a: GroupMember, b: GroupMember) {
    !(a.groupId == b.groupId && a.userId == b.userId)
  }

  predicate MembersOk(members: seq<GroupMember>, groupIds: set<int>, live: set<UserId>, nextId: int)
    ensures MembersOk(members, groupIds, live, nextId) ==>
      && (forall i, j | 0 <= i < j < |members| :: members[i].id != members[j].id)
      && (forall m | m in members :: m.groupId in groupIds && m.userId in live)
  {
    && Increasing(members, MemberId)
    && UniqueMemberships(members)
    && (forall m | m in members :: m.id < nextId && m.groupId in groupIds && m.userId in live)
  }

  predicate GroupMessagesOk(messages: seq<GroupMessage>, groupIds: set<int>, live: set<UserId>, nextId: int, clock: int) {
    && Increasing(messages, GroupMessageId)
    && Increasing(messages, GroupMessageTime)
    && (forall m | m in messages ::
          && m.id < nextId && m.createdAt < clock
          && m.groupId in groupIds && m.senderId in live
          && IsTrimmedText(m.content))
  }

  /** The restricting foreign keys: a user row may be deleted only when no
      direct message names it as sender or recipient. */
  predicate CanRemoveUser(messages: seq<Message>, id: UserId) {
    forall m | m in messages :: m.senderId != id && m.recipientId != id
  }

  /** `FindByIdAsync`: the position of the user with this id. */
  function FindUser(users: seq<ApplicationUser>, id: UserId): (r: Option<nat>)
    ensures r.Some? ==> r.value < |users| && users[r.value].id == id
    ensures r.None? <==> id !in UserIds(users)
  {
    if users == [] then None
    else if users[0].id == id then Some(0)
    else
      var r := FindUser(users[1..], id);
      assert UserIds(users) == {users[0].id} + UserIds(users[1..]) by {
        assert users == [users[0]] + users[1..];
      }
      if r.None? then None else Some(r.value + 1)
  }

  /** `FindByEmailAsync`: the first user whose normalised e-mail matches. */
  function FindByEmail(users: seq<ApplicationUser>, email: string): (r: Option<nat>)
    ensures r.Some? ==> r.value < |users| && NormalizeEmail(users[r.value].email) == NormalizeEmail(email)
    ensures r.Some? ==> forall k | 0 <= k < r.value :: NormalizeEmail(users[k].email) != NormalizeEmail(email)
    ensures r.None? <==> forall u | u in users :: NormalizeEmail(u.email) != NormalizeEmail(email)
  {
    if users == [] then None
    else if NormalizeEmail(users[0].email) == NormalizeEmail(email) then Some(0)
    else
      var r := FindByEmail(users[1..], email);
      assert users == [users[0]] + users[1..];
      if r.None? then None else Some(r.value + 1)
  }

  /** The first group with this id (`FirstOrDefaultAsync(x => x.Id == id)`). */
  function FindGroup(groups: seq<Group>, id: int): (r: Option<Group>)
    ensures r.Some? ==> r.value in groups && r.value.id == id
    ensures r.None? <==> id !in GroupIds(groups)
  {
    if groups == [] then None
    else if groups[0].id == id then Some(groups[0])
    else
      assert groups == [groups[0]] + groups[1..];
      FindGroup(groups[1..], id)
  }

  /** With unique ids the lookup finds exactly the group carrying the id. */
  lemma {:induction false} FindGroupExact(groups: seq<Group>, g: Group)
    requires Increasing(groups, GroupId)
    requires g in groups
    ensures FindGroup(groups, g.id) == Some(g)
  {
    if groups[0] != g {
      assert g in groups[1..];
      var j :| 0 <= j < |groups[1..]| && groups[1..][j] == g;
      assert GroupId(groups[0]) < GroupId(groups[j + 1]);
      FindGroupExact(groups[1..], g);
    }
  }

  /** With unique ids a user is found at the position it occupies. */
  lemma FindUserExact(users: seq<ApplicationUser>, roleTable: set<Role>, k: nat)
    requires UsersOk(users, roleTable)
    requires k < |users|
    ensures FindUser(users, users[k].id) == Some(k)
  {
  }

  /** The foreign keys of a batch of inserted memberships: `SaveChanges` commits
      the batch only when every row's group and user exist (an empty batch always). */
  predicate BatchAccepted(batch: seq<GroupMember>, groupIds: set<int>, live: set<UserId>) {
    forall m | m in batch :: m.groupId in groupIds && m.userId in live
  }

  /** Appending a batch with fresh consecutive ids and accepted foreign keys,
      which together with the old rows repeats no (GroupId, UserId) pair, keeps
      the membership table valid. */
  lemma AppendMembers(members: seq<GroupMember>, batch: seq<GroupMember>, groupIds: set<int>, live: set<UserId>, nextId: int)
    requires MembersOk(members, groupIds, live, nextId)
    requires forall k | 0 <= k < |batch| :: batch[k].id == nextId + k
    requires BatchAccepted(batch, groupIds, live)
    requires UniqueMemberships(members + batch)
    ensures MembersOk(members + batch, groupIds, live, nextId + |batch|)
  {
    var all := members + batch;
    forall i, j | 0 <= i < j < |all| ensures MemberId(all[i]) < MemberId(all[j]) {
      if j >= |members| && i < |members| {
        assert all[i] in members;
        assert all[j] == batch[j - |members|];
      } else if i >= |members| {
        assert all[i] == batch[i - |members|] && all[j] == batch[j - |members|];
      }
    }
    forall m | m in all ensures m.id < nextId + |batch| {
      if m in batch {
        var k :| 0 <= k < |batch| && batch[k] == m;
      }
    }
  }

  /** Removing rows keeps the user table valid. */
  lemma FilterUsersOk(users: seq<ApplicationUser>, p: ApplicationUser -> bool, roleTable: set<Role>)
    requires UsersOk(users, roleTable)
    ensures UsersOk(Filter(users, p), roleTable)
  {
    FilterKeepsPairwise(users, p, DistinctUsers);
  }

  /** Removing rows keeps the message table valid for any user set still holding
      the senders and recipients of the rows that remain. */
  lemma FilterMessagesOk(messages: seq<Message>, p: Message -> bool, live: set<UserId>, live': set<UserId>, nextId: int, clock: int)
    requires MessagesOk(messages, live, nextId, clock)
    requires forall m | m in Filter(messages, p) :: m.senderId in live' && m.recipientId in live'
    ensures MessagesOk(Filter(messages, p), live', nextId, clock)
  {
    FilterKeepsIncreasing(messages, p, MessageId);
    FilterKeepsIncreasing(messages, p, MessageTime);
  }

  lemma FilterGroupsOk(groups: seq<Group>, p: Group -> bool, nextId: int, clock: int)
    requires GroupsOk(groups, nextId, clock)
    ensures GroupsOk(Filter(groups, p), nextId, clock)
  {
    FilterKeepsIncreasing(groups, p, GroupId);
    FilterKeepsIncreasing(groups, p, GroupTime);
  }

  lemma FilterMembersOk(members: seq<GroupMember>, p: GroupMember -> bool, groupIds: set<int>, groupIds': set<int>,
                        live: set<UserId>, live': set<UserId>, nextId: int)
    requires MembersOk(members, groupIds, live, nextId)
    requires forall m | m in Filter(members, p) :: m.groupId in groupIds' && m.userId in live'
    ensures MembersOk(Filter(members, p), groupIds', live', nextId)
  {
    FilterKeepsIncreasing(members, p, MemberId);
    FilterKeepsPairwise(members, p, DistinctPair);
  }

  lemma FilterGroupMessagesOk(messages: seq<GroupMessage>, p: GroupMessage -> bool, groupIds: set<int>, groupIds': set<int>,
                              live: set<UserId>, live': set<UserId>, nextId: int, clock: int)
    requires GroupMessagesOk(messages, groupIds, live, nextId, clock)
    requires forall m | m in Filter(messages, p) :: m.groupId in groupIds' && m.senderId in live'
    ensures GroupMessagesOk(Filter(messages, p), groupIds', live', nextId, clock)
  {
    FilterKeepsIncreasing(messages, p, GroupMessageId);
    FilterKeepsIncreasing(messages, p, GroupMessageTime);
  }

  /** Appending keeps a strictly increasing key strictly increasing when the new
      key is above all others. */
  lemma AppendIncreasing<T>(s: seq<T>, x: T, key: T -> int)
    requires Increasing(s, key)
    requires forall y | y in s :: key(y) < key(x)
    ensures Increasing(s + [x], key)
  {
    forall i, j | 0 <= i < j < |s + [x]| ensures key((s + [x])[i]) < key((s + [x])[j]) {
      if j == |s| {
        assert (s + [x])[i] in s;
      }
    }
  }

  /** The whole content of the database, as one value. */
  datatype Tables = Tables(
    users: seq<ApplicationUser>,
    roles: set<Role>,
    messages: seq<Message>,
    groups: seq<Group>,
    groupMembers: seq<GroupMember>,
    groupMessages: seq<GroupMessage>,
    clock: nat,
    nextMessageId: nat,
    nextGroupId: nat,
    nextMemberId: nat,
    nextGroupMessageId: nat)

  /** Every constraint of the schema holds. */
  predicate TablesOk(t: Tables)
    ensures TablesOk(t) ==>
      && (forall m | m in t.messages :: m.senderId in UserIds(t.users) && m.recipientId in UserIds(t.users))
      && (forall m | m in t.groupMembers :: m.groupId in GroupIds(t.groups) && m.userId in UserIds(t.users))
      && UniqueMemberships(t.groupMembers)
  {
    && UsersOk(t.users, t.roles)
    && MessagesOk(t.messages, UserIds(t.users), t.nextMessageId, t.clock)
    && GroupsOk(t.groups, t.nextGroupId, t.clock)
    && MembersOk(t.groupMembers, GroupIds(t.groups), UserIds(t.users), t.nextMemberId)
    && GroupMessagesOk(t.groupMessages, GroupIds(t.groups), UserIds(t.users), t.nextGroupMessageId, t.clock)
  }

  /** What start-up establishes before the first request: both roles exist and
      the protected administrator exists and holds Admin. */
  predicate SeededTables(t: Tables) {
    && Admin in t.roles && User in t.roles
    && exists i | 0 <= i < |t.users| :: t.users[i].email == SeedAdminEmail && Admin in t.users[i].roles
  }

  /** Rewriting one user row without touching its id, e-mail or user name, and
      with roles the role table holds, keeps every table valid; the seeded
      administrator survives when the row is not it or still holds Admin. */
  lemma UpdateUserKeepsTables(t: Tables, i: nat, u: ApplicationUser)
    requires TablesOk(t) && i < |t.users|
    requires u.id == t.users[i].id && u.email == t.users[i].email && u.userName == t.users[i].userName
    requires u.roles <= t.roles
    ensures UserIds(t.users[i := u]) == UserIds(t.users)
    ensures TablesOk(t.(users := t.users[i := u]))
    ensures SeededTables(t) && (u.email == SeedAdminEmail ==> Admin in u.roles) ==>
              SeededTables(t.(users := t.users[i := u]))
  {
    var users' := t.users[i := u];
    forall a, b | 0 <= a < b < |users'| ensures DistinctUsers(users'[a], users'[b]) {
      assert DistinctUsers(t.users[a], t.users[b]);
    }
    forall x | x in UserIds(t.users) ensures x in UserIds(users') {
      var k :| 0 <= k < |t.users| && t.users[k].id == x;
      assert users'[k].id == x;
    }
    forall x | x in UserIds(users') ensures x in UserIds(t.users) {
      var k :| 0 <= k < |users'| && users'[k].id == x;
      assert t.users[k].id == x;
    }
    if SeededTables(t) && (u.email == SeedAdminEmail ==> Admin in u.roles) {
      var j :| 0 <= j < |t.users| && t.users[j].email == SeedAdminEmail && Admin in t.users[j].roles;
      assert users'[j].email == SeedAdminEmail && Admin in users'[j].roles;
    }
  }

  /** Inserting a user with a fresh id, an e-mail no user has after
      normalisation, the e-mail as user name and roles the role table holds keeps
      every table valid, and keeps the seeded administrator. */
  lemma AddUserKeepsTables(t: Tables, u: ApplicationUser)
    requires TablesOk(t)
    requires u.id !in UserIds(t.users)
    requires forall v | v in t.users :: NormalizeEmail(v.email) != NormalizeEmail(u.email)
    requires u.userName == u.email && u.roles <= t.roles
    ensures UserIds(t.users + [u]) == UserIds(t.users) + {u.id}
    ensures TablesOk(t.(users := t.users + [u]))
    ensures SeededTables(t) ==> SeededTables(t.(users := t.users + [u]))
  {
    var users' := t.users + [u];
    forall a, b | 0 <= a < b < |users'| ensures DistinctUsers(users'[a], users'[b]) {
      if b == |t.users| {
        assert users'[a] in t.users;
      }
    }
    assert UserIds(users') == UserIds(t.users) + {u.id};
    if SeededTables(t) {
      var j :| 0 <= j < |t.users| && t.users[j].email == SeedAdminEmail && Admin in t.users[j].roles;
      assert users'[j] == t.users[j];
    }
  }

  /**
   * The database: one sequence per table, kept in insertion order, a counter
   * per table for the next AUTOINCREMENT key, and a logical clock standing for
   * `DateTime.UtcNow` when a row is created.
   */
  class Store {
    var users: seq<ApplicationUser>
    var roles: set<Role>
    var messages: seq<Message>
    var groups: seq<Group>
    var groupMembers: seq<GroupMember>
    var groupMessages: seq<GroupMessage>
    var clock: nat
    var nextMessageId: nat
    var nextGroupId: nat
    var nextMemberId: nat
    var nextGroupMessageId: nat

    /** Every constraint of the schema holds. */
    ghost predicate Valid()
      reads this
      ensures Valid() ==> forall m | m in messages :: m.senderId in UserIds(users) && m.recipientId in UserIds(users)
      ensures Valid() ==> UniqueMemberships(groupMembers)
    {
      TablesOk(Content())
    }

    /** The content of every table. */
    ghost function Content(): Tables
      reads this
    {
      Tables(users, roles, messages, groups, groupMembers, groupMessages,
             clock, nextMessageId, nextGroupId, nextMemberId, nextGroupMessageId)
    }

    /** What start-up establishes before the first request. */
    ghost predicate Seeded()
      reads this
    {
      SeededTables(Content())
    }

    /** `EnsureCreatedAsync` on a fresh database: every table empty. */
    constructor ()
      ensures Valid()
      ensures users == [] && roles == {} && messages == [] && groups == []
      ensures groupMembers == [] && groupMessages == []
      ensures clock == 0
    {
      users, roles, messages, groups := [], {}, [], [];
      groupMembers, groupMessages := [], [];
      clock := 0;
      nextMessageId, nextGroupId, nextMemberId, nextGroupMessageId := 1, 1, 1, 1;
    }
  }
}
