/**
 * Group chats: the membership gate shared by viewing and posting, the
 * membership-scoped and administrative listings, and the administrator's
 * create, delete, add-member and remove-member actions with the cascade on
 * group deletion.
 */
module GroupsController {
  import opened Wrappers
  import opened Text
  import opened Collections
  import opened Entities
  import opened Schema

  // ---------------------------------------------------------------------------
  // Queries
  // ---------------------------------------------------------------------------

  /** The membership check of `Chat` and `Send` (`AnyAsync(x => x.GroupId == id && x.UserId == me)`). */
  predicate IsMember(members: seq<GroupMember>, groupId: int, userId: UserId)
    ensures IsMember(members, groupId, userId) <==>
      exists k | 0 <= k < |members| :: members[k].groupId == groupId && members[k].userId == userId
  {
    exists m | m in members :: m.groupId == groupId && m.userId == userId
  }

  function GroupName(g: Group): string { g.name }

  /** The groups of the caller's memberships, in membership order (the
      navigation `Select(gm => gm.Group)`, an inner join). */
  function MemberGroups(members: seq<GroupMember>, groups: seq<Group>, me: UserId): (r: seq<Group>)
    ensures forall g | g in r :: g in groups && IsMember(members, g.id, me)
  {
    if members == [] then []
    else
      var m := members[0];
      var rest := MemberGroups(members[1..], groups, me);
      assert forall g | g in rest :: IsMember(members, g.id, me) by {
        forall g | g in rest ensures IsMember(members, g.id, me) {
          var x :| x in members[1..] && x.groupId == g.id && x.userId == me;
          assert x in members;
        }
      }
      match FindGroup(groups, m.groupId)
      case Some(g) => if m.userId == me then [g] + rest else rest
      case None => rest
  }

  /** `Index`: the groups the caller belongs to, ordered by name. */
  function Index(members: seq<GroupMember>, groups: seq<Group>, me: UserId): (r: seq<Group>)
    ensures SortedBy(r, GroupName)
    ensures forall g | g in r :: g in groups && IsMember(members, g.id, me)
  {
    var s := MemberGroups(members, groups, me);
    SortByMembers(s, GroupName);
    SortBy(s, GroupName)
  }

  /** Every group the caller belongs to is listed. */
  lemma {:induction false} MemberGroupsComplete(members: seq<GroupMember>, groups: seq<Group>, me: UserId, g: Group)
    requires Increasing(groups, GroupId)
    requires g in groups && IsMember(members, g.id, me)
    ensures g in MemberGroups(members, groups, me)
  {
    FindGroupExact(groups, g);
    if !(members[0].groupId == g.id && members[0].userId == me) {
      var x :| x in members && x.groupId == g.id && x.userId == me;
      assert x in members[1..];
      MemberGroupsComplete(members[1..], groups, me, g);
    }
  }

  /** Under the unique membership index, no group is listed twice. */
  lemma {:induction false} MemberGroupsNoDuplicates(members: seq<GroupMember>, groups: seq<Group>, me: UserId)
    requires UniqueMemberships(members)
    ensures NoDuplicates(MemberGroups(members, groups, me))
  {
    if members != [] {
      var m := members[0];
      assert UniqueMemberships(members[1..]);
      MemberGroupsNoDuplicates(members[1..], groups, me);
      var rest := MemberGroups(members[1..], groups, me);
      if FindGroup(groups, m.groupId).Some? && m.userId == me {
        var g := FindGroup(groups, m.groupId).value;
        forall h | h in rest ensures h != g {
          var x :| x in members[1..] && x.groupId == h.id && x.userId == me;
          var j :| 0 <= j < |members[1..]| && members[1..][j] == x;
          assert DistinctPair(members[0], members[j + 1]);
        }
      }
    }
  }

  /** `Index` lists exactly the caller's groups, each once, ordered by name. */
  lemma IndexExact(members: seq<GroupMember>, groups: seq<Group>, me: UserId)
    requires Increasing(groups, GroupId) && UniqueMemberships(members)
    ensures SortedBy(Index(members, groups, me), GroupName)
    ensures NoDuplicates(Index(members, groups, me))
    ensures forall g :: g in Index(members, groups, me) <==> g in groups && IsMember(members, g.id, me)
  {
    var s := MemberGroups(members, groups, me);
    SortByMembers(s, GroupName);
    MemberGroupsNoDuplicates(members, groups, me);
    PermutationKeepsNoDuplicates(s, Index(members, groups, me));
    forall g | g in groups && IsMember(members, g.id, me) ensures g in Index(members, groups, me) {
      MemberGroupsComplete(members, groups, me, g);
    }
  }

  /** One line of the group chat view: the message joined with its sender's name. */
  datatype ChatLine = ChatLine(senderId: UserId, senderName: string, content: string, createdAt: nat)

  /** The group chat view: the group's name and its messages. */
  datatype ChatPage = ChatPage(groupId: int, groupName: string, lines: seq<ChatLine>)

  function InGroup(id: int): GroupMessage -> bool {
    (m: GroupMessage) => m.groupId == id
  }

  /** A group's messages in the order they were posted (`Where(m => m.GroupId == id)`
      over a table kept in `CreatedAt` order). */
  function GroupThread(messages: seq<GroupMessage>, id: int): (r: seq<GroupMessage>)
    ensures |r| <= |messages|
    ensures forall m | m in r :: m in messages && m.groupId == id
  {
    Filter(messages, InGroup(id))
  }

  /** The thread is exactly the group's messages and ascends in `CreatedAt`. */
  lemma GroupThreadExact(messages: seq<GroupMessage>, id: int)
    requires Increasing(messages, GroupMessageTime)
    ensures Increasing(GroupThread(messages, id), GroupMessageTime)
    ensures forall m :: m in GroupThread(messages, id) <==> m in messages && m.groupId == id
  {
    FilterKeepsIncreasing(messages, InGroup(id), GroupMessageTime);
  }

  /** The inner join of messages with their senders (`Join(_db.Users, ...)`); the
      sender's name is its user name, which every user has. */
  function JoinSenders(messages: seq<GroupMessage>, users: seq<ApplicationUser>): (r: seq<ChatLine>)
    ensures |r| <= |messages|
    ensures forall l | l in r :: l.senderId in UserIds(users)
  {
    if messages == [] then []
    else
      var m := messages[0];
      var rest := JoinSenders(messages[1..], users);
      match FindUser(users, m.senderId)
      case Some(i) => [ChatLine(m.senderId, users[i].userName, m.content, m.createdAt)] + rest
      case None => rest
  }

  /** A chat line shows the message with the user name of its sender. */
  predicate ShowsMessage(l: ChatLine, m: GroupMessage, users: seq<ApplicationUser>) {
    && l.senderId == m.senderId && l.content == m.content && l.createdAt == m.createdAt
    && exists u | u in users :: u.id == m.senderId && l.senderName == u.userName
  }

  /** When every sender exists the join drops no message: one line per message,
      in the same order. */
  lemma {:induction false} JoinSendersKeepsAll(messages: seq<GroupMessage>, users: seq<ApplicationUser>)
    requires forall m | m in messages :: m.senderId in UserIds(users)
    ensures |JoinSenders(messages, users)| == |messages|
    ensures forall k | 0 <= k < |messages| :: ShowsMessage(JoinSenders(messages, users)[k], messages[k], users)
  {
    if messages != [] {
      assert forall x | x in messages[1..] :: x in messages;
      JoinSendersKeepsAll(messages[1..], users);
      var r := JoinSenders(messages, users);
      var i := FindUser(users, messages[0].senderId).value;
      assert ShowsMessage(r[0], messages[0], users) by {
        assert users[i] in users;
      }
      forall k | 1 <= k < |messages| ensures ShowsMessage(r[k], messages[k], users) {
        assert r[k] == JoinSenders(messages[1..], users)[k - 1];
        assert messages[k] == messages[1..][k - 1];
      }
    }
  }

  /** `Chat`: the membership gate first, so a non-member is refused even for a
      group that does not exist; then the group lookup; then the group's messages. */
  function Chat(members: seq<GroupMember>, groups: seq<Group>, messages: seq<GroupMessage>,
                users: seq<ApplicationUser>, me: UserId, id: int): (r: Result<ChatPage, Outcome>)
    ensures r == Failure(Forbid) <==> !IsMember(members, id, me)
    ensures r == Failure(NotFound) <==> IsMember(members, id, me) && id !in GroupIds(groups)
    ensures r.Success? ==> r.value.groupId == id && exists g | g in groups :: g.id == id && g.name == r.value.groupName
  {
    if !IsMember(members, id, me) then Failure(Forbid)
    else match FindGroup(groups, id)
      case None => Failure(NotFound)
      case Some(g) => Success(ChatPage(id, g.name, JoinSenders(GroupThread(messages, id), users)))
  }

  /** A member of an existing group sees every message of that group and no other,
      in posting order, each with its sender. */
  lemma ChatShowsGroupThread(members: seq<GroupMember>, groups: seq<Group>, messages: seq<GroupMessage>,
                             users: seq<ApplicationUser>, me: UserId, id: int)
    requires forall m | m in members :: m.groupId in GroupIds(groups)
    requires forall m | m in messages :: m.senderId in UserIds(users)
    requires Increasing(messages, GroupMessageTime)
    requires IsMember(members, id, me)
    ensures var r := Chat(members, groups, messages, users, me, id);
      var thread := GroupThread(messages, id);
      && r.Success?
      && |r.value.lines| == |thread|
      && (forall m :: m in thread <==> m in messages && m.groupId == id)
      && (forall k | 0 <= k < |thread| :: ShowsMessage(r.value.lines[k], thread[k], users))
      && (forall i, j | 0 <= i < j < |thread| :: r.value.lines[i].createdAt < r.value.lines[j].createdAt)
  {
    var x :| x in members && x.groupId == id && x.userId == me;
    assert id in GroupIds(groups);
    var thread := GroupThread(messages, id);
    GroupThreadExact(messages, id);
    var lines := JoinSenders(thread, users);
    JoinSendersKeepsAll(thread, users);
    forall i, j | 0 <= i < j < |thread| ensures lines[i].createdAt < lines[j].createdAt {
      assert GroupMessageTime(thread[i]) < GroupMessageTime(thread[j]);
    }
  }

  /** One row of the member administration view. */
  datatype MemberRow = MemberRow(membershipId: int, email: string)

  datatype MembersPage = MembersPage(groupId: int, groupName: string, rows: seq<MemberRow>)

  function RowEmail(r: MemberRow): string { r.email }

  /** The join of a group's memberships with their users. */
  function MemberRows(members: seq<GroupMember>, users: seq<ApplicationUser>, id: int): (r: seq<MemberRow>)
    ensures forall row | row in r :: exists m, u | m in members && u in users ::
      m.groupId == id && m.userId == u.id && row == MemberRow(m.id, u.email)
  {
    if members == [] then []
    else
      var m := members[0];
      var rest := MemberRows(members[1..], users, id);
      assert forall x | x in members[1..] :: x in members;
      if m.groupId != id then rest
      else match FindUser(users, m.userId)
        case Some(i) => [MemberRow(m.id, users[i].email)] + rest
        case None => rest
  }

  /** Every membership of the group whose user exists has its row. */
  lemma {:induction false} MemberRowsComplete(members: seq<GroupMember>, users: seq<ApplicationUser>, roleTable: set<Role>,
                                              id: int, m: GroupMember, k: nat)
    requires UsersOk(users, roleTable)
    requires m in members && m.groupId == id && k < |users| && users[k].id == m.userId
    ensures MemberRow(m.id, users[k].email) in MemberRows(members, users, id)
  {
    FindUserExact(users, roleTable, k);
    if members[0] != m {
      assert m in members[1..];
      MemberRowsComplete(members[1..], users, roleTable, id, m, k);
    }
  }

  /** `Members` (administrators only): the group's members with their e-mails, ordered by e-mail. */
  function Members(p: Principal, members: seq<GroupMember>, groups: seq<Group>, users: seq<ApplicationUser>, id: int)
    : (r: Result<MembersPage, Outcome>)
    ensures r == Failure(Forbid) <==> !IsAdmin(p)
    ensures r == Failure(NotFound) <==> IsAdmin(p) && id !in GroupIds(groups)
    ensures r.Success? ==> SortedBy(r.value.rows, RowEmail)
    ensures r.Success? ==> forall row | row in r.value.rows :: exists m, u | m in members && u in users ::
      m.groupId == id && m.userId == u.id && row == MemberRow(m.id, u.email)
  {
    if !IsAdmin(p) then Failure(Forbid)
    else match FindGroup(groups, id)
      case None => Failure(NotFound)
      case Some(g) =>
        var rows := MemberRows(members, users, id);
        SortByMembers(rows, RowEmail);
        Success(MembersPage(id, g.name, SortBy(rows, RowEmail)))
  }

  /** An administrator's member list names every membership of the group. */
  lemma MembersComplete(s: Store, p: Principal, id: int, m: GroupMember)
    requires s.Valid() && IsAdmin(p)
    requires m in s.groupMembers && m.groupId == id
    ensures var r := Members(p, s.groupMembers, s.groups, s.users, id);
      r.Success? && exists u | u in s.users :: u.id == m.userId && MemberRow(m.id, u.email) in r.value.rows
  {
    var k := FindUser(s.users, m.userId).value;
    MemberRowsComplete(s.groupMembers, s.users, s.roles, id, m, k);
    SortByMembers(MemberRows(s.groupMembers, s.users, id), RowEmail);
  }

  /** One row of the all-groups view. */
  datatype GroupListItem = GroupListItem(groupId: int, name: string)

  function ItemName(i: GroupListItem): string { i.name }

  function GroupItems(groups: seq<Group>): (r: seq<GroupListItem>)
    ensures |r| == |groups|
    ensures forall k | 0 <= k < |r| :: r[k] == GroupListItem(groups[k].id, groups[k].name)
  {
    if groups == [] then [] else [GroupListItem(groups[0].id, groups[0].name)] + GroupItems(groups[1..])
  }

  /** `AllGroups` (administrators only): every group, ordered by name. */
  function AllGroups(p: Principal, groups: seq<Group>): (r: Result<seq<GroupListItem>, Outcome>)
    ensures r.Failure? <==> !IsAdmin(p)
    ensures r.Failure? ==> r.error == Forbid
    ensures r.Success? ==> |r.value| == |groups| && SortedBy(r.value, ItemName)
    ensures r.Success? ==> forall g | g in groups :: GroupListItem(g.id, g.name) in r.value
    ensures r.Success? ==> forall i | i in r.value :: exists g | g in groups :: i == GroupListItem(g.id, g.name)
  {
    if !IsAdmin(p) then Failure(Forbid)
    else
      var items := GroupItems(groups);
      var sorted := SortBy(items, ItemName);
      SortByMembers(items, ItemName);
      forall g | g in groups ensures GroupListItem(g.id, g.name) in sorted {
        var k :| 0 <= k < |groups| && groups[k] == g;
        assert items[k] == GroupListItem(g.id, g.name);
      }
      forall i | i in sorted ensures exists g | g in groups :: i == GroupListItem(g.id, g.name) {
        var k :| 0 <= k < |items| && items[k] == i;
        assert groups[k] in groups;
      }
      Success(sorted)
  }

  // ---------------------------------------------------------------------------
  // Membership batches
  // ---------------------------------------------------------------------------

  function UserIdsOf(batch: seq<GroupMember>): set<UserId> {
    set m | m in batch :: m.userId
  }

  /** The user ids already in the group (the query before the loop of `AddMembers`). */
  function ExistingUserIds(members: seq<GroupMember>, groupId: int): set<UserId> {
    set m | m in members && m.groupId == groupId :: m.userId
  }

  /** The memberships the loop over `ids` adds: one per id not in `existing`, in
      order, numbered from `nextId`. */
  function NewMemberships(groupId: int, ids: seq<UserId>, existing: set<UserId>, nextId: int): seq<GroupMember> {
    if ids == [] then []
    else
      var prev := NewMemberships(groupId, ids[..|ids| - 1], existing, nextId);
      if ids[|ids| - 1] in existing then prev
      else prev + [GroupMember(nextId + |prev|, groupId, ids[|ids| - 1])]
  }

  /** A batch for one group whose ids follow on from the counter. */
  predicate NumberedFrom(batch: seq<GroupMember>, groupId: int, nextId: int) {
    forall k | 0 <= k < |batch| :: batch[k].id == nextId + k && batch[k].groupId == groupId
  }

  /** A batch naming every id of `ids` outside `existing`, and no other. */
  predicate NamesExactly(batch: seq<GroupMember>, ids: seq<UserId>, existing: set<UserId>) {
    && (forall m | m in batch :: m.userId in ids && m.userId !in existing)
    && (forall uid | uid in ids && uid !in existing :: uid in UserIdsOf(batch))
  }

  /** The new memberships carry consecutive ids from the counter and the group's id. */
  lemma {:induction false} NewMembershipsNumbered(groupId: int, ids: seq<UserId>, existing: set<UserId>, nextId: int)
    ensures NumberedFrom(NewMemberships(groupId, ids, existing, nextId), groupId, nextId)
  {
    if ids != [] {
      NewMembershipsNumbered(groupId, ids[..|ids| - 1], existing, nextId);
      var prev := NewMemberships(groupId, ids[..|ids| - 1], existing, nextId);
      var r := NewMemberships(groupId, ids, existing, nextId);
      if ids[|ids| - 1] !in existing {
        assert r == prev + [GroupMember(nextId + |prev|, groupId, ids[|ids| - 1])];
        forall k | 0 <= k < |r| ensures r[k].id == nextId + k && r[k].groupId == groupId {
          if k < |prev| {
            assert r[k] == prev[k];
          }
        }
      }
    }
  }

  /** The new memberships name exactly the requested ids outside `existing`;
      none at all when every requested id is in `existing`. */
  lemma {:induction false} NewMembershipsUsers(groupId: int, ids: seq<UserId>, existing: set<UserId>, nextId: int)
    ensures NamesExactly(NewMemberships(groupId, ids, existing, nextId), ids, existing)
    ensures (forall uid | uid in ids :: uid in existing) ==> NewMemberships(groupId, ids, existing, nextId) == []
  {
    if ids != [] {
      var init := ids[..|ids| - 1];
      var uid := ids[|ids| - 1];
      assert ids == init + [uid];
      NewMembershipsUsers(groupId, init, existing, nextId);
      var prev := NewMemberships(groupId, init, existing, nextId);
      if uid !in existing {
        var r := prev + [GroupMember(nextId + |prev|, groupId, uid)];
        assert UserIdsOf(r) == UserIdsOf(prev) + {uid};
      }
    }
  }

  /** With no repeated id among the requests, the new memberships repeat no
      (group, user) pair. */
  lemma {:induction false} NewMembershipsUnique(groupId: int, ids: seq<UserId>, existing: set<UserId>, nextId: int)
    requires NoDuplicates(ids)
    ensures Pairwise(NewMemberships(groupId, ids, existing, nextId), DistinctPair)
  {
    if ids != [] {
      var init := ids[..|ids| - 1];
      var uid := ids[|ids| - 1];
      assert ids == init + [uid];
      forall i, j | 0 <= i < j < |init| ensures init[i] != init[j] {
        assert ids[i] != ids[j];
      }
      NewMembershipsUnique(groupId, init, existing, nextId);
      NewMembershipsUsers(groupId, init, existing, nextId);
      var prev := NewMemberships(groupId, init, existing, nextId);
      if uid !in existing {
        forall k | 0 <= k < |init| ensures init[k] != uid {
          assert ids[k] != ids[|ids| - 1];
        }
        var r := prev + [GroupMember(nextId + |prev|, groupId, uid)];
        forall i, j | 0 <= i < j < |r| ensures DistinctPair(r[i], r[j]) {
          if j == |prev| {
            assert r[i] in prev;
          }
        }
      }
    }
  }

  /** What `AddMembers` inserts: a membership for every distinct requested id not already a member. */
  function Added(members: seq<GroupMember>, groupId: int, userIds: seq<UserId>, nextId: int): seq<GroupMember> {
    NewMemberships(groupId, Distinct(userIds), ExistingUserIds(members, groupId), nextId)
  }

  /** After `AddMembers`, every requested id is a member of the group. */
  lemma AddedCoversRequest(members: seq<GroupMember>, groupId: int, userIds: seq<UserId>, nextId: int)
    ensures forall uid | uid in userIds :: uid in ExistingUserIds(members + Added(members, groupId, userIds, nextId), groupId)
  {
    var batch := Added(members, groupId, userIds, nextId);
    var after := members + batch;
    NewMembershipsUsers(groupId, Distinct(userIds), ExistingUserIds(members, groupId), nextId);
    NewMembershipsNumbered(groupId, Distinct(userIds), ExistingUserIds(members, groupId), nextId);
    forall uid | uid in userIds ensures uid in ExistingUserIds(after, groupId) {
      assert uid in Distinct(userIds);
      if uid in ExistingUserIds(members, groupId) {
        var m :| m in members && m.groupId == groupId && m.userId == uid;
        assert m in after;
      } else {
        assert uid in UserIdsOf(batch);
        var m :| m in batch && m.userId == uid;
        var k :| 0 <= k < |batch| && batch[k] == m;
        assert m.groupId == groupId;
        assert m in after;
      }
    }
  }

  /** After `AddMembers`, every requested id is a member of the group, exactly once:
      the result keeps the unique index. */
  lemma AddedMakesMembersOnce(members: seq<GroupMember>, groupId: int, userIds: seq<UserId>, nextId: int)
    requires UniqueMemberships(members)
    ensures var after := members + Added(members, groupId, userIds, nextId);
      && UniqueMemberships(after)
      && forall uid | uid in userIds :: IsMember(after, groupId, uid)
  {
    var batch := Added(members, groupId, userIds, nextId);
    var after := members + batch;
    NewMembershipsUsers(groupId, Distinct(userIds), ExistingUserIds(members, groupId), nextId);
    NewMembershipsUnique(groupId, Distinct(userIds), ExistingUserIds(members, groupId), nextId);
    NewMembershipsNumbered(groupId, Distinct(userIds), ExistingUserIds(members, groupId), nextId);
    forall x, y | x in members && y in batch ensures DistinctPair(x, y) {
      var k :| 0 <= k < |batch| && batch[k] == y;
      if x.groupId == groupId {
        assert x.userId in ExistingUserIds(members, groupId);
      }
    }
    PairwiseConcat(members, batch, DistinctPair);
    AddedCoversRequest(members, groupId, userIds, nextId);
    forall uid | uid in userIds ensures IsMember(after, groupId, uid) {
      assert uid in ExistingUserIds(after, groupId);
    }
  }

  /** Repeating `AddMembers` with the same ids adds nothing: it is an idempotent union. */
  lemma AddMembersIdempotent(members: seq<GroupMember>, groupId: int, userIds: seq<UserId>, nextId: int, nextId': int)
    ensures Added(members + Added(members, groupId, userIds, nextId), groupId, userIds, nextId') == []
  {
    var after := members + Added(members, groupId, userIds, nextId);
    AddedCoversRequest(members, groupId, userIds, nextId);
    forall uid | uid in Distinct(userIds) ensures uid in ExistingUserIds(after, groupId) {
    }
    NewMembershipsUsers(groupId, Distinct(userIds), ExistingUserIds(after, groupId), nextId');
  }

  /** The loop shared by `Create` and `AddMembers`: one new membership per id
      of `ids` outside `existing`, numbered on from `nextId`. */
  method BuildBatch(groupId: int, ids: seq<UserId>, existing: set<UserId>, nextId: int) returns (batch: seq<GroupMember>)
    ensures batch == NewMemberships(groupId, ids, existing, nextId)
  {
    batch := [];
    var k := 0;
    while k < |ids|
      invariant 0 <= k <= |ids|
      invariant batch == NewMemberships(groupId, ids[..k], existing, nextId)
    {
      if ids[k] !in existing {
        batch := batch + [GroupMember(nextId + |batch|, groupId, ids[k])];
      }
      assert ids[..k + 1][..k] == ids[..k];
      k := k + 1;
    }
    assert ids[..k] == ids;
  }

  // ---------------------------------------------------------------------------
  // The tables after each change
  // ---------------------------------------------------------------------------

  /** Saving a new group with the next id, the current time and a trimmed name
      keeps every table valid. */
  lemma AddGroupKeepsTables(t: Tables, g: Group)
    requires TablesOk(t)
    requires g.id == t.nextGroupId && g.createdAt == t.clock && IsTrimmedText(g.name)
    ensures GroupIds(t.groups + [g]) == GroupIds(t.groups) + {g.id}
    ensures TablesOk(t.(groups := t.groups + [g], nextGroupId := t.nextGroupId + 1, clock := t.clock + 1))
  {
    AppendIncreasing(t.groups, g, GroupId);
    AppendIncreasing(t.groups, g, GroupTime);
    assert GroupIds(t.groups + [g]) == GroupIds(t.groups) + {g.id};
  }

  /** Saving a batch of memberships whose foreign keys hold, whose ids follow
      the counter, and which repeats no (group, user) pair keeps every table valid. */
  lemma AddBatchKeepsTables(t: Tables, batch: seq<GroupMember>)
    requires TablesOk(t)
    requires forall k | 0 <= k < |batch| :: batch[k].id == t.nextMemberId + k
    requires BatchAccepted(batch, GroupIds(t.groups), UserIds(t.users))
    requires UniqueMemberships(t.groupMembers + batch)
    ensures TablesOk(t.(groupMembers := t.groupMembers + batch, nextMemberId := t.nextMemberId + |batch|))
  {
    AppendMembers(t.groupMembers, batch, GroupIds(t.groups), UserIds(t.users), t.nextMemberId);
  }

  /** Saving a group message with the next id, the current time, an existing
      group, a live sender and trimmed content keeps every table valid. */
  lemma AddGroupMessageKeepsTables(t: Tables, m: GroupMessage)
    requires TablesOk(t)
    requires m.id == t.nextGroupMessageId && m.createdAt == t.clock
    requires m.groupId in GroupIds(t.groups) && m.senderId in UserIds(t.users) && IsTrimmedText(m.content)
    ensures TablesOk(t.(groupMessages := t.groupMessages + [m], nextGroupMessageId := t.nextGroupMessageId + 1,
                        clock := t.clock + 1))
  {
    AppendIncreasing(t.groupMessages, m, GroupMessageId);
    AppendIncreasing(t.groupMessages, m, GroupMessageTime);
  }

  function OtherGroup(id: int): Group -> bool { (g: Group) => g.id != id }
  function MemberOutside(id: int): GroupMember -> bool { (m: GroupMember) => m.groupId != id }
  function MessageOutside(id: int): GroupMessage -> bool { (m: GroupMessage) => m.groupId != id }

  /** The tables after `Delete`: the group, its memberships and its messages gone. */
  function DeleteGroupTables(t: Tables, id: int): Tables {
    t.(groups := Filter(t.groups, OtherGroup(id)),
       groupMembers := Filter(t.groupMembers, MemberOutside(id)),
       groupMessages := Filter(t.groupMessages, MessageOutside(id)))
  }

  /** Deleting a group removes exactly the rows naming it. */
  lemma DeleteGroupRemovesExactly(t: Tables, id: int)
    ensures GroupIds(DeleteGroupTables(t, id).groups) == GroupIds(t.groups) - {id}
    ensures forall g | g in t.groups :: g in DeleteGroupTables(t, id).groups <==> g.id != id
    ensures forall m | m in t.groupMembers :: m in DeleteGroupTables(t, id).groupMembers <==> m.groupId != id
    ensures forall m | m in t.groupMessages :: m in DeleteGroupTables(t, id).groupMessages <==> m.groupId != id
  {
    var groups' := DeleteGroupTables(t, id).groups;
    assert GroupIds(groups') == GroupIds(t.groups) - {id} by {
      forall x | x in GroupIds(t.groups) - {id} ensures x in GroupIds(groups') {
        var g :| g in t.groups && g.id == x;
        assert g in groups';
      }
    }
  }

  /** Deleting a group with its memberships and messages keeps every table valid. */
  lemma DeleteGroupKeepsTables(t: Tables, id: int)
    requires TablesOk(t)
    ensures TablesOk(DeleteGroupTables(t, id))
  {
    var t' := DeleteGroupTables(t, id);
    var live := UserIds(t.users);
    DeleteGroupRemovesExactly(t, id);
    FilterGroupsOk(t.groups, OtherGroup(id), t.nextGroupId, t.clock);
    FilterMembersOk(t.groupMembers, MemberOutside(id), GroupIds(t.groups), GroupIds(t'.groups), live, live, t.nextMemberId);
    FilterGroupMessagesOk(t.groupMessages, MessageOutside(id), GroupIds(t.groups), GroupIds(t'.groups), live, live,
                          t.nextGroupMessageId, t.clock);
    assert UsersOk(t'.users, t'.roles) && MessagesOk(t'.messages, live, t'.nextMessageId, t'.clock);
  }

  predicate HasMembership(members: seq<GroupMember>, membershipId: int, groupId: int) {
    exists m | m in members :: m.id == membershipId && m.groupId == groupId
  }

  function OtherMembership(membershipId: int): GroupMember -> bool { (m: GroupMember) => m.id != membershipId }

  /** With unique ids, removing a present membership id removes exactly one row. */
  lemma {:induction false} RemovesExactlyOne(members: seq<GroupMember>, m: GroupMember)
    requires Increasing(members, MemberId)
    requires m in members
    ensures |Filter(members, OtherMembership(m.id))| == |members| - 1
  {
    if members[0] == m {
      assert forall x | x in members[1..] :: x.id != m.id by {
        forall x | x in members[1..] ensures x.id != m.id {
          var j :| 0 <= j < |members[1..]| && members[1..][j] == x;
          assert MemberId(members[0]) < MemberId(members[j + 1]);
        }
      }
      FilterAll(members[1..], OtherMembership(m.id));
    } else {
      assert m in members[1..];
      var j :| 0 <= j < |members[1..]| && members[1..][j] == m;
      assert MemberId(members[0]) < MemberId(members[j + 1]);
      RemovesExactlyOne(members[1..], m);
    }
  }

  /** Removing one membership keeps every table valid. */
  lemma RemoveMembershipKeepsTables(t: Tables, membershipId: int)
    requires TablesOk(t)
    ensures TablesOk(t.(groupMembers := Filter(t.groupMembers, OtherMembership(membershipId))))
  {
    var live := UserIds(t.users);
    FilterMembersOk(t.groupMembers, OtherMembership(membershipId), GroupIds(t.groups), GroupIds(t.groups), live, live,
                    t.nextMemberId);
  }

  /** `SaveChangesAsync` on a batch of new memberships: committed as a whole when
      every row's group and user exist, refused as a whole otherwise. */
  method SaveMemberships(s: Store, batch: seq<GroupMember>) returns (o: Outcome)
    requires s.Valid() && s.Seeded()
    requires forall k | 0 <= k < |batch| :: batch[k].id == s.nextMemberId + k
    requires UniqueMemberships(s.groupMembers + batch)
    modifies s
    ensures s.Valid() && s.Seeded()
    ensures BatchAccepted(batch, GroupIds(s.groups), UserIds(s.users)) ==>
      o == Ok && s.Content() == old(s.Content()).(groupMembers := old(s.groupMembers) + batch,
                                                  nextMemberId := old(s.nextMemberId) + |batch|)
    ensures !BatchAccepted(batch, GroupIds(s.groups), UserIds(s.users)) ==>
      o == Rejected(ForeignKeyViolation) && s.Content() == old(s.Content())
  {
    if !BatchAccepted(batch, GroupIds(s.groups), UserIds(s.users)) {
      return Rejected(ForeignKeyViolation);
    }
    AddBatchKeepsTables(s.Content(), batch);
    s.groupMembers := s.groupMembers + batch;
    s.nextMemberId := s.nextMemberId + |batch|;
    assert s.Content() == old(s.Content()).(groupMembers := old(s.groupMembers) + batch,
                                            nextMemberId := old(s.nextMemberId) + |batch|);
    o := Ok;
  }

  // ---------------------------------------------------------------------------
  // Actions that change the store
  // ---------------------------------------------------------------------------

  /** The first `SaveChangesAsync` of `Create`: the group row, with the next
      id and the current time. */
  method SaveGroup(s: Store, name: string) returns (g: Group)
    requires s.Valid() && s.Seeded()
    requires IsTrimmedText(name)
    modifies s
    ensures s.Valid() && s.Seeded()
    ensures g == Group(old(s.nextGroupId), name, old(s.clock))
    ensures g.id !in GroupIds(old(s.groups))
    ensures s.Content() == old(s.Content()).(groups := old(s.groups) + [g], nextGroupId := old(s.nextGroupId) + 1,
                                              clock := old(s.clock) + 1)
  {
    g := Group(s.nextGroupId, name, s.clock);
    AddGroupKeepsTables(s.Content(), g);
    s.groups := s.groups + [g];
    s.nextGroupId := s.nextGroupId + 1;
    s.clock := s.clock + 1;
    assert s.Content() == old(s.Content()).(groups := old(s.groups) + [g], nextGroupId := old(s.nextGroupId) + 1,
                                            clock := old(s.clock) + 1);
  }

  /** `Create` (POST, administrators only): a blank name creates nothing;
      otherwise the group is saved with the trimmed name, then one membership per
      distinct requested id is saved in a second batch, which the foreign key to
      the user table refuses as a whole when an id names no user; the group
      stays either way. */
  method Create(s: Store, p: Principal, name: Option<string>, userIds: seq<UserId>) returns (o: Outcome)
    requires s.Valid() && s.Seeded()
    modifies s
    ensures s.Valid() && s.Seeded()
    ensures !IsAdmin(p) ==> o == Forbid && s.Content() == old(s.Content())
    ensures IsAdmin(p) && IsNullOrWhiteSpace(name) ==> o == Rejected(BlankName) && s.Content() == old(s.Content())
    ensures IsAdmin(p) && !IsNullOrWhiteSpace(name) ==>
      var g := Group(old(s.nextGroupId), Trim(name.value), old(s.clock));
      var batch := NewMemberships(g.id, Distinct(userIds), {}, old(s.nextMemberId));
      var saved := old(s.Content()).(groups := old(s.groups) + [g], nextGroupId := old(s.nextGroupId) + 1,
                                     clock := old(s.clock) + 1);
      && IsTrimmedText(g.name)
      && (BatchAccepted(batch, GroupIds(saved.groups), UserIds(s.users)) ==>
            o == Ok && s.Content() == saved.(groupMembers := old(s.groupMembers) + batch,
                                             nextMemberId := old(s.nextMemberId) + |batch|))
      && (!BatchAccepted(batch, GroupIds(saved.groups), UserIds(s.users)) ==>
            o == Rejected(ForeignKeyViolation) && s.Content() == saved)
  {
    if !IsAdmin(p) {
      return Forbid;
    }
    if IsNullOrWhiteSpace(name) {
      return Rejected(BlankName);
    }
    var g := SaveGroup(s, Trim(name.value));
    var batch := BuildBatch(g.id, Distinct(userIds), {}, s.nextMemberId);
    NewMembershipsNumbered(g.id, Distinct(userIds), {}, s.nextMemberId);
    NewMembershipsUnique(g.id, Distinct(userIds), {}, s.nextMemberId);
    forall a, b | a in s.groupMembers && b in batch ensures DistinctPair(a, b) {
      var k :| 0 <= k < |batch| && batch[k] == b;
    }
    PairwiseConcat(s.groupMembers, batch, DistinctPair);
    o := SaveMemberships(s, batch);
  }

  /** `Send`: a non-member is refused; blank content changes nothing; otherwise
      exactly one group message from the caller, with the trimmed content, is appended. */
  method Send(s: Store, p: Principal, groupId: int, content: Option<string>) returns (o: Outcome)
    requires s.Valid() && s.Seeded()
    modifies s
    ensures s.Valid() && s.Seeded()
    ensures !IsMember(old(s.groupMembers), groupId, p.id) ==> o == Forbid && s.Content() == old(s.Content())
    ensures IsMember(old(s.groupMembers), groupId, p.id) && IsNullOrWhiteSpace(content) ==>
      o == NoOp && s.Content() == old(s.Content())
    ensures IsMember(old(s.groupMembers), groupId, p.id) && !IsNullOrWhiteSpace(content) ==>
      var m := GroupMessage(old(s.nextGroupMessageId), groupId, p.id, Trim(content.value), old(s.clock));
      && o == Ok
      && IsTrimmedText(m.content)
      && s.Content() == old(s.Content()).(groupMessages := old(s.groupMessages) + [m],
                                          nextGroupMessageId := old(s.nextGroupMessageId) + 1,
                                          clock := old(s.clock) + 1)
  {
    if !IsMember(s.groupMembers, groupId, p.id) {
      return Forbid;
    }
    if IsNullOrWhiteSpace(content) {
      return NoOp;
    }
    var x :| x in s.groupMembers && x.groupId == groupId && x.userId == p.id;
    var m := GroupMessage(s.nextGroupMessageId, groupId, p.id, Trim(content.value), s.clock);
    AddGroupMessageKeepsTables(s.Content(), m);
    s.groupMessages := s.groupMessages + [m];
    s.nextGroupMessageId := s.nextGroupMessageId + 1;
    s.clock := s.clock + 1;
    assert s.Content() == old(s.Content()).(groupMessages := old(s.groupMessages) + [m],
                                            nextGroupMessageId := old(s.nextGroupMessageId) + 1,
                                            clock := old(s.clock) + 1);
    o := Ok;
  }

  /** `Delete` (administrators only): a missing group changes nothing; otherwise
      the group, its memberships and its messages are removed and every other row stays. */
  method Delete(s: Store, p: Principal, id: int) returns (o: Outcome)
    requires s.Valid() && s.Seeded()
    modifies s
    ensures s.Valid() && s.Seeded()
    ensures !IsAdmin(p) ==> o == Forbid && s.Content() == old(s.Content())
    ensures IsAdmin(p) && id !in GroupIds(old(s.groups)) ==> o == NoOp && s.Content() == old(s.Content())
    ensures IsAdmin(p) && id in GroupIds(old(s.groups)) ==>
      && o == Ok
      && s.Content() == DeleteGroupTables(old(s.Content()), id)
      && GroupIds(s.groups) == GroupIds(old(s.groups)) - {id}
      && (forall m | m in old(s.groupMembers) :: m in s.groupMembers <==> m.groupId != id)
      && (forall m | m in old(s.groupMessages) :: m in s.groupMessages <==> m.groupId != id)
      && (forall g | g in old(s.groups) :: g in s.groups <==> g.id != id)
  {
    if !IsAdmin(p) {
      return Forbid;
    }
    var found := FindGroup(s.groups, id);
    if found.None? {
      return NoOp;
    }
    DeleteGroupKeepsTables(s.Content(), id);
    DeleteGroupRemovesExactly(s.Content(), id);
    ghost var t' := DeleteGroupTables(s.Content(), id);
    s.groupMembers := Filter(s.groupMembers, MemberOutside(id));
    s.groupMessages := Filter(s.groupMessages, MessageOutside(id));
    s.groups := Filter(s.groups, OtherGroup(id));
    assert s.Content() == t';
    o := Ok;
  }

  /** `RemoveMember` (administrators only): removes the membership only when both
      its id and its group match; otherwise nothing changes. */
  method RemoveMember(s: Store, p: Principal, membershipId: int, groupId: int) returns (o: Outcome)
    requires s.Valid() && s.Seeded()
    modifies s
    ensures s.Valid() && s.Seeded()
    ensures !IsAdmin(p) ==> o == Forbid && s.Content() == old(s.Content())
    ensures IsAdmin(p) && !HasMembership(old(s.groupMembers), membershipId, groupId) ==>
      o == NoOp && s.Content() == old(s.Content())
    ensures IsAdmin(p) && HasMembership(old(s.groupMembers), membershipId, groupId) ==>
      && o == Ok
      && s.Content() == old(s.Content()).(groupMembers := Filter(old(s.groupMembers), OtherMembership(membershipId)))
      && |s.groupMembers| == |old(s.groupMembers)| - 1
      && (forall m | m in old(s.groupMembers) :: m in s.groupMembers <==> m.id != membershipId)
  {
    if !IsAdmin(p) {
      return Forbid;
    }
    if !HasMembership(s.groupMembers, membershipId, groupId) {
      return NoOp;
    }
    var m :| m in s.groupMembers && m.id == membershipId && m.groupId == groupId;
    RemovesExactlyOne(s.groupMembers, m);
    RemoveMembershipKeepsTables(s.Content(), membershipId);
    s.groupMembers := Filter(s.groupMembers, OtherMembership(membershipId));
    assert s.Content() == old(s.Content()).(groupMembers := Filter(old(s.groupMembers), OtherMembership(membershipId)));
    o := Ok;
  }

  /** `AddMembers` (POST, administrators only): one membership per distinct
      requested id that is not yet a member, saved as one batch; the batch is
      refused as a whole when the group or a requested user does not exist. */
  method AddMembers(s: Store, p: Principal, groupId: int, userIds: seq<UserId>) returns (o: Outcome)
    requires s.Valid() && s.Seeded()
    modifies s
    ensures s.Valid() && s.Seeded()
    ensures !IsAdmin(p) ==> o == Forbid && s.Content() == old(s.Content())
    ensures IsAdmin(p) ==>
      var added := Added(old(s.groupMembers), groupId, userIds, old(s.nextMemberId));
      && (BatchAccepted(added, GroupIds(s.groups), UserIds(s.users)) ==>
            o == Ok && s.Content() == old(s.Content()).(groupMembers := old(s.groupMembers) + added,
                                                        nextMemberId := old(s.nextMemberId) + |added|))
      && (!BatchAccepted(added, GroupIds(s.groups), UserIds(s.users)) ==>
            o == Rejected(ForeignKeyViolation) && s.Content() == old(s.Content()))
  {
    if !IsAdmin(p) {
      return Forbid;
    }
    var existing := ExistingUserIds(s.groupMembers, groupId);
    var batch := BuildBatch(groupId, Distinct(userIds), existing, s.nextMemberId);
    NewMembershipsNumbered(groupId, Distinct(userIds), existing, s.nextMemberId);
    AddedMakesMembersOnce(s.groupMembers, groupId, userIds, s.nextMemberId);
    o := SaveMemberships(s, batch);
  }
}
