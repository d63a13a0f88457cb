/**
 * Direct conversations: the list of people to talk to, the thread between the
 * caller and one other user (the messages exchanged either way, in the order
 * they were sent), and sending a trimmed, non-blank message.
 */
module ChatController {
  import opened Wrappers
  import opened Text
  import opened Collections
  import opened Entities
  import opened Schema

  // ---------------------------------------------------------------------------
  // Index
  // ---------------------------------------------------------------------------

  /** One entry of the people list. */
  datatype UserListItem = UserListItem(id: UserId, userName: string)

  function NotMe(me: UserId): ApplicationUser -> bool { (u: ApplicationUser) => u.id != me }
  function UserName(u: ApplicationUser): string { u.userName }
  function ItemName(i: UserListItem): string { i.userName }
  function ItemOf(u: ApplicationUser): UserListItem { UserListItem(u.id, u.userName) }

  function Items(users: seq<ApplicationUser>): (r: seq<UserListItem>)
    ensures |r| == |users|
    ensures forall k | 0 <= k < |r| :: r[k] == ItemOf(users[k])
  {
    if users == [] then [] else [ItemOf(users[0])] + Items(users[1..])
  }

  /** `Index`: every user except the caller, ordered by user name. */
  function Index(users: seq<ApplicationUser>, me: UserId): (r: seq<UserListItem>)
    ensures |r| <= |users|
    ensures forall i | i in r :: i.id != me
  {
    var sorted := SortBy(Filter(users, NotMe(me)), UserName);
    SortByMembers(Filter(users, NotMe(me)), UserName);
    assert forall k | 0 <= k < |sorted| :: ItemOf(sorted[k]).id != me by {
      forall k | 0 <= k < |sorted| ensures ItemOf(sorted[k]).id != me {
        assert sorted[k] in sorted;
      }
    }
    Items(sorted)
  }

  /** The list names every other user, never the caller, and ascends by user name. */
  lemma IndexListsOthers(users: seq<ApplicationUser>, me: UserId)
    ensures forall u | u in users && u.id != me :: ItemOf(u) in Index(users, me)
    ensures forall i | i in Index(users, me) :: i.id != me && exists u | u in users :: i == ItemOf(u)
    ensures SortedBy(Index(users, me), ItemName)
  {
    var others := Filter(users, NotMe(me));
    var sorted := SortBy(others, UserName);
    var r := Index(users, me);
    SortByMembers(others, UserName);
    forall u | u in users && u.id != me ensures ItemOf(u) in r {
      assert u in others;
      var k :| 0 <= k < |sorted| && sorted[k] == u;
      assert r[k] == ItemOf(u);
    }
    forall i | i in r ensures i.id != me && exists u | u in users :: i == ItemOf(u) {
      var k :| 0 <= k < |r| && r[k] == i;
      assert sorted[k] in others;
    }
    forall a, b | 0 <= a < b < |r| ensures StrLe(ItemName(r[a]), ItemName(r[b])) {
      assert ItemName(r[a]) == UserName(sorted[a]) && ItemName(r[b]) == UserName(sorted[b]);
    }
  }

  // ---------------------------------------------------------------------------
  // With
  // ---------------------------------------------------------------------------

  /** One line of the conversation view. */
  datatype ChatMessageVm = ChatMessageVm(senderId: UserId, content: string, createdAt: nat)

  datatype Conversation = Conversation(otherId: UserId, otherName: string, lines: seq<ChatMessageVm>)

  /** A message exchanged between `a` and `b`, in either direction. */
  predicate IsBetween(m: Message, a: UserId, b: UserId) {
    (m.senderId == a && m.recipientId == b) || (m.senderId == b && m.recipientId == a)
  }

  function Between(a: UserId, b: UserId): Message -> bool { (m: Message) => IsBetween(m, a, b) }

  /** The messages between two users, in the order they were stored. */
  function Thread(messages: seq<Message>, a: UserId, b: UserId): (r: seq<Message>)
    ensures forall m :: m in r <==> m in messages && IsBetween(m, a, b)
    ensures |r| <= |messages|
  {
    Filter(messages, Between(a, b))
  }

  function Lines(thread: seq<Message>): (r: seq<ChatMessageVm>)
    ensures |r| == |thread|
    ensures forall k | 0 <= k < |r| ::
      r[k] == ChatMessageVm(thread[k].senderId, thread[k].content, thread[k].createdAt)
  {
    if thread == [] then [] else [ChatMessageVm(thread[0].senderId, thread[0].content, thread[0].createdAt)] + Lines(thread[1..])
  }

  /** `With(id)`: an id that names no user is not found; otherwise the
      conversation with that user. */
  function With(users: seq<ApplicationUser>, messages: seq<Message>, me: UserId, id: UserId): (r: Result<Conversation, Outcome>)
    ensures r.Failure? <==> id !in UserIds(users)
    ensures r.Failure? ==> r.error == NotFound
    ensures r.Success? ==> r.value.otherId == id && exists u | u in users :: u.id == id && u.userName == r.value.otherName
  {
    match FindUser(users, id)
    case None => Failure(NotFound)
    case Some(i) => Success(Conversation(id, users[i].userName, Lines(Thread(messages, me, id))))
  }

  /** The conversation holds exactly the messages between the two users, each
      shown with its sender, content and time, in ascending `CreatedAt`. */
  lemma WithShowsThread(users: seq<ApplicationUser>, messages: seq<Message>, me: UserId, id: UserId)
    requires Increasing(messages, MessageTime)
    requires id in UserIds(users)
    ensures var thread := Thread(messages, me, id);
      var lines := With(users, messages, me, id).value.lines;
      && (forall m | m in messages :: m in thread <==> IsBetween(m, me, id))
      && (forall m | m in thread :: m in messages)
      && |lines| == |thread|
      && (forall k | 0 <= k < |thread| :: lines[k].senderId == thread[k].senderId && lines[k].content == thread[k].content)
      && (forall i, j | 0 <= i < j < |lines| :: lines[i].createdAt < lines[j].createdAt)
  {
    var thread := Thread(messages, me, id);
    FilterKeepsIncreasing(messages, Between(me, id), MessageTime);
    var lines := Lines(thread);
    forall i, j | 0 <= i < j < |lines| ensures lines[i].createdAt < lines[j].createdAt {
      assert MessageTime(thread[i]) < MessageTime(thread[j]);
    }
  }

  /** Both participants see the same messages in the same order. */
  lemma ThreadSymmetric(messages: seq<Message>, a: UserId, b: UserId)
    ensures Thread(messages, a, b) == Thread(messages, b, a)
  {
    FilterSame(messages, Between(a, b), Between(b, a));
  }

  // ---------------------------------------------------------------------------
  // Send
  // ---------------------------------------------------------------------------

  /** Saving a direct message with the next id, the current time, live sender
      and recipient and trimmed content keeps every table valid. */
  lemma AddMessageKeepsTables(t: Tables, m: Message)
    requires TablesOk(t)
    requires m.id == t.nextMessageId && m.createdAt == t.clock
    requires m.senderId in UserIds(t.users) && m.recipientId in UserIds(t.users) && IsTrimmedText(m.content)
    ensures TablesOk(t.(messages := t.messages + [m], nextMessageId := t.nextMessageId + 1, clock := t.clock + 1))
  {
    AppendIncreasing(t.messages, m, MessageId);
    AppendIncreasing(t.messages, m, MessageTime);
  }

  /** A sent message lands at the end of the thread between its two users and
      leaves every other thread as it was. */
  lemma SendExtendsThread(messages: seq<Message>, m: Message, a: UserId, b: UserId)
    ensures IsBetween(m, a, b) ==> Thread(messages + [m], a, b) == Thread(messages, a, b) + [m]
    ensures !IsBetween(m, a, b) ==> Thread(messages + [m], a, b) == Thread(messages, a, b)
  {
    FilterAppend(messages, [m], Between(a, b));
    assert Filter([m], Between(a, b)) == (if IsBetween(m, a, b) then [m] else []) by {
      assert [m][1..] == [];
    }
  }

  /** `Send`: null or white-space content adds nothing; otherwise one message
      from the caller to the recipient with the trimmed content is saved, which
      the foreign keys refuse when either user does not exist. */
  method Send(s: Store, p: Principal, recipientId: UserId, content: Option<string>) returns (o: Outcome)
    requires s.Valid() && s.Seeded()
    modifies s
    ensures s.Valid() && s.Seeded()
    ensures IsNullOrWhiteSpace(content) ==> o == NoOp && s.Content() == old(s.Content())
    ensures !IsNullOrWhiteSpace(content) && !(p.id in UserIds(s.users) && recipientId in UserIds(s.users)) ==>
      o == Rejected(ForeignKeyViolation) && s.Content() == old(s.Content())
    ensures !IsNullOrWhiteSpace(content) && p.id in UserIds(s.users) && recipientId in UserIds(s.users) ==>
      var m := Message(old(s.nextMessageId), p.id, recipientId, Trim(content.value), old(s.clock));
      && o == Ok
      && IsTrimmedText(m.content)
      && s.Content() == old(s.Content()).(messages := old(s.messages) + [m],
                                          nextMessageId := old(s.nextMessageId) + 1,
                                          clock := old(s.clock) + 1)
  {
    if IsNullOrWhiteSpace(content) {
      return NoOp;
    }
    var m := Message(s.nextMessageId, p.id, recipientId, Trim(content.value), s.clock);
    if !(m.senderId in UserIds(s.users) && m.recipientId in UserIds(s.users)) {
      return Rejected(ForeignKeyViolation);
    }
    AddMessageKeepsTables(s.Content(), m);
    s.messages := s.messages + [m];
    s.nextMessageId := s.nextMessageId + 1;
    s.clock := s.clock + 1;
    assert s.Content() == old(s.Content()).(messages := old(s.messages) + [m],
                                            nextMessageId := old(s.nextMessageId) + 1,
                                            clock := old(s.clock) + 1);
    o := Ok;
  }
}
