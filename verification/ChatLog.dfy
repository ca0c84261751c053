/**
 The shared message log of a contact and what each of its two users sees of it: a window cut
 by the user's last "delete chat" and by the user's own block of the other party.
 */
module ChatLog {
  import opened Wrappers

  type UserId = nat
  type ContactId = nat
  type BroadcastId = nat
  type Time = int

  datatype Kind = TEXT | IMAGE | VIDEO | FILE | MEDIA

  datatype Message = Message(
    contactId: ContactId,
    senderId: UserId,
    kind: Kind,
    content: Option<string>,
    mediaKey: Option<nat>,
    broadcastId: Option<BroadcastId>,
    createdAt: Time,
    read: bool,
    deleted: bool)

  datatype Deletion = Deletion(contactId: ContactId, userId: UserId, createdAt: Time)

  datatype Contact = Contact(id: ContactId, sellerId: UserId, invitedUserId: Option<UserId>)

  /** The tables the chat reads; `blocks` is keyed by (blocker, blocked) and `recipients` holds
      (broadcast, customer) pairs, as their unique indexes demand. */
  datatype Chat = Chat(
    users: set<UserId>,
    liveUsers: set<UserId>,
    contacts: seq<Contact>,
    messages: seq<Message>,
    deletions: seq<Deletion>,
    blocks: map<(UserId, UserId), Time>,
    broadcasts: map<BroadcastId, UserId>,
    recipients: set<(BroadcastId, UserId)>,
    nextBroadcast: BroadcastId)

  // ---------------------------------------------------------------------------------------
  // The window of one user
  // ---------------------------------------------------------------------------------------

  /** `getCreatedAtCondition`: MoreThan and LessThan are strict, Between is not. */
  datatype Condition = Always | MoreThan(since: Time) | LessThan(until: Time) | Between(since: Time, until: Time)

  function CreatedAtCondition(lastDelete: Option<Time>, blockSince: Option<Time>): Condition {
    if blockSince.Some? && lastDelete.Some? then Between(lastDelete.value, blockSince.value)
    else if lastDelete.Some? then MoreThan(lastDelete.value)
    else if blockSince.Some? then LessThan(blockSince.value)
    else Always
  }

  predicate Meets(condition: Condition, t: Time) {
    match condition
    case Always => true
    case MoreThan(since) => since < t
    case LessThan(until) => t < until
    case Between(since, until) => since <= t <= until
  }

  /** The newest deletion of the user for the contact. */
  function LastDelete(deletions: seq<Deletion>, k: ContactId, user: UserId): (r: Option<Time>)
    ensures r.None? <==> forall n | 0 <= n < |deletions| :: !(deletions[n].contactId == k && deletions[n].userId == user)
    ensures r.Some? ==>
              && (exists n | 0 <= n < |deletions| :: deletions[n] == Deletion(k, user, r.value))
              && forall n | 0 <= n < |deletions| && deletions[n].contactId == k && deletions[n].userId == user ::
                   deletions[n].createdAt <= r.value
  {
    if deletions == [] then None
    else
      var last := deletions[|deletions| - 1];
      var before := LastDelete(deletions[..|deletions| - 1], k, user);
      if last.contactId == k && last.userId == user && (before.None? || before.value < last.createdAt)
      then Some(last.createdAt) else before
  }

  function Lookup<T>(m: map<(UserId, UserId), T>, a: UserId, b: Option<UserId>): Option<T> {
    if b.Some? && (a, b.value) in m then Some(m[(a, b.value)]) else None
  }

  /** The user at the other end of the contact. */
  function Other(contact: Contact, user: UserId): Option<UserId> {
    if contact.sellerId == user then contact.invitedUserId else Some(contact.sellerId)
  }

  function ConditionFor(chat: Chat, contact: Contact, user: UserId): Condition {
    CreatedAtCondition(LastDelete(chat.deletions, contact.id, user), Lookup(chat.blocks, user, Other(contact, user)))
  }

  // ---------------------------------------------------------------------------------------
  // Queries over the log
  // ---------------------------------------------------------------------------------------

  predicate Matches(m: Message, k: ContactId, condition: Condition) {
    m.contactId == k && !m.deleted && Meets(condition, m.createdAt)
  }

  function Select(log: seq<Message>, k: ContactId, condition: Condition): seq<Message> {
    if log == [] then []
    else
      var rest := Select(log[..|log| - 1], k, condition);
      var last := log[|log| - 1];
      if Matches(last, k, condition) then rest + [last] else rest
  }

  lemma {:induction false} SelectsMatching(log: seq<Message>, k: ContactId, condition: Condition, m: Message)
    ensures m in Select(log, k, condition) <==> m in log && Matches(m, k, condition)
  {
    if log != [] {
      SelectsMatching(log[..|log| - 1], k, condition, m);
      assert log == log[..|log| - 1] + [log[|log| - 1]];
    }
  }

  function InsertByTime(sorted: seq<Message>, m: Message): seq<Message> {
    if sorted == [] || sorted[|sorted| - 1].createdAt <= m.createdAt then sorted + [m]
    else InsertByTime(sorted[..|sorted| - 1], m) + [sorted[|sorted| - 1]]
  }

  function OrderByTime(msgs: seq<Message>): seq<Message> {
    if msgs == [] then [] else InsertByTime(OrderByTime(msgs[..|msgs| - 1]), msgs[|msgs| - 1])
  }

  ghost predicate Ascending(msgs: seq<Message>) {
    forall i, j | 0 <= i < j < |msgs| :: msgs[i].createdAt <= msgs[j].createdAt
  }

  lemma {:induction false} InsertIsPermutation(sorted: seq<Message>, m: Message)
    ensures multiset(InsertByTime(sorted, m)) == multiset(sorted + [m])
  {
    if !(sorted == [] || sorted[|sorted| - 1].createdAt <= m.createdAt) {
      InsertIsPermutation(sorted[..|sorted| - 1], m);
      assert sorted == sorted[..|sorted| - 1] + [sorted[|sorted| - 1]];
    }
  }

  lemma SameMembers(a: seq<Message>, b: seq<Message>)
    requires multiset(a) == multiset(b)
    ensures forall m :: m in a <==> m in b
  {
    forall m: Message ensures m in a <==> m in b {
      assert m in a <==> m in multiset(a);
      assert m in b <==> m in multiset(b);
    }
  }

  lemma {:induction false} InsertKeepsOrder(sorted: seq<Message>, m: Message)
    requires Ascending(sorted)
    ensures Ascending(InsertByTime(sorted, m))
  {
    if !(sorted == [] || sorted[|sorted| - 1].createdAt <= m.createdAt) {
      var front, last := sorted[..|sorted| - 1], sorted[|sorted| - 1];
      InsertKeepsOrder(front, m);
      var inserted := InsertByTime(front, m);
      InsertIsPermutation(front, m);
      SameMembers(inserted, front + [m]);
      forall i | 0 <= i < |inserted| ensures inserted[i].createdAt <= last.createdAt {
        assert inserted[i] in front + [m];
      }
    }
  }

  /** ORDER BY created_at: the same messages, oldest first. */
  lemma {:induction false} OrderedByTime(msgs: seq<Message>)
    ensures Ascending(OrderByTime(msgs))
    ensures multiset(OrderByTime(msgs)) == multiset(msgs)
  {
    if msgs != [] {
      var front, last := msgs[..|msgs| - 1], msgs[|msgs| - 1];
      OrderedByTime(front);
      InsertKeepsOrder(OrderByTime(front), last);
      InsertIsPermutation(OrderByTime(front), last);
      assert msgs == front + [last];
    }
  }

  predicate UnreadFrom(m: Message, sender: UserId) {
    !m.read && m.senderId == sender
  }

  /** How many of the messages are unread and from the sender. */
  function CountUnread(msgs: seq<Message>, sender: UserId): nat {
    if msgs == [] then 0
    else CountUnread(msgs[..|msgs| - 1], sender) + if UnreadFrom(msgs[|msgs| - 1], sender) then 1 else 0
  }

  /** COUNT over the log: the unread messages of the contact from one sender under the condition. */
  function CountUnreadWhere(log: seq<Message>, k: ContactId, condition: Condition, sender: UserId): nat {
    if log == [] then 0
    else
      var last := log[|log| - 1];
      CountUnreadWhere(log[..|log| - 1], k, condition, sender)
      + if Matches(last, k, condition) && UnreadFrom(last, sender) then 1 else 0
  }

  /** The two queries agree: counting in the log is counting among the selected messages. */
  lemma {:induction false} CountWhereIsCountOfSelection(log: seq<Message>, k: ContactId, condition: Condition, sender: UserId)
    ensures CountUnreadWhere(log, k, condition, sender) == CountUnread(Select(log, k, condition), sender)
  {
    if log != [] {
      var front, last := log[..|log| - 1], log[|log| - 1];
      CountWhereIsCountOfSelection(front, k, condition, sender);
      if Matches(last, k, condition) {
        assert (Select(front, k, condition) + [last])[..|Select(front, k, condition)|] == Select(front, k, condition);
      }
    }
  }

  /** ORDER BY created_at DESC LIMIT 1. */
  ghost predicate IsNewest(msgs: seq<Message>, m: Message) {
    m in msgs && forall n | 0 <= n < |msgs| :: msgs[n].createdAt <= m.createdAt
  }

  // ---------------------------------------------------------------------------------------
  // Conversation and summaries
  // ---------------------------------------------------------------------------------------

  /** `getConversation` for a contact that exists: what the user sees, oldest first. */
  function Conversation(chat: Chat, contact: Contact, user: UserId): seq<Message> {
    OrderByTime(Select(chat.messages, contact.id, ConditionFor(chat, contact, user)))
  }

  /** One row of the chat lists. */
  datatype Row = Row(contactId: ContactId, unread: nat, last: Message, isBlocked: bool)

  /** Both ends of the contact are live users and one of them is asking. */
  predicate Eligible(chat: Chat, contact: Contact, user: UserId) {
    && (contact.sellerId == user || contact.invitedUserId == Some(user))
    && contact.sellerId in chat.liveUsers
    && contact.invitedUserId.Some? && contact.invitedUserId.value in chat.liveUsers
  }

  /** What the list query says about one contact: its three counts and lookups are separate queries. */
  ghost predicate RowFor(chat: Chat, contact: Contact, user: UserId, row: Row) {
    var visible := Select(chat.messages, contact.id, ConditionFor(chat, contact, user));
    && Other(contact, user).Some?
    && row.contactId == contact.id
    && row.unread == CountUnreadWhere(chat.messages, contact.id, ConditionFor(chat, contact, user), Other(contact, user).value)
    && IsNewest(visible, row.last)
    && row.isBlocked == ((user, Other(contact, user).value) in chat.blocks)
  }

  predicate Listed(chat: Chat, contact: Contact, user: UserId) {
    Eligible(chat, contact, user) && |Select(chat.messages, contact.id, ConditionFor(chat, contact, user))| > 0
  }

  /** `reciverMessage`: the unread count pushed along with a message, which looks at deletions only. */
  function PushedUnread(chat: Chat, k: ContactId, receiver: UserId, sender: UserId): nat {
    var lastDelete := LastDelete(chat.deletions, k, receiver);
    CountUnreadWhere(chat.messages, k, if lastDelete.Some? then MoreThan(lastDelete.value) else Always, sender)
  }

  // ---------------------------------------------------------------------------------------
  // The summaries agree with the conversation
  // ---------------------------------------------------------------------------------------

  /** Messages of one contact have different timestamps. */
  ghost predicate DistinctTimes(log: seq<Message>, k: ContactId) {
    forall i, j | 0 <= i < j < |log| && log[i].contactId == k && log[j].contactId == k :: log[i].createdAt != log[j].createdAt
  }

  lemma CountUnreadLast(msgs: seq<Message>, m: Message, sender: UserId)
    ensures CountUnread(msgs + [m], sender) == CountUnread(msgs, sender) + if UnreadFrom(m, sender) then 1 else 0
  {
    assert (msgs + [m])[..|msgs + [m]| - 1] == msgs;
  }

  lemma {:induction false} InsertKeepsCount(sorted: seq<Message>, m: Message, sender: UserId)
    ensures CountUnread(InsertByTime(sorted, m), sender) == CountUnread(sorted + [m], sender)
  {
    CountUnreadLast(sorted, m, sender);
    if !(sorted == [] || sorted[|sorted| - 1].createdAt <= m.createdAt) {
      var front, last := sorted[..|sorted| - 1], sorted[|sorted| - 1];
      InsertKeepsCount(front, m, sender);
      CountUnreadLast(front, m, sender);
      CountUnreadLast(InsertByTime(front, m), last, sender);
    }
  }

  lemma {:induction false} OrderKeepsCount(msgs: seq<Message>, sender: UserId)
    ensures CountUnread(OrderByTime(msgs), sender) == CountUnread(msgs, sender)
  {
    if msgs != [] {
      OrderKeepsCount(msgs[..|msgs| - 1], sender);
      InsertKeepsCount(OrderByTime(msgs[..|msgs| - 1]), msgs[|msgs| - 1], sender);
      CountUnreadLast(OrderByTime(msgs[..|msgs| - 1]), msgs[|msgs| - 1], sender);
    }
  }

  lemma NewestIsLast(msgs: seq<Message>, m: Message)
    requires IsNewest(msgs, m)
    ensures OrderByTime(msgs) != [] && m in OrderByTime(msgs)
    ensures OrderByTime(msgs)[|OrderByTime(msgs)| - 1].createdAt == m.createdAt
  {
    OrderedByTime(msgs);
    var sorted := OrderByTime(msgs);
    SameMembers(msgs, sorted);
    var n :| 0 <= n < |sorted| && sorted[n] == m;
    var last := sorted[|sorted| - 1];
    assert last in msgs;
    assert n < |sorted| - 1 ==> m.createdAt <= last.createdAt;
  }

  lemma SameTimeSameMessage(log: seq<Message>, k: ContactId, condition: Condition)
    requires DistinctTimes(log, k)
    ensures forall a, b | a in Select(log, k, condition) && b in Select(log, k, condition) && a.createdAt == b.createdAt :: a == b
  {
    forall a, b | a in Select(log, k, condition) && b in Select(log, k, condition) && a.createdAt == b.createdAt
      ensures a == b
    {
      SelectsMatching(log, k, condition, a);
      SelectsMatching(log, k, condition, b);
      var i :| 0 <= i < |log| && log[i] == a;
      var j :| 0 <= j < |log| && log[j] == b;
      assert !(i < j) && !(j < i);
    }
  }

  /** A list row tells the truth about the conversation: it exists exactly when there is something to
      see, counts its unread messages, and shows a message of the latest time in it, which is its last
      message unless messages of the contact share a timestamp. */
  lemma RowAgreesWithConversation(chat: Chat, contact: Contact, user: UserId, row: Row)
    requires Eligible(chat, contact, user)
    ensures Listed(chat, contact, user) <==> Conversation(chat, contact, user) != []
    ensures RowFor(chat, contact, user, row) ==>
              var seen := Conversation(chat, contact, user);
              && seen != []
              && row.unread == CountUnread(seen, Other(contact, user).value)
              && row.last in seen && row.last.createdAt == seen[|seen| - 1].createdAt
              && (DistinctTimes(chat.messages, contact.id) ==> row.last == seen[|seen| - 1])
  {
    var condition := ConditionFor(chat, contact, user);
    var visible := Select(chat.messages, contact.id, condition);
    OrderedByTime(visible);
    assert |multiset(visible)| == |visible| && |multiset(OrderByTime(visible))| == |OrderByTime(visible)|;
    if RowFor(chat, contact, user, row) {
      CountWhereIsCountOfSelection(chat.messages, contact.id, condition, Other(contact, user).value);
      OrderKeepsCount(visible, Other(contact, user).value);
      NewestIsLast(visible, row.last);
      if DistinctTimes(chat.messages, contact.id) {
        SameTimeSameMessage(chat.messages, contact.id, condition);
        SameMembers(visible, OrderByTime(visible));
      }
    }
  }

  /** The count pushed to a receiver who has not blocked the sender is the one their own list shows. */
  lemma PushedCountAgrees(chat: Chat, contact: Contact, receiver: UserId, sender: UserId)
    requires Other(contact, receiver) == Some(sender) && (receiver, sender) !in chat.blocks
    ensures PushedUnread(chat, contact.id, receiver, sender) == CountUnread(Conversation(chat, contact, receiver), sender)
  {
    var visible := Select(chat.messages, contact.id, ConditionFor(chat, contact, receiver));
    CountWhereIsCountOfSelection(chat.messages, contact.id, ConditionFor(chat, contact, receiver), sender);
    OrderKeepsCount(visible, sender);
  }

  // ---------------------------------------------------------------------------------------
  // The conversation is a strict window
  // ---------------------------------------------------------------------------------------

  /** Strictly after the user's last deletion and strictly before the user's own block. */
  predicate InWindow(chat: Chat, contact: Contact, user: UserId, t: Time) {
    var lastDelete := LastDelete(chat.deletions, contact.id, user);
    var blockSince := Lookup(chat.blocks, user, Other(contact, user));
    && (lastDelete.Some? ==> lastDelete.value < t)
    && (blockSince.Some? ==> t < blockSince.value)
  }

  predicate Stands(m: Message, k: ContactId) {
    m.contactId == k && !m.deleted
  }

  ghost predicate ShowsWindow(chat: Chat, contact: Contact, user: UserId) {
    forall m: Message :: m in Conversation(chat, contact, user) <==>
                m in chat.messages && Stands(m, contact.id) && InWindow(chat, contact, user, m.createdAt)
  }

  /** A message bears exactly the time of the deletion or of the block, while both are in force. */
  predicate OnEdge(chat: Chat, contact: Contact, user: UserId, m: Message) {
    var lastDelete := LastDelete(chat.deletions, contact.id, user);
    var blockSince := Lookup(chat.blocks, user, Other(contact, user));
    && Stands(m, contact.id)
    && lastDelete.Some? && blockSince.Some? && lastDelete.value <= blockSince.value
    && (m.createdAt == lastDelete.value || m.createdAt == blockSince.value)
  }

  lemma InConversation(chat: Chat, contact: Contact, user: UserId, m: Message)
    ensures m in Conversation(chat, contact, user) <==>
            m in chat.messages && Stands(m, contact.id) && Meets(ConditionFor(chat, contact, user), m.createdAt)
  {
    var visible := Select(chat.messages, contact.id, ConditionFor(chat, contact, user));
    OrderedByTime(visible);
    SameMembers(visible, OrderByTime(visible));
    SelectsMatching(chat.messages, contact.id, ConditionFor(chat, contact, user), m);
  }

  /** The view is the strict window exactly when no message sits on an edge of a two-sided window. */
  lemma ConversationIsWindowIff(chat: Chat, contact: Contact, user: UserId)
    ensures ShowsWindow(chat, contact, user) <==> forall m | m in chat.messages :: !OnEdge(chat, contact, user, m)
  {
    forall m: Message
      ensures m in Conversation(chat, contact, user) <==>
              m in chat.messages && Stands(m, contact.id) && (InWindow(chat, contact, user, m.createdAt) || OnEdge(chat, contact, user, m))
    {
      InConversation(chat, contact, user, m);
    }
    forall m: Message ensures !(InWindow(chat, contact, user, m.createdAt) && OnEdge(chat, contact, user, m)) { }
    if !forall m | m in chat.messages :: !OnEdge(chat, contact, user, m) {
      var m :| m in chat.messages && OnEdge(chat, contact, user, m);
      assert m in Conversation(chat, contact, user) && !InWindow(chat, contact, user, m.createdAt);
    }
  }
}
