/**
 What the chat stores, shows and counts, told from the rows themselves: whose messages an unread count
 counts, which messages a view holds, and what every operation writes.
 */
module ChatEffects {
  import opened Wrappers
  import opened ChatLog
  import opened ChatRuns
  import opened Broadcasts
  import Text

  // ---------------------------------------------------------------------------------------
  // Views
  // ---------------------------------------------------------------------------------------

  /** The two users are the two ends of the contact as `viewer` sees it. */
  ghost predicate Faces(contact: Contact, viewer: UserId, other: UserId) {
    if contact.sellerId == viewer then contact.invitedUserId == Some(other) else contact.sellerId == other
  }

  lemma OtherIs(contact: Contact, viewer: UserId)
    ensures forall other: UserId :: Other(contact, viewer) == Some(other) <==> Faces(contact, viewer, other)
    ensures Other(contact, viewer).None? <==> contact.sellerId == viewer && contact.invitedUserId.None?
  {
  }

  /** A message of the contact that stands, later than every deletion by the viewer and earlier than the viewer's
      block of the other party; where both limit the view, their own instants belong to it. */
  ghost predicate Sees(chat: Chat, contact: Contact, viewer: UserId, other: UserId, m: Message) {
    var blocks := (viewer, other) in chat.blocks;
    var deletes := exists d | d in chat.deletions :: d.contactId == contact.id && d.userId == viewer;
    && m.contactId == contact.id && !m.deleted
    && (forall d | d in chat.deletions && d.contactId == contact.id && d.userId == viewer ::
          d.createdAt < m.createdAt || (blocks && d.createdAt == m.createdAt))
    && (blocks ==> m.createdAt < chat.blocks[(viewer, other)] || (deletes && m.createdAt == chat.blocks[(viewer, other)]))
  }

  lemma LastDeletionIs(deletions: seq<Deletion>, k: ContactId, user: UserId)
    ensures LastDelete(deletions, k, user).None? <==> !exists d | d in deletions :: d.contactId == k && d.userId == user
    ensures forall d | d in deletions && d.contactId == k && d.userId == user ::
              LastDelete(deletions, k, user).Some? && d.createdAt <= LastDelete(deletions, k, user).value
    ensures LastDelete(deletions, k, user).Some? ==> Deletion(k, user, LastDelete(deletions, k, user).value) in deletions
  {
    forall d | d in deletions && d.contactId == k && d.userId == user
      ensures LastDelete(deletions, k, user).Some? && d.createdAt <= LastDelete(deletions, k, user).value
    {
      var n :| 0 <= n < |deletions| && deletions[n] == d;
    }
  }

  lemma MatchesIffSees(chat: Chat, contact: Contact, viewer: UserId, other: UserId, m: Message)
    requires Faces(contact, viewer, other)
    ensures Matches(m, contact.id, ConditionFor(chat, contact, viewer)) <==> Sees(chat, contact, viewer, other, m)
  {
    OtherIs(contact, viewer);
    LastDeletionIs(chat.deletions, contact.id, viewer);
  }

  ghost function Matching(log: seq<Message>, k: ContactId, condition: Condition): set<nat> {
    set n: nat | n < |log| && Matches(log[n], k, condition)
  }

  lemma MatchingStep(log: seq<Message>, m: Message, k: ContactId, condition: Condition)
    ensures |Matching(log + [m], k, condition)| == |Matching(log, k, condition)| + if Matches(m, k, condition) then 1 else 0
  {
    assert Matching(log + [m], k, condition)
        == if Matches(m, k, condition) then Matching(log, k, condition) + {|log|} else Matching(log, k, condition);
  }

  lemma {:induction false} SelectCount(log: seq<Message>, k: ContactId, condition: Condition)
    ensures |Select(log, k, condition)| == |Matching(log, k, condition)|
  {
    if log != [] {
      SelectCount(log[..|log| - 1], k, condition);
      MatchingStep(log[..|log| - 1], log[|log| - 1], k, condition);
      assert log == log[..|log| - 1] + [log[|log| - 1]];
    }
  }

  /** A view is the messages its user sees, each as often as it is stored, oldest first. */
  lemma ConversationIs(chat: Chat, contact: Contact, viewer: UserId, other: UserId)
    requires Faces(contact, viewer, other)
    ensures var shown := Conversation(chat, contact, viewer);
            && (forall m :: m in shown <==> m in chat.messages && Sees(chat, contact, viewer, other, m))
            && |shown| == |set n | 0 <= n < |chat.messages| && Sees(chat, contact, viewer, other, chat.messages[n])|
            && forall i, j | 0 <= i < j < |shown| :: shown[i].createdAt <= shown[j].createdAt
  {
    var condition := ConditionFor(chat, contact, viewer);
    var visible := Select(chat.messages, contact.id, condition);
    OrderedByTime(visible);
    SelectCount(chat.messages, contact.id, condition);
    assert |multiset(visible)| == |visible| && |multiset(OrderByTime(visible))| == |OrderByTime(visible)|;
    forall m: Message ensures m in Conversation(chat, contact, viewer) <==> m in chat.messages && Sees(chat, contact, viewer, other, m) {
      SameMembers(visible, OrderByTime(visible));
      SelectsMatching(chat.messages, contact.id, condition, m);
      MatchesIffSees(chat, contact, viewer, other, m);
    }
    forall n | 0 <= n < |chat.messages|
      ensures Matches(chat.messages[n], contact.id, condition) <==> Sees(chat, contact, viewer, other, chat.messages[n])
    {
      MatchesIffSees(chat, contact, viewer, other, chat.messages[n]);
    }
    assert Matching(chat.messages, contact.id, condition)
        == set n | 0 <= n < |chat.messages| && Sees(chat, contact, viewer, other, chat.messages[n]);
  }

  // ---------------------------------------------------------------------------------------
  // Unread counts
  // ---------------------------------------------------------------------------------------

  ghost function UnreadMatching(log: seq<Message>, k: ContactId, condition: Condition, sender: UserId): set<nat> {
    set n: nat | n < |log| && Matches(log[n], k, condition) && !log[n].read && log[n].senderId == sender
  }

  lemma UnreadMatchingStep(log: seq<Message>, m: Message, k: ContactId, condition: Condition, sender: UserId)
    ensures |UnreadMatching(log + [m], k, condition, sender)|
            == |UnreadMatching(log, k, condition, sender)| + if Matches(m, k, condition) && !m.read && m.senderId == sender then 1 else 0
  {
    assert UnreadMatching(log + [m], k, condition, sender)
        == if Matches(m, k, condition) && !m.read && m.senderId == sender
           then UnreadMatching(log, k, condition, sender) + {|log|} else UnreadMatching(log, k, condition, sender);
  }

  lemma {:induction false} UnreadCount(log: seq<Message>, k: ContactId, condition: Condition, sender: UserId)
    ensures CountUnreadWhere(log, k, condition, sender) == |UnreadMatching(log, k, condition, sender)|
  {
    if log != [] {
      UnreadCount(log[..|log| - 1], k, condition, sender);
      UnreadMatchingStep(log[..|log| - 1], log[|log| - 1], k, condition, sender);
      assert log == log[..|log| - 1] + [log[|log| - 1]];
    }
  }

  /** The unread messages from the other party that the viewer sees. */
  ghost function UnreadSeen(chat: Chat, contact: Contact, viewer: UserId, other: UserId): set<nat> {
    set n: nat | n < |chat.messages| && Sees(chat, contact, viewer, other, chat.messages[n])
                 && !chat.messages[n].read && chat.messages[n].senderId == other
  }

  lemma UnreadSeenIsCounted(chat: Chat, contact: Contact, viewer: UserId, other: UserId)
    requires Faces(contact, viewer, other)
    ensures CountUnreadWhere(chat.messages, contact.id, ConditionFor(chat, contact, viewer), other)
            == |UnreadSeen(chat, contact, viewer, other)|
    ensures CountUnread(Conversation(chat, contact, viewer), other) == |UnreadSeen(chat, contact, viewer, other)|
  {
    var condition := ConditionFor(chat, contact, viewer);
    UnreadCount(chat.messages, contact.id, condition, other);
    CountWhereIsCountOfSelection(chat.messages, contact.id, condition, other);
    OrderKeepsCount(Select(chat.messages, contact.id, condition), other);
    forall n | 0 <= n < |chat.messages|
      ensures Matches(chat.messages[n], contact.id, condition) <==> Sees(chat, contact, viewer, other, chat.messages[n])
    {
      MatchesIffSees(chat, contact, viewer, other, chat.messages[n]);
    }
    assert UnreadSeen(chat, contact, viewer, other) == UnreadMatching(chat.messages, contact.id, condition, other);
  }

  /** A list row of a contact: its unread messages are those of the other party that the viewer sees, its last
      message is one of the newest seen, and it is marked blocked when the viewer blocks the other party. */
  lemma RowSays(chat: Chat, contact: Contact, viewer: UserId, other: UserId, row: Row)
    requires Faces(contact, viewer, other) && RowFor(chat, contact, viewer, row)
    ensures row.contactId == contact.id
    ensures row.isBlocked <==> (viewer, other) in chat.blocks
    ensures row.unread == |UnreadSeen(chat, contact, viewer, other)|
    ensures row.last in chat.messages && Sees(chat, contact, viewer, other, row.last)
    ensures forall m | m in chat.messages && Sees(chat, contact, viewer, other, m) :: m.createdAt <= row.last.createdAt
  {
    OtherIs(contact, viewer);
    UnreadSeenIsCounted(chat, contact, viewer, other);
    var condition := ConditionFor(chat, contact, viewer);
    SelectsMatching(chat.messages, contact.id, condition, row.last);
    MatchesIffSees(chat, contact, viewer, other, row.last);
    forall m | m in chat.messages && Sees(chat, contact, viewer, other, m) ensures m.createdAt <= row.last.createdAt {
      SelectsMatching(chat.messages, contact.id, condition, m);
      MatchesIffSees(chat, contact, viewer, other, m);
    }
  }

  /** A contact is listed exactly when the viewer is one end of it, both ends are live users, and there is something
      to see. */
  lemma ListedIff(chat: Chat, contact: Contact, viewer: UserId)
    ensures Listed(chat, contact, viewer) <==>
            exists customer | contact.invitedUserId == Some(customer) ::
              && (viewer == contact.sellerId || viewer == customer)
              && contact.sellerId in chat.liveUsers && customer in chat.liveUsers
              && exists m | m in chat.messages ::
                   Sees(chat, contact, viewer, if viewer == contact.sellerId then customer else contact.sellerId, m)
  {
    if contact.invitedUserId.Some? {
      var other := if viewer == contact.sellerId then contact.invitedUserId.value else contact.sellerId;
      var visible := Select(chat.messages, contact.id, ConditionFor(chat, contact, viewer));
      assert visible != [] <==> exists m | m in chat.messages :: Sees(chat, contact, viewer, other, m) by {
        if visible != [] {
          SelectsMatching(chat.messages, contact.id, ConditionFor(chat, contact, viewer), visible[0]);
          MatchesIffSees(chat, contact, viewer, other, visible[0]);
        }
        if m :| m in chat.messages && Sees(chat, contact, viewer, other, m) {
          SelectsMatching(chat.messages, contact.id, ConditionFor(chat, contact, viewer), m);
          MatchesIffSees(chat, contact, viewer, other, m);
        }
      }
    }
  }

  /** The unread messages of the contact from the sender that stand and are later than every deletion by the receiver. */
  ghost function UnreadSinceDeletion(chat: Chat, k: ContactId, receiver: UserId, sender: UserId): set<nat> {
    set n: nat | n < |chat.messages|
      && chat.messages[n].contactId == k && !chat.messages[n].deleted && !chat.messages[n].read && chat.messages[n].senderId == sender
      && (forall d | d in chat.deletions && d.contactId == k && d.userId == receiver :: d.createdAt < chat.messages[n].createdAt)
  }

  /** The count pushed with a message. */
  lemma PushedCountIs(chat: Chat, k: ContactId, receiver: UserId, sender: UserId)
    ensures PushedUnread(chat, k, receiver, sender) == |UnreadSinceDeletion(chat, k, receiver, sender)|
  {
    var lastDelete := LastDelete(chat.deletions, k, receiver);
    var condition := if lastDelete.Some? then MoreThan(lastDelete.value) else Always;
    UnreadCount(chat.messages, k, condition, sender);
    LastDeletionIs(chat.deletions, k, receiver);
    assert UnreadSinceDeletion(chat, k, receiver, sender)
        == UnreadMatching(chat.messages, k, condition, sender);
  }

  // ---------------------------------------------------------------------------------------
  // Messages sent and relayed
  // ---------------------------------------------------------------------------------------

  /** The kind of message that a file's MIME type demands. */
  ghost predicate KindFits(kind: Kind, mimeType: string) {
    && (|mimeType| >= 6 && mimeType[..6] == "video/" ==> kind == VIDEO)
    && (|mimeType| >= 6 && mimeType[..6] == "image/" ==> kind == IMAGE)
    && (|mimeType| < 6 || (mimeType[..6] != "video/" && mimeType[..6] != "image/") ==> kind == FILE)
  }

  lemma KindOfFits(mimeType: string)
    ensures KindFits(KindOf(mimeType), mimeType)
  {
    assert "video/" <= mimeType <==> |mimeType| >= 6 && mimeType[..6] == "video/";
    assert "image/" <= mimeType <==> |mimeType| >= 6 && mimeType[..6] == "image/";
    assert "video/"[0] != "image/"[0];
  }

  /** One message per file, with the file, its kind, the text and the file's time; or one message with the given kind
      and text, when there is no file.  All are new. */
  ghost predicate SaysPayload(msgs: seq<Message>, k: ContactId, sender: UserId, payload: Payload, broadcastId: Option<BroadcastId>) {
    if payload.media == [] then
      msgs == [Message(k, sender, payload.kind, payload.content, None, broadcastId, payload.storedAt, false, false)]
    else
      && |msgs| == |payload.media|
      && forall i | 0 <= i < |msgs| ::
           var file := payload.media[i];
           && KindFits(msgs[i].kind, file.mimeType)
           && msgs[i] == Message(k, sender, msgs[i].kind, payload.content, Some(file.fileId), broadcastId, file.storedAt, false, false)
  }

  lemma ComposeSays(k: ContactId, sender: UserId, payload: Payload, broadcastId: Option<BroadcastId>)
    ensures SaysPayload(Compose(k, sender, payload, broadcastId), k, sender, payload, broadcastId)
  {
    forall i | 0 <= i < |payload.media| ensures KindFits(KindOf(payload.media[i].mimeType), payload.media[i].mimeType) {
      KindOfFits(payload.media[i].mimeType);
    }
  }

  /** The log has grown by these messages at its end, and nothing else has changed. */
  ghost predicate Adds(chat: Chat, after: Chat, msgs: seq<Message>) {
    after == chat.(messages := chat.messages + msgs)
  }

  /** `send_message`: stored exactly for a live user who is one end of the contact, both ends being there and the
      customer live, whatever the blocks; nothing is stored otherwise. */
  lemma SendingStores(chat: Chat, contact: Contact, user: UserId, payload: Payload)
    requires UniqueContactIds(chat) && contact in chat.contacts
    ensures var after := Apply(chat, Send(contact.id, user, payload));
            if user in chat.liveUsers
               && (contact.sellerId == user || contact.invitedUserId == Some(user))
               && contact.invitedUserId.Some? && contact.invitedUserId.value in chat.liveUsers
            then exists msgs :: Adds(chat, after, msgs) && SaysPayload(msgs, contact.id, user, payload, None)
            else after == chat
  {
    FindsIt(chat, contact);
    ComposeSays(contact.id, user, payload, None);
    var after := Apply(chat, Send(contact.id, user, payload));
    if MaySend(chat, contact.id, user) {
      assert Adds(chat, after, Compose(contact.id, user, payload, None));
    }
  }

  /** `send_broadcast`, for one contact: stored exactly when the broadcast is there, the user is live, somebody is at the
      other end, and neither of the two blocks the other. */
  lemma RelayingStores(chat: Chat, contact: Contact, user: UserId, id: BroadcastId, payload: Payload)
    requires UniqueContactIds(chat) && contact in chat.contacts
    ensures var after := Apply(chat, Relay(id, contact.id, user, payload));
            if id in chat.broadcasts && user in chat.liveUsers
               && (contact.invitedUserId.Some? ==> contact.invitedUserId.value in chat.liveUsers)
               && exists other: UserId | Faces(contact, user, other) :: (user, other) !in chat.blocks && (other, user) !in chat.blocks
            then exists msgs :: Adds(chat, after, msgs) && SaysPayload(msgs, contact.id, user, payload, Some(id))
            else after == chat
  {
    FindsIt(chat, contact);
    OtherIs(contact, user);
    ComposeSays(contact.id, user, payload, Some(id));
    var after := Apply(chat, Relay(id, contact.id, user, payload));
    if MayRelay(chat, id, contact.id, user) {
      assert Faces(contact, user, Other(contact, user).value);
      assert Adds(chat, after, Compose(contact.id, user, payload, Some(id)));
    }
  }

  /** Nothing is sent or relayed in a contact that does not exist. */
  lemma NoContactNoMessage(chat: Chat, k: ContactId, user: UserId, id: BroadcastId, payload: Payload)
    requires forall c | c in chat.contacts :: c.id != k
    ensures Apply(chat, Send(k, user, payload)) == chat && Apply(chat, Relay(id, k, user, payload)) == chat
  {
  }

  // ---------------------------------------------------------------------------------------
  // What sending does to the unread counts
  // ---------------------------------------------------------------------------------------

  ghost predicate After(chat: Chat, payload: Payload) {
    forall d | d in chat.deletions ::
      d.createdAt < payload.storedAt && forall i | 0 <= i < |payload.media| :: d.createdAt < payload.media[i].storedAt
  }

  lemma ShiftedCount(old': set<nat>, new': set<nat>, n: nat, extra: nat)
    requires forall i | i in old' :: i < n
    requires forall i | i < n :: i in new' <==> i in old'
    requires forall i | n <= i :: i in new' <==> i < n + extra
    ensures |new'| == |old'| + extra
    decreases extra
  {
    if extra == 0 {
      assert new' == old';
    } else {
      ShiftedCount(old', new' - {n + extra - 1}, n, extra - 1);
    }
  }

  lemma SameBefore(chat: Chat, after: Chat, msgs: seq<Message>, contact: Contact, viewer: UserId, other: UserId)
    requires Adds(chat, after, msgs)
    ensures forall n: nat | n < |chat.messages| :: n in UnreadSeen(after, contact, viewer, other) <==> n in UnreadSeen(chat, contact, viewer, other)
  {
    forall n: nat | n < |chat.messages|
      ensures n in UnreadSeen(after, contact, viewer, other) <==> n in UnreadSeen(chat, contact, viewer, other)
    {
      assert after.messages[n] == chat.messages[n];
      assert Sees(after, contact, viewer, other, after.messages[n]) <==> Sees(chat, contact, viewer, other, chat.messages[n]);
    }
  }

  /** New messages from somebody else than the counted party do not count. */
  lemma OwnMessagesDoNotCount(chat: Chat, after: Chat, msgs: seq<Message>, contact: Contact, viewer: UserId, other: UserId)
    requires Adds(chat, after, msgs) && forall i | 0 <= i < |msgs| :: msgs[i].senderId != other
    ensures |UnreadSeen(after, contact, viewer, other)| == |UnreadSeen(chat, contact, viewer, other)|
  {
    SameBefore(chat, after, msgs, contact, viewer, other);
    forall n: nat | |chat.messages| <= n ensures n !in UnreadSeen(after, contact, viewer, other) {
      if n < |after.messages| { assert after.messages[n] == msgs[n - |chat.messages|]; }
    }
    ShiftedCount(UnreadSeen(chat, contact, viewer, other), UnreadSeen(after, contact, viewer, other), |chat.messages|, 0);
  }

  /** New messages from the counted party all count while they are seen. */
  lemma NewMessagesCount(chat: Chat, after: Chat, msgs: seq<Message>, contact: Contact, viewer: UserId, other: UserId)
    requires Adds(chat, after, msgs)
    requires forall i | 0 <= i < |msgs| ::
               msgs[i].senderId == other && !msgs[i].read && !msgs[i].deleted && msgs[i].contactId == contact.id
               && forall d | d in chat.deletions :: d.createdAt < msgs[i].createdAt
    requires (viewer, other) !in chat.blocks
    ensures |UnreadSeen(after, contact, viewer, other)| == |UnreadSeen(chat, contact, viewer, other)| + |msgs|
  {
    SameBefore(chat, after, msgs, contact, viewer, other);
    forall n: nat | |chat.messages| <= n ensures n in UnreadSeen(after, contact, viewer, other) <==> n < |chat.messages| + |msgs| {
      if n < |after.messages| {
        assert after.messages[n] == msgs[n - |chat.messages|];
        assert Sees(after, contact, viewer, other, after.messages[n]);
      }
    }
    ShiftedCount(UnreadSeen(chat, contact, viewer, other), UnreadSeen(after, contact, viewer, other), |chat.messages|, |msgs|);
  }

  /** The messages of one `send_message`, all from the sender, in the contact, new, and later than the deletions. */
  lemma SentMessages(chat: Chat, contact: Contact, sender: UserId, payload: Payload) returns (msgs: seq<Message>)
    requires UniqueContactIds(chat) && contact in chat.contacts
    requires sender in chat.liveUsers && contact.invitedUserId.Some? && contact.invitedUserId.value in chat.liveUsers
    requires contact.sellerId == sender || contact.invitedUserId == Some(sender)
    ensures Adds(chat, Apply(chat, Send(contact.id, sender, payload)), msgs)
    ensures |msgs| == if payload.media == [] then 1 else |payload.media|
    ensures forall i | 0 <= i < |msgs| ::
              msgs[i].senderId == sender && !msgs[i].read && !msgs[i].deleted && msgs[i].contactId == contact.id
              && (After(chat, payload) ==> forall d | d in chat.deletions :: d.createdAt < msgs[i].createdAt)
  {
    SendingStores(chat, contact, sender, payload);
    msgs :| Adds(chat, Apply(chat, Send(contact.id, sender, payload)), msgs) && SaysPayload(msgs, contact.id, sender, payload, None);
  }

  /** A message sent leaves the sender's own unread count as it was. */
  lemma SendingKeepsOwnUnread(chat: Chat, contact: Contact, sender: UserId, receiver: UserId, payload: Payload)
    requires UniqueContactIds(chat) && contact in chat.contacts && sender != receiver && Faces(contact, sender, receiver)
    ensures var after := Apply(chat, Send(contact.id, sender, payload));
            CountUnread(Conversation(after, contact, sender), receiver) == CountUnread(Conversation(chat, contact, sender), receiver)
  {
    var after := Apply(chat, Send(contact.id, sender, payload));
    SendingStores(chat, contact, sender, payload);
    if after != chat {
      var msgs := SentMessages(chat, contact, sender, payload);
      UnreadSeenIsCounted(after, contact, sender, receiver);
      UnreadSeenIsCounted(chat, contact, sender, receiver);
      OwnMessagesDoNotCount(chat, after, msgs, contact, sender, receiver);
    }
  }

  /** It raises the unread count of a receiver who does not block the sender by the number of messages stored. */
  lemma SendingRaisesUnread(chat: Chat, contact: Contact, sender: UserId, receiver: UserId, payload: Payload)
    requires UniqueContactIds(chat) && contact in chat.contacts
    requires sender in chat.liveUsers && contact.invitedUserId.Some? && contact.invitedUserId.value in chat.liveUsers
    requires contact.sellerId == sender || contact.invitedUserId == Some(sender)
    requires Faces(contact, receiver, sender) && (receiver, sender) !in chat.blocks && After(chat, payload)
    ensures var after := Apply(chat, Send(contact.id, sender, payload));
            CountUnread(Conversation(after, contact, receiver), sender)
            == CountUnread(Conversation(chat, contact, receiver), sender) + if payload.media == [] then 1 else |payload.media|
  {
    var after := Apply(chat, Send(contact.id, sender, payload));
    var msgs := SentMessages(chat, contact, sender, payload);
    UnreadSeenIsCounted(after, contact, receiver, sender);
    UnreadSeenIsCounted(chat, contact, receiver, sender);
    NewMessagesCount(chat, after, msgs, contact, receiver, sender);
  }
}
