/**
 What single chat operations do to what each user sees.
 */
module ChatViews {
  import opened Wrappers
  import opened ChatLog
  import opened ChatRuns

  // ---------------------------------------------------------------------------------------
  // Blocks and deletions change one user's view only
  // ---------------------------------------------------------------------------------------

  /** Is this the view that a block, an unblock or a "delete chat" is about? */
  predicate AboutView(op: Op, contact: Contact, viewer: UserId) {
    match op
    case Block(user, other, _) => viewer == user && Other(contact, viewer) == Some(other)
    case Unblock(user, other) => viewer == user && Other(contact, viewer) == Some(other)
    case DeleteView(k, user, _) => viewer == user && contact.id == k
    case _ => true
  }

  /** Every other view stays as it was, the other party's included. */
  lemma OtherViewsStay(chat: Chat, op: Op, contact: Contact, viewer: UserId)
    requires !AboutView(op, contact, viewer)
    ensures Conversation(Apply(chat, op), contact, viewer) == Conversation(chat, contact, viewer)
  {
    var after := Apply(chat, op);
    if op.DeleteView? && after != chat {
      assert after.deletions[..|after.deletions| - 1] == chat.deletions;
      assert LastDelete(after.deletions, contact.id, viewer) == LastDelete(chat.deletions, contact.id, viewer);
    }
  }

  /** Of what is stored already, a new block leaves the blocker exactly the part of the view before its time,
      unless a message bears the very time of the block or of the blocker's last deletion. */
  lemma BlockCutsViewIff(chat: Chat, contact: Contact, user: UserId, other: UserId, t: Time)
    requires Other(contact, user) == Some(other) && MayBlock(chat, user, other)
    ensures var after := Apply(chat, Block(user, other, t));
            (forall m: Message :: m in Conversation(after, contact, user)
               <==> m in Conversation(chat, contact, user) && m.createdAt < t)
            <==> forall m | m in chat.messages :: !OnEdge(after, contact, user, m)
  {
    var after := Apply(chat, Block(user, other, t));
    forall m: Message
      ensures m in Conversation(after, contact, user)
              <==> (m in Conversation(chat, contact, user) && m.createdAt < t) || (m in chat.messages && OnEdge(after, contact, user, m))
      ensures !(m in Conversation(chat, contact, user) && m.createdAt < t && OnEdge(after, contact, user, m))
    {
      InConversation(after, contact, user, m);
      InConversation(chat, contact, user, m);
    }
    if !forall m | m in chat.messages :: !OnEdge(after, contact, user, m) {
      var m :| m in chat.messages && OnEdge(after, contact, user, m);
      assert m in Conversation(after, contact, user);
    }
  }

  // ---------------------------------------------------------------------------------------
  // While a block lasts
  // ---------------------------------------------------------------------------------------

  /** What may be sent, and when: messages, relayed or new broadcasts, stored after the given time. */
  predicate SendsAfter(op: Op, t: Time) {
    match op
    case Send(_, _, payload) => StoredAfter(payload, t)
    case Relay(_, _, _, payload) => StoredAfter(payload, t)
    case Create(_, _, _, _, at) => t < at
    case _ => false
  }

  predicate StoredAfter(payload: Payload, t: Time) {
    t < payload.storedAt && forall i | 0 <= i < |payload.media| :: t < payload.media[i].storedAt
  }

  /** Later messages that stand, and nothing else, have been added to the log. */
  ghost predicate OnlyAdds(before: Chat, after: Chat, t: Time) {
    && before.messages <= after.messages
    && after.deletions == before.deletions && after.blocks == before.blocks
    && forall i | |before.messages| <= i < |after.messages| :: t < after.messages[i].createdAt && !after.messages[i].deleted
  }

  lemma {:induction false} FanoutStoredAt(ks: seq<ContactId>, user: UserId, drafts: seq<Draft>, id: BroadcastId, now: Time)
    ensures forall i | 0 <= i < |Fanout(ks, user, drafts, id, now)| ::
              var m := Fanout(ks, user, drafts, id, now)[i]; m.createdAt == now && !m.deleted
  {
    if ks != [] { FanoutStoredAt(ks[..|ks| - 1], user, drafts, id, now); }
  }

  lemma SendingAdds(chat: Chat, op: Op, t: Time)
    requires SendsAfter(op, t)
    ensures OnlyAdds(chat, Apply(chat, op), t)
  {
    if op.Create? { FanoutStoredAt(op.ks, op.user, Drafts(op.text, op.media), chat.nextBroadcast, op.at); }
  }

  lemma {:induction false} SendingRunsAdd(chat: Chat, ops: seq<Op>, t: Time)
    requires forall op | op in ops :: SendsAfter(op, t)
    ensures OnlyAdds(chat, Run(chat, ops), t)
    decreases ops
  {
    if ops != [] {
      SendingAdds(chat, ops[0], t);
      SendingRunsAdd(Apply(chat, ops[0]), ops[1..], t);
    }
  }

  lemma {:induction false} NothingMoreSelected(log: seq<Message>, extra: seq<Message>, k: ContactId, condition: Condition)
    requires forall i | 0 <= i < |extra| :: !Matches(extra[i], k, condition)
    ensures Select(log + extra, k, condition) == Select(log, k, condition)
  {
    if extra == [] {
      assert log + extra == log;
    } else {
      NothingMoreSelected(log, extra[..|extra| - 1], k, condition);
      assert (log + extra)[..|log + extra| - 1] == log + extra[..|extra| - 1];
    }
  }

  /** While the block lasts, whatever is sent after it, the blocker's view does not change at all. */
  lemma BlockFreezesView(chat: Chat, ops: seq<Op>, contact: Contact, user: UserId, other: UserId, t: Time)
    requires Other(contact, user) == Some(other) && MayBlock(chat, user, other)
    requires forall op | op in ops :: SendsAfter(op, t)
    ensures var blocked := Apply(chat, Block(user, other, t));
            Conversation(Run(blocked, ops), contact, user) == Conversation(blocked, contact, user)
  {
    var blocked := Apply(chat, Block(user, other, t));
    var after := Run(blocked, ops);
    SendingRunsAdd(blocked, ops, t);
    var extra := after.messages[|blocked.messages|..];
    assert after.messages == blocked.messages + extra;
    NothingMoreSelected(blocked.messages, extra, contact.id, ConditionFor(blocked, contact, user));
  }

  /** What anybody sees who has not blocked the other party gains every message stored for the chat since,
      and nothing else. */
  lemma OthersSeeWhatIsSent(chat: Chat, ops: seq<Op>, contact: Contact, viewer: UserId, t: Time, m: Message)
    requires Lookup(chat.blocks, viewer, Other(contact, viewer)).None?
    requires forall op | op in ops :: SendsAfter(op, t)
    requires forall d | d in chat.deletions :: d.createdAt <= t
    ensures var after := Run(chat, ops);
            && chat.messages <= after.messages
            && (m in Conversation(after, contact, viewer)
                <==> m in Conversation(chat, contact, viewer)
                     || (m in after.messages[|chat.messages|..] && m.contactId == contact.id))
  {
    var after := Run(chat, ops);
    SendingRunsAdd(chat, ops, t);
    InConversation(after, contact, viewer, m);
    InConversation(chat, contact, viewer, m);
    assert after.messages == chat.messages + after.messages[|chat.messages|..];
    var lastDelete := LastDelete(chat.deletions, contact.id, viewer);
    if lastDelete.Some? {
      var n :| 0 <= n < |chat.deletions| && chat.deletions[n] == Deletion(contact.id, viewer, lastDelete.value);
      assert chat.deletions[n] in chat.deletions;
    }
  }

  // ---------------------------------------------------------------------------------------
  // Deleting a chat
  // ---------------------------------------------------------------------------------------

  lemma NewestDeletion(deletions: seq<Deletion>, k: ContactId, user: UserId, now: Time)
    requires forall d | d in deletions :: d.createdAt <= now
    ensures LastDelete(deletions + [Deletion(k, user, now)], k, user) == Some(now)
  {
    var after := deletions + [Deletion(k, user, now)];
    assert after[..|after| - 1] == deletions;
    var before := LastDelete(deletions, k, user);
    if before.Some? {
      var n :| 0 <= n < |deletions| && deletions[n] == Deletion(k, user, before.value);
      assert deletions[n] in deletions;
    }
  }

  /** After a deletion only what sits on an edge of the window is left to see. */
  lemma LeftAfterDelete(chat: Chat, contact: Contact, user: UserId, now: Time, m: Message)
    requires user in chat.users && Find(chat.contacts, contact.id).Some?
    requires m in chat.messages && Stands(m, contact.id) ==> m.createdAt <= now
    requires forall d | d in chat.deletions :: d.createdAt <= now
    ensures var after := Apply(chat, DeleteView(contact.id, user, now));
            m in Conversation(after, contact, user) <==> m in chat.messages && OnEdge(after, contact, user, m)
  {
    var after := Apply(chat, DeleteView(contact.id, user, now));
    assert LastDelete(after.deletions, contact.id, user) == Some(now) by { NewestDeletion(chat.deletions, contact.id, user, now); }
    InConversation(after, contact, user, m);
  }

  /** "Delete chat" empties the user's own view, unless they block the other party and a message bears
      the very time of the deletion. */
  lemma DeleteEmptiesViewIff(chat: Chat, contact: Contact, user: UserId, now: Time)
    requires user in chat.users && Find(chat.contacts, contact.id).Some?
    requires forall m | m in chat.messages && Stands(m, contact.id) :: m.createdAt <= now
    requires forall d | d in chat.deletions :: d.createdAt <= now
    ensures var after := Apply(chat, DeleteView(contact.id, user, now));
            Conversation(after, contact, user) == [] <==> forall m | m in chat.messages :: !OnEdge(after, contact, user, m)
  {
    var after := Apply(chat, DeleteView(contact.id, user, now));
    var left := Conversation(after, contact, user);
    if left != [] {
      LeftAfterDelete(chat, contact, user, now, left[0]);
    } else {
      forall m | m in chat.messages ensures !OnEdge(after, contact, user, m) {
        LeftAfterDelete(chat, contact, user, now, m);
      }
    }
  }

  // ---------------------------------------------------------------------------------------
  // Reading
  // ---------------------------------------------------------------------------------------

  function Read(m: Message): Message {
    m.(read := true)
  }

  lemma {:induction false} SelectOfRead(log: seq<Message>, marked: seq<Message>, k: ContactId, condition: Condition)
    requires |marked| == |log| && forall i | 0 <= i < |log| :: marked[i] == if log[i].contactId == k then Read(log[i]) else log[i]
    ensures Select(marked, k, condition) == Mapped(Select(log, k, condition), Read)
  {
    if log != [] {
      SelectOfRead(log[..|log| - 1], marked[..|marked| - 1], k, condition);
    }
  }

  lemma {:induction false} SelectElsewhere(log: seq<Message>, marked: seq<Message>, k: ContactId, other: ContactId, condition: Condition)
    requires k != other && |marked| == |log|
    requires forall i | 0 <= i < |log| :: marked[i] == if log[i].contactId == other then Read(log[i]) else log[i]
    ensures Select(marked, k, condition) == Select(log, k, condition)
  {
    if log != [] {
      SelectElsewhere(log[..|log| - 1], marked[..|marked| - 1], k, other, condition);
    }
  }

  lemma {:induction false} InsertRead(sorted: seq<Message>, m: Message)
    ensures InsertByTime(Mapped(sorted, Read), Read(m)) == Mapped(InsertByTime(sorted, m), Read)
  {
    if !(sorted == [] || sorted[|sorted| - 1].createdAt <= m.createdAt) {
      InsertRead(sorted[..|sorted| - 1], m);
      assert Mapped(sorted, Read)[..|sorted| - 1] == Mapped(sorted[..|sorted| - 1], Read);
    }
  }

  lemma {:induction false} OrderOfRead(msgs: seq<Message>)
    ensures OrderByTime(Mapped(msgs, Read)) == Mapped(OrderByTime(msgs), Read)
  {
    if msgs != [] {
      OrderOfRead(msgs[..|msgs| - 1]);
      InsertRead(OrderByTime(msgs[..|msgs| - 1]), msgs[|msgs| - 1]);
      assert Mapped(msgs, Read)[..|msgs| - 1] == Mapped(msgs[..|msgs| - 1], Read);
    }
  }

  lemma {:induction false} NothingUnread(msgs: seq<Message>, sender: UserId)
    requires forall i | 0 <= i < |msgs| :: msgs[i].read
    ensures CountUnread(msgs, sender) == 0
  {
    if msgs != [] { NothingUnread(msgs[..|msgs| - 1], sender); }
  }

  /** One user marking a chat read marks it read for both: each party still sees the same messages, and
      nobody has anything unread there.  Other chats are as they were. */
  lemma MarkReadServesBoth(chat: Chat, contact: Contact, k: ContactId, viewer: UserId, sender: UserId)
    requires Find(chat.contacts, k).Some?
    ensures var after := Apply(chat, MarkRead(k));
            && (contact.id == k ==>
                  && Conversation(after, contact, viewer) == Mapped(Conversation(chat, contact, viewer), Read)
                  && CountUnread(Conversation(after, contact, viewer), sender) == 0)
            && (contact.id != k ==> Conversation(after, contact, viewer) == Conversation(chat, contact, viewer))
  {
    var after := Apply(chat, MarkRead(k));
    var condition := ConditionFor(chat, contact, viewer);
    if contact.id == k {
      SelectOfRead(chat.messages, after.messages, k, condition);
      OrderOfRead(Select(chat.messages, k, condition));
      NothingUnread(Conversation(after, contact, viewer), sender);
    } else {
      SelectElsewhere(chat.messages, after.messages, contact.id, k, condition);
    }
  }

  // ---------------------------------------------------------------------------------------
  // Removing a chat for both parties
  // ---------------------------------------------------------------------------------------

  lemma {:induction false} SelectOfWiped(log: seq<Message>, wiped: seq<Message>, k: ContactId, other: ContactId, condition: Condition)
    requires |wiped| == |log|
    requires forall i | 0 <= i < |log| :: wiped[i] == if log[i].contactId == other then log[i].(deleted := true) else log[i]
    ensures Select(wiped, k, condition) == if k == other then [] else Select(log, k, condition)
  {
    if log != [] {
      SelectOfWiped(log[..|log| - 1], wiped[..|wiped| - 1], k, other, condition);
    }
  }

  /** `deleteChat`, unlike a user's own "delete chat", empties the chat for everybody, and no other chat. */
  lemma WipeEmptiesForAll(chat: Chat, contact: Contact, k: ContactId, viewer: UserId)
    ensures Conversation(Apply(chat, Wipe(k)), contact, viewer)
            == if contact.id == k then [] else Conversation(chat, contact, viewer)
  {
    SelectOfWiped(chat.messages, Apply(chat, Wipe(k)).messages, contact.id, k, ConditionFor(chat, contact, viewer));
  }
}
