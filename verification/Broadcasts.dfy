/**
 Broadcasts: what a new one stores, which contacts it reaches again later, and what is pushed to
 their users while it is being created.
 */
module Broadcasts {
  import opened Wrappers
  import opened ChatLog
  import opened ChatRuns

  // ---------------------------------------------------------------------------------------
  // Conservation
  // ---------------------------------------------------------------------------------------

  /** How many messages each contact gets. */
  function PerContact(text: Option<string>, media: seq<Upload>): nat {
    |media| + if HasText(text) then 1 else 0
  }

  /** The messages of one contact that carry the broadcast. */
  function CountTagged(log: seq<Message>, k: ContactId, id: BroadcastId): nat {
    if log == [] then 0
    else CountTagged(log[..|log| - 1], k, id) + if log[|log| - 1].contactId == k && log[|log| - 1].broadcastId == Some(id) then 1 else 0
  }

  /** Broadcast ids in use are below the next one to be handed out. */
  ghost predicate FreshIds(chat: Chat) {
    && (forall id | id in chat.broadcasts :: id < chat.nextBroadcast)
    && (forall r | r in chat.recipients :: r.0 < chat.nextBroadcast)
    && (forall m | m in chat.messages && m.broadcastId.Some? :: m.broadcastId.value < chat.nextBroadcast)
  }

  lemma {:induction false} FanoutTags(ks: seq<ContactId>, user: UserId, drafts: seq<Draft>, id: BroadcastId, now: Time)
    ensures forall m | m in Fanout(ks, user, drafts, id, now) :: m.broadcastId == Some(id) && m.senderId == user && m.contactId in ks
  {
    if ks != [] { FanoutTags(ks[..|ks| - 1], user, drafts, id, now); }
  }

  lemma {:induction false} FanoutLength(ks: seq<ContactId>, user: UserId, drafts: seq<Draft>, id: BroadcastId, now: Time)
    ensures |Fanout(ks, user, drafts, id, now)| == |ks| * |drafts|
  {
    if ks != [] {
      var n := |ks| - 1;
      FanoutLength(ks[..n], user, drafts, id, now);
      assert n * |drafts| + |drafts| == (n + 1) * |drafts|;
    }
  }

  /** The broadcasts, contacts and ids that any operation leaves behind are in order. */
  lemma StepKeepsFreshIds(chat: Chat, op: Op)
    requires FreshIds(chat)
    ensures FreshIds(Apply(chat, op)) && Apply(chat, op).contacts == chat.contacts
    ensures Apply(chat, op).nextBroadcast >= chat.nextBroadcast
    ensures forall id | id in chat.broadcasts :: id in Apply(chat, op).broadcasts && Apply(chat, op).broadcasts[id] == chat.broadcasts[id]
    ensures forall r | r in Apply(chat, op).recipients && r !in chat.recipients :: r.0 >= chat.nextBroadcast
    ensures chat.recipients <= Apply(chat, op).recipients
  {
    if op.Create? { FanoutTags(op.ks, op.user, Drafts(op.text, op.media), chat.nextBroadcast, op.at); }
  }

  lemma {:induction false} CountTaggedAppend(a: seq<Message>, b: seq<Message>, k: ContactId, id: BroadcastId)
    ensures CountTagged(a + b, k, id) == CountTagged(a, k, id) + CountTagged(b, k, id)
  {
    if b == [] {
      assert a + b == a;
    } else {
      CountTaggedAppend(a, b[..|b| - 1], k, id);
      assert (a + b)[..|a + b| - 1] == a + b[..|b| - 1];
      assert (a + b)[|a + b| - 1] == b[|b| - 1];
    }
  }

  lemma {:induction false} AllTagged(log: seq<Message>, k: ContactId, id: BroadcastId)
    requires forall i | 0 <= i < |log| :: log[i].contactId == k && log[i].broadcastId == Some(id)
    ensures CountTagged(log, k, id) == |log|
  {
    if log != [] { AllTagged(log[..|log| - 1], k, id); }
  }

  lemma {:induction false} NoneTagged(log: seq<Message>, k: ContactId, id: BroadcastId)
    requires forall m | m in log :: m.contactId != k || m.broadcastId != Some(id)
    ensures CountTagged(log, k, id) == 0
  {
    if log != [] { NoneTagged(log[..|log| - 1], k, id); }
  }

  lemma {:induction false} FanoutCounts(ks: seq<ContactId>, user: UserId, drafts: seq<Draft>, id: BroadcastId, now: Time, k: ContactId)
    requires forall i, j | 0 <= i < j < |ks| :: ks[i] != ks[j]
    ensures CountTagged(Fanout(ks, user, drafts, id, now), k, id) == if k in ks then |drafts| else 0
  {
    if ks != [] {
      var front, last := ks[..|ks| - 1], ks[|ks| - 1];
      FanoutCounts(front, user, drafts, id, now, k);
      CountTaggedAppend(Fanout(front, user, drafts, id, now), AddressAll(last, user, drafts, id, now), k, id);
      if k == last {
        AllTagged(AddressAll(last, user, drafts, id, now), k, id);
      } else {
        NoneTagged(AddressAll(last, user, drafts, id, now), k, id);
      }
      assert k in ks <==> k in front || k == last;
    }
  }

  lemma DistinctContacts(chat: Chat, ks: seq<ContactId>)
    requires RecipientsFit(chat, ks)
    ensures forall i, j | 0 <= i < j < |ks| :: ks[i] != ks[j]
  {
    forall i, j | 0 <= i < j < |ks| ensures ks[i] != ks[j] {
      assert Customer(chat, ks[i]) != Customer(chat, ks[j]);
    }
  }

  /** A completed `createBroadcast` stores for every contact one message per file and one for a text that
      is not blank, all carrying the new broadcast, and nothing else; blocks make no difference to that. */
  lemma BroadcastStoresExactly(chat: Chat, user: UserId, ks: seq<ContactId>, text: Option<string>, media: seq<Upload>, now: Time, k: ContactId)
    requires FreshIds(chat) && user in chat.liveUsers && RecipientsFit(chat, ks)
    ensures var after := CreateBroadcast(chat, user, ks, text, media, now);
            var id := chat.nextBroadcast;
            && id !in chat.broadcasts && after.broadcasts == chat.broadcasts[id := user]
            && chat.messages <= after.messages
            && |after.messages| - |chat.messages| == |ks| * PerContact(text, media)
            && (forall m | m in after.messages[|chat.messages|..] :: m.broadcastId == Some(id) && m.senderId == user && m.contactId in ks)
            && CountTagged(after.messages, k, id) == if k in ks then PerContact(text, media) else 0
  {
    var id, drafts := chat.nextBroadcast, Drafts(text, media);
    DistinctContacts(chat, ks);
    FanoutTags(ks, user, drafts, id, now);
    FanoutLength(ks, user, drafts, id, now);
    FanoutCounts(ks, user, drafts, id, now, k);
    NoneTagged(chat.messages, k, id);
    CountTaggedAppend(chat.messages, Fanout(ks, user, drafts, id, now), k, id);
    var after := CreateBroadcast(chat, user, ks, text, media, now);
    assert after.messages[|chat.messages|..] == Fanout(ks, user, drafts, id, now);
  }

  // ---------------------------------------------------------------------------------------
  // The contacts of a broadcast
  // ---------------------------------------------------------------------------------------

  /** The join of `getBroadcastContactIds`: one party is the broadcast's seller, the other a recipient. */
  predicate Reaches(recipients: set<(BroadcastId, UserId)>, id: BroadcastId, seller: UserId, contact: Contact) {
    && contact.invitedUserId.Some?
    && (|| (contact.sellerId == seller && (id, contact.invitedUserId.value) in recipients)
        || (contact.invitedUserId.value == seller && (id, contact.sellerId) in recipients))
  }

  function BroadcastContactIds(chat: Chat, id: BroadcastId): set<ContactId> {
    if id !in chat.broadcasts then {}
    else set c | c in chat.contacts && Reaches(chat.recipients, id, chat.broadcasts[id], c) :: c.id
  }

  ghost predicate UniqueContactIds(chat: Chat) {
    forall i, j | 0 <= i < j < |chat.contacts| :: chat.contacts[i].id != chat.contacts[j].id
  }

  lemma FindsIt(chat: Chat, contact: Contact)
    requires UniqueContactIds(chat) && contact in chat.contacts
    ensures Find(chat.contacts, contact.id) == Some(contact)
  {
    var found := Find(chat.contacts, contact.id);
    var i :| 0 <= i < |chat.contacts| && chat.contacts[i] == contact;
    var j :| 0 <= j < |chat.contacts| && chat.contacts[j] == found.value;
    assert !(i < j) && !(j < i);
  }

  /** A contact ties the seller to one of the customers named by the list, in either role. */
  predicate Joins(chat: Chat, ks: seq<ContactId>, seller: UserId, contact: Contact) {
    && contact.invitedUserId.Some?
    && exists i | 0 <= i < |ks| ::
         || (contact.sellerId == seller && contact.invitedUserId == Customer(chat, ks[i]))
         || (contact.invitedUserId.value == seller && Some(contact.sellerId) == Customer(chat, ks[i]))
  }

  lemma ReachedAfterCreate(chat: Chat, user: UserId, ks: seq<ContactId>, text: Option<string>, media: seq<Upload>, now: Time, contact: Contact)
    requires FreshIds(chat) && user in chat.liveUsers && RecipientsFit(chat, ks)
    ensures var after := CreateBroadcast(chat, user, ks, text, media, now);
            Reaches(after.recipients, chat.nextBroadcast, user, contact) <==> Joins(chat, ks, user, contact)
  {
    var id := chat.nextBroadcast;
    forall u: UserId ensures (id, u) in chat.recipients + RecipientRows(chat, ks, id) <==> exists i | 0 <= i < |ks| :: Customer(chat, ks[i]) == Some(u) {
      if (id, u) in RecipientRows(chat, ks, id) {
        var i :| 0 <= i < |ks| && Customer(chat, ks[i]).Some? && (id, u) == (id, Customer(chat, ks[i]).value);
        assert Customer(chat, ks[i]) == Some(u);
      }
      if i :| 0 <= i < |ks| && Customer(chat, ks[i]) == Some(u) {
        assert (id, Customer(chat, ks[i]).value) in RecipientRows(chat, ks, id);
      }
    }
  }

  /** The contacts a new broadcast is sent to are those it will be sent to again, exactly when each of
      them has the sender as a party facing a recipient, and no contact outside the list does. */
  lemma BroadcastRoundTripIff(chat: Chat, user: UserId, ks: seq<ContactId>, text: Option<string>, media: seq<Upload>, now: Time)
    requires FreshIds(chat) && UniqueContactIds(chat) && user in chat.liveUsers && RecipientsFit(chat, ks)
    ensures var reached := BroadcastContactIds(CreateBroadcast(chat, user, ks, text, media, now), chat.nextBroadcast);
            && ((forall k | k in ks :: k in reached) <==> forall c | c in chat.contacts && c.id in ks :: Joins(chat, ks, user, c))
            && ((forall k | k in reached :: k in ks) <==> forall c | c in chat.contacts && c.id !in ks :: !Joins(chat, ks, user, c))
  {
    var after := CreateBroadcast(chat, user, ks, text, media, now);
    var id := chat.nextBroadcast;
    var reached := BroadcastContactIds(after, id);
    forall c | c in chat.contacts ensures c.id in reached <==> Joins(chat, ks, user, c) {
      ReachedAfterCreate(chat, user, ks, text, media, now, c);
      if c.id in reached {
        var d :| d in chat.contacts && Reaches(after.recipients, id, user, d) && d.id == c.id;
        FindsIt(chat, c);
        FindsIt(chat, d);
      }
    }
    forall k | k in ks ensures exists c | c in chat.contacts :: c.id == k {
      assert Customer(chat, k).Some?;
    }
  }

  ghost predicate OwnContacts(chat: Chat, ks: seq<ContactId>, seller: UserId) {
    forall c | c in chat.contacts && c.id in ks :: c.sellerId == seller
  }

  /** No two contacts tie the same two users together. */
  ghost predicate OneContactPerPair(chat: Chat) {
    forall c, d | c in chat.contacts && d in chat.contacts && c.invitedUserId.Some? && d.invitedUserId.Some? ::
      SameParties(c, d) ==> c.id == d.id
  }

  predicate SameParties(c: Contact, d: Contact) {
    || (c.sellerId == d.sellerId && c.invitedUserId == d.invitedUserId)
    || (Some(c.sellerId) == d.invitedUserId && c.invitedUserId == Some(d.sellerId))
  }

  lemma JoinedContactIsListed(chat: Chat, ks: seq<ContactId>, user: UserId, c: Contact)
    requires OwnContacts(chat, ks, user) && OneContactPerPair(chat)
    requires c in chat.contacts && Joins(chat, ks, user, c)
    ensures c.id in ks
  {
    var i :| 0 <= i < |ks|
      && (|| (c.sellerId == user && c.invitedUserId == Customer(chat, ks[i]))
          || (c.invitedUserId.value == user && Some(c.sellerId) == Customer(chat, ks[i])));
    var d := Find(chat.contacts, ks[i]).value;
    assert SameParties(c, d);
  }

  /** A seller writing to contacts of their own reaches all of them again later, and nobody else when
      each pair of users has one contact. */
  lemma BroadcastRoundTrip(chat: Chat, user: UserId, ks: seq<ContactId>, text: Option<string>, media: seq<Upload>, now: Time)
    requires FreshIds(chat) && UniqueContactIds(chat) && user in chat.liveUsers && RecipientsFit(chat, ks)
    requires OwnContacts(chat, ks, user)
    ensures var reached := BroadcastContactIds(CreateBroadcast(chat, user, ks, text, media, now), chat.nextBroadcast);
            && (set k | k in ks) <= reached
            && (OneContactPerPair(chat) ==> reached == set k | k in ks)
  {
    BroadcastRoundTripIff(chat, user, ks, text, media, now);
    forall c | c in chat.contacts && c.id in ks ensures Joins(chat, ks, user, c) {
      FindsIt(chat, c);
      var i :| 0 <= i < |ks| && ks[i] == c.id;
      assert Customer(chat, ks[i]).Some?;
      assert Customer(chat, ks[i]) == c.invitedUserId;
    }
    if OneContactPerPair(chat) {
      forall c | c in chat.contacts && Joins(chat, ks, user, c) ensures c.id in ks {
        JoinedContactIsListed(chat, ks, user, c);
      }
    }
  }

  /** Whatever happens afterwards, a broadcast keeps its seller and its contacts. */
  lemma {:induction false} RunKeepsBroadcastContacts(chat: Chat, ops: seq<Op>, id: BroadcastId)
    requires FreshIds(chat) && id in chat.broadcasts
    ensures FreshIds(Run(chat, ops)) && id in Run(chat, ops).broadcasts
    ensures BroadcastContactIds(Run(chat, ops), id) == BroadcastContactIds(chat, id)
    decreases ops
  {
    if ops != [] {
      var next := Apply(chat, ops[0]);
      StepKeepsFreshIds(chat, ops[0]);
      RunKeepsBroadcastContacts(next, ops[1..], id);
      assert forall u :: (id, u) in next.recipients <==> (id, u) in chat.recipients;
      assert forall c :: Reaches(next.recipients, id, chat.broadcasts[id], c) <==> Reaches(chat.recipients, id, chat.broadcasts[id], c);
    }
  }

  // ---------------------------------------------------------------------------------------
  // Counts pushed while a broadcast is being created
  // ---------------------------------------------------------------------------------------

  lemma {:induction false} CountWhereAppend(a: seq<Message>, b: seq<Message>, k: ContactId, condition: Condition, sender: UserId)
    ensures CountUnreadWhere(a + b, k, condition, sender) == CountUnreadWhere(a, k, condition, sender) + CountUnreadWhere(b, k, condition, sender)
  {
    if b == [] {
      assert a + b == a;
    } else {
      CountWhereAppend(a, b[..|b| - 1], k, condition, sender);
      assert (a + b)[..|a + b| - 1] == a + b[..|b| - 1];
      assert (a + b)[|a + b| - 1] == b[|b| - 1];
    }
  }

  lemma {:induction false} CountsAsTagged(log: seq<Message>, k: ContactId, condition: Condition, sender: UserId, id: BroadcastId)
    requires forall m | m in log :: m.senderId == sender && !m.read && !m.deleted && m.broadcastId == Some(id) && Meets(condition, m.createdAt)
    ensures CountUnreadWhere(log, k, condition, sender) == CountTagged(log, k, id)
  {
    if log != [] { CountsAsTagged(log[..|log| - 1], k, condition, sender, id); }
  }

  lemma {:induction false} FanoutIsNew(ks: seq<ContactId>, user: UserId, drafts: seq<Draft>, id: BroadcastId, now: Time)
    ensures forall m | m in Fanout(ks, user, drafts, id, now) :: !m.read && !m.deleted && m.createdAt == now
  {
    if ks != [] { FanoutIsNew(ks[..|ks| - 1], user, drafts, id, now); }
  }

  /** The count that accompanies a broadcast message is taken outside the transaction that stores it: for a
      receiver who blocks nobody it stays behind their own list by all of the broadcast's messages to them. */
  lemma PushedCountLagsBehind(chat: Chat, user: UserId, ks: seq<ContactId>, text: Option<string>, media: seq<Upload>, now: Time, contact: Contact, receiver: UserId)
    requires FreshIds(chat) && user in chat.liveUsers && RecipientsFit(chat, ks) && contact.id in ks
    requires Other(contact, receiver) == Some(user) && (receiver, user) !in chat.blocks
    requires forall d | d in chat.deletions :: d.createdAt < now
    ensures var after := CreateBroadcast(chat, user, ks, text, media, now);
            CountUnread(Conversation(after, contact, receiver), user)
            == PushedUnread(chat, contact.id, receiver, user) + PerContact(text, media)
  {
    var after := CreateBroadcast(chat, user, ks, text, media, now);
    var id, k, drafts := chat.nextBroadcast, contact.id, Drafts(text, media);
    var extra := Fanout(ks, user, drafts, id, now);
    PushedCountAgrees(after, contact, receiver, user);
    var lastDelete := LastDelete(chat.deletions, k, receiver);
    var condition := if lastDelete.Some? then MoreThan(lastDelete.value) else Always;
    if lastDelete.Some? {
      var n :| 0 <= n < |chat.deletions| && chat.deletions[n] == Deletion(k, receiver, lastDelete.value);
      assert chat.deletions[n] in chat.deletions;
    }
    assert Meets(condition, now);
    DistinctContacts(chat, ks);
    FanoutTags(ks, user, drafts, id, now);
    FanoutIsNew(ks, user, drafts, id, now);
    FanoutCounts(ks, user, drafts, id, now, k);
    CountWhereAppend(chat.messages, extra, k, condition, user);
    CountsAsTagged(extra, k, condition, user, id);
  }
}
