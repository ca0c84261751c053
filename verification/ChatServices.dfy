/**
 The chat, block and broadcast services at work on the stored tables, step by step as the services
 themselves proceed, each proved against its effect in `ChatRuns` and its queries in `ChatLog`.
 */
module ChatServices {
  import opened Wrappers
  import opened ChatLog
  import opened ChatRuns
  import opened Broadcasts

  /** A `receive_message` event: the message and the unread count sent along. */
  datatype Push = Push(receiver: UserId, message: Message, unread: nat)

  /** The receiver of a message in the contact, if it is to be delivered at all: no block in either
      direction, and the receiver is connected. */
  function DeliverTo(chat: Chat, k: ContactId, sender: UserId, online: set<UserId>): Option<UserId> {
    var contact := Find(chat.contacts, k);
    if contact.None? then None
    else
      var receiver := Other(contact.value, sender);
      if receiver.Some? && !EitherBlocks(chat, sender, receiver.value) && receiver.value in online then receiver else None
  }

  function Deliveries(chat: Chat, msgs: seq<Message>, sender: UserId, online: set<UserId>): seq<Push> {
    if msgs == [] then []
    else
      var last := msgs[|msgs| - 1];
      var to := DeliverTo(chat, last.contactId, sender, online);
      Deliveries(chat, msgs[..|msgs| - 1], sender, online)
      + if to.Some? then [Push(to.value, last, PushedUnread(chat, last.contactId, to.value, sender))] else []
  }

  lemma {:induction false} DeliveriesAppend(chat: Chat, a: seq<Message>, b: seq<Message>, sender: UserId, online: set<UserId>)
    ensures Deliveries(chat, a + b, sender, online) == Deliveries(chat, a, sender, online) + Deliveries(chat, b, sender, online)
  {
    if b == [] {
      assert a + b == a;
    } else {
      DeliveriesAppend(chat, a, b[..|b| - 1], sender, online);
      assert (a + b)[..|a + b| - 1] == a + b[..|b| - 1];
      assert (a + b)[|a + b| - 1] == b[|b| - 1];
    }
  }

  /** The message's chat has somebody at the other end who is connected, and neither blocks the other. */
  predicate Awaits(chat: Chat, m: Message, sender: UserId, online: set<UserId>, receiver: UserId) {
    && Find(chat.contacts, m.contactId).Some?
    && Other(Find(chat.contacts, m.contactId).value, sender) == Some(receiver)
    && receiver in online
    && (sender, receiver) !in chat.blocks && (receiver, sender) !in chat.blocks
  }

  /** The messages that somebody awaits are delivered to them, each once and in the order in which they are
      given, and no others, with the unread count of the tables: `at` tells which message each event is about. */
  lemma {:induction false} DeliveredOnceInOrder(chat: Chat, msgs: seq<Message>, sender: UserId, online: set<UserId>) returns (at: seq<nat>)
    ensures var events := Deliveries(chat, msgs, sender, online);
            && |at| == |events|
            && (forall i, j | 0 <= i < j < |at| :: at[i] < at[j])
            && (forall j | 0 <= j < |at| ::
                  && at[j] < |msgs| && events[j].message == msgs[at[j]] && Awaits(chat, msgs[at[j]], sender, online, events[j].receiver)
                  && events[j].unread == PushedUnread(chat, msgs[at[j]].contactId, events[j].receiver, sender))
            && (forall n, receiver | 0 <= n < |msgs| && Awaits(chat, msgs[n], sender, online, receiver) :: n in at)
  {
    if msgs == [] {
      at := [];
    } else {
      var n := |msgs| - 1;
      at := DeliveredOnceInOrder(chat, msgs[..n], sender, online);
      if DeliverTo(chat, msgs[n].contactId, sender, online).Some? {
        at := at + [n];
      }
    }
  }

  /** The count that goes with a message when the given messages have been stored. */
  function Announced(chat: Chat, stored: seq<Message>, k: ContactId, receiver: UserId, sender: UserId): nat {
    PushedUnread(chat.(messages := chat.messages + stored), k, receiver, sender)
  }

  /** When the sender is a party of the chat and not blocked, that is the unread count of the receiver's own
      conversation at that moment. */
  lemma AnnouncedIsOwnCount(chat: Chat, stored: seq<Message>, contact: Contact, receiver: UserId, sender: UserId)
    requires IsParticipant(contact, sender) && Other(contact, sender) == Some(receiver) && (receiver, sender) !in chat.blocks
    ensures Announced(chat, stored, contact.id, receiver, sender)
            == CountUnread(Conversation(chat.(messages := chat.messages + stored), contact, receiver), sender)
  {
    PushedCountAgrees(chat.(messages := chat.messages + stored), contact, receiver, sender);
  }

  /** The events of a relayed broadcast: one per message stored, counted as soon as that message is. */
  function Announcements(chat: Chat, stored: seq<Message>, k: ContactId, receiver: UserId, sender: UserId): (events: seq<Push>)
    ensures |events| == |stored|
  {
    if stored == [] then []
    else Announcements(chat, stored[..|stored| - 1], k, receiver, sender)
         + [Push(receiver, stored[|stored| - 1], Announced(chat, stored, k, receiver, sender))]
  }

  /** Event by event: one per message, in order, each with the unread count once its message and those before
      it have been stored. */
  lemma {:induction false} AnnouncementsAre(chat: Chat, stored: seq<Message>, k: ContactId, receiver: UserId, sender: UserId, i: nat)
    requires i < |stored|
    ensures var events := Announcements(chat, stored, k, receiver, sender);
            && |events| == |stored| && events[i].receiver == receiver && events[i].message == stored[i]
            && events[i].unread == PushedUnread(chat.(messages := chat.messages + stored[..i + 1]), k, receiver, sender)
  {
    var n := |stored| - 1;
    if i < n {
      AnnouncementsAre(chat, stored[..n], k, receiver, sender, i);
      assert stored[..n][..i + 1] == stored[..i + 1];
    } else {
      assert stored[..n + 1] == stored;
    }
  }

  /** The rows of a list: one for each listed contact, in order. */
  ghost predicate RowsFor(chat: Chat, contacts: seq<Contact>, user: UserId, rows: seq<Row>) {
    if contacts == [] then rows == []
    else
      var last := contacts[|contacts| - 1];
      if Listed(chat, last, user)
      then rows != [] && RowFor(chat, last, user, rows[|rows| - 1]) && RowsFor(chat, contacts[..|contacts| - 1], user, rows[..|rows| - 1])
      else RowsFor(chat, contacts[..|contacts| - 1], user, rows)
  }

  /** Row by row: `at` tells which contact each row is about; the contacts listed have a row each, in their order. */
  lemma {:induction false} RowsAre(chat: Chat, contacts: seq<Contact>, user: UserId, rows: seq<Row>) returns (at: seq<nat>)
    requires RowsFor(chat, contacts, user, rows)
    ensures |at| == |rows|
    ensures forall i, j | 0 <= i < j < |at| :: at[i] < at[j]
    ensures forall j | 0 <= j < |at| ::
              at[j] < |contacts| && Listed(chat, contacts[at[j]], user) && RowFor(chat, contacts[at[j]], user, rows[j])
    ensures forall n | 0 <= n < |contacts| && Listed(chat, contacts[n], user) :: n in at
  {
    if contacts == [] {
      at := [];
    } else {
      var n := |contacts| - 1;
      if Listed(chat, contacts[n], user) {
        at := RowsAre(chat, contacts[..n], user, rows[..|rows| - 1]);
        at := at + [n];
      } else {
        at := RowsAre(chat, contacts[..n], user, rows);
      }
    }
  }

  function Newest(msgs: seq<Message>): (m: Message)
    requires msgs != []
    ensures IsNewest(msgs, m)
  {
    if |msgs| == 1 then msgs[0]
    else
      var best := Newest(msgs[..|msgs| - 1]);
      if best.createdAt < msgs[|msgs| - 1].createdAt then msgs[|msgs| - 1] else best
  }

  class ChatService {
    var users: set<UserId>
    var liveUsers: set<UserId>
    var contacts: seq<Contact>
    var messages: seq<Message>
    var deletions: seq<Deletion>
    var blocks: map<(UserId, UserId), Time>
    var broadcasts: map<BroadcastId, UserId>
    var recipients: set<(BroadcastId, UserId)>
    var nextBroadcast: BroadcastId

    function Tables(): Chat
      reads this
    {
      Chat(users, liveUsers, contacts, messages, deletions, blocks, broadcasts, recipients, nextBroadcast)
    }

    ghost predicate Valid()
      reads this
    {
      FreshIds(Tables())
    }

    constructor (users: set<UserId>, liveUsers: set<UserId>, contacts: seq<Contact>)
      ensures Valid() && Tables() == Chat(users, liveUsers, contacts, [], [], map[], map[], {}, 0)
    {
      this.users, this.liveUsers, this.contacts := users, liveUsers, contacts;
      messages, deletions, blocks, broadcasts, recipients, nextBroadcast := [], [], map[], map[], {}, 0;
    }

    method CreateMessage(k: ContactId, sender: UserId, kind: Kind, content: Option<string>, mediaKey: Option<nat>,
                         broadcastId: Option<BroadcastId>, now: Time)
      returns (message: Message)
      modifies `messages
      ensures message == Message(k, sender, kind, content, mediaKey, broadcastId, now, false, false)
      ensures messages == old(messages) + [message]
    {
      message := Message(k, sender, kind, content, mediaKey, broadcastId, now, false, false);
      messages := messages + [message];
    }

    /** The messages of one `send_message` or of one contact of `send_broadcast`. */
    method StorePayload(k: ContactId, sender: UserId, payload: Payload, broadcastId: Option<BroadcastId>)
      returns (stored: seq<Message>)
      modifies `messages
      ensures stored == Compose(k, sender, payload, broadcastId)
      ensures messages == old(messages) + stored
    {
      stored := [];
      if |payload.media| > 0 {
        var i := 0;
        while i < |payload.media|
          invariant 0 <= i <= |payload.media|
          invariant stored == Compose(k, sender, payload, broadcastId)[..i]
          invariant messages == old(messages) + stored
        {
          var file := payload.media[i];
          var message := CreateMessage(k, sender, KindOf(file.mimeType), payload.content, Some(file.fileId), broadcastId, file.storedAt);
          stored := stored + [message];
          i := i + 1;
        }
      } else {
        var message := CreateMessage(k, sender, payload.kind, payload.content, None, broadcastId, payload.storedAt);
        stored := [message];
      }
    }

    /** `send_message`: stored whatever the blocks; delivered unless the receiver blocks the sender, and then
        with the count of the receiver's own list. */
    method SendMessage(user: UserId, k: ContactId, payload: Payload, online: set<UserId>)
      returns (sent: bool, pushes: seq<Push>)
      requires Valid()
      modifies `messages
      ensures Valid() && sent == old(MaySend(Tables(), k, user))
      ensures Tables() == Apply(old(Tables()), Send(k, user, payload))
      ensures !sent ==> pushes == []
      ensures sent ==>
                var contact := FindLive(Tables(), k).value;
                var receiver := Other(contact, user).value;
                var delivered := (receiver, user) !in blocks && receiver in online;
                && |pushes| == (if delivered then |Compose(k, user, payload, None)| else 0)
                && forall i | 0 <= i < |pushes| ::
                     pushes[i] == Push(receiver, Compose(k, user, payload, None)[i], CountUnread(Conversation(Tables(), contact, receiver), user))
    {
      sent, pushes := false, [];
      if user !in liveUsers { return; }
      var found := FindLive(Tables(), k);
      if found.None? { return; }
      var contact := found.value;
      if !IsParticipant(contact, user) { return; }
      if contact.sellerId == user && contact.invitedUserId.None? { return; }

      var stored := StorePayload(k, user, payload, None);
      sent := true;
      var receiver := if contact.sellerId == user then contact.invitedUserId.value else contact.sellerId;
      var isReceiverBlocked := (receiver, user) in blocks;
      var i := 0;
      while i < |stored|
        invariant 0 <= i <= |stored|
        invariant |pushes| == if !isReceiverBlocked && receiver in online then i else 0
        invariant forall j | 0 <= j < |pushes| :: pushes[j] == Push(receiver, stored[j], PushedUnread(Tables(), k, receiver, user))
      {
        if receiver in online && !isReceiverBlocked {
          pushes := pushes + [Push(receiver, stored[i], PushedUnread(Tables(), k, receiver, user))];
        }
        i := i + 1;
      }
      if !isReceiverBlocked && Other(contact, receiver) == Some(user) {
        PushedCountAgrees(Tables(), contact, receiver, user);
      }
    }

    /** One contact of `send_broadcast`: a block in either direction skips the contact altogether; otherwise each
        message is stored and, to a connected receiver, at once announced with the count at that moment. */
    method RelayBroadcast(user: UserId, id: BroadcastId, k: ContactId, payload: Payload, online: set<UserId>)
      returns (stored: seq<Message>, pushes: seq<Push>)
      requires Valid()
      modifies `messages
      ensures Valid() && Tables() == Apply(old(Tables()), Relay(id, k, user, payload))
      ensures messages == old(messages) + stored
      ensures stored != [] <==> old(MayRelay(Tables(), id, k, user))
      ensures stored == [] ==> pushes == []
      ensures stored != [] ==>
                var receiver := Other(FindLive(old(Tables()), k).value, user).value;
                pushes == if receiver in online then Announcements(old(Tables()), stored, k, receiver, user) else []
    {
      stored, pushes := [], [];
      if id !in broadcasts || user !in liveUsers { return; }
      var contact := FindLive(Tables(), k);
      if contact.None? { return; }
      var receiver := Other(contact.value, user);
      if receiver.None? { return; }
      if (receiver.value, user) in blocks || (user, receiver.value) in blocks { return; }
      StepKeepsFreshIds(Tables(), Relay(id, k, user, payload));
      stored, pushes := StoreAndAnnounce(k, user, receiver.value, payload, id, online);
    }

    method StoreAndAnnounce(k: ContactId, user: UserId, receiver: UserId, payload: Payload, id: BroadcastId, online: set<UserId>)
      returns (stored: seq<Message>, pushes: seq<Push>)
      modifies `messages
      ensures stored == Compose(k, user, payload, Some(id)) && messages == old(messages) + stored
      ensures pushes == if receiver in online then Announcements(old(Tables()), stored, k, receiver, user) else []
    {
      stored, pushes := [], [];
      ghost var before := Tables();
      if |payload.media| > 0 {
        var i := 0;
        while i < |payload.media|
          invariant 0 <= i <= |payload.media|
          invariant stored == Compose(k, user, payload, Some(id))[..i]
          invariant messages == before.messages + stored
          invariant pushes == if receiver in online then Announcements(before, stored, k, receiver, user) else []
        {
          var file := payload.media[i];
          var message := CreateMessage(k, user, KindOf(file.mimeType), payload.content, Some(file.fileId), Some(id), file.storedAt);
          if receiver in online {
            pushes := pushes + [Push(receiver, message, PushedUnread(Tables(), k, receiver, user))];
          }
          assert (stored + [message])[..|stored|] == stored;
          assert messages == before.messages + (stored + [message]);
          stored := stored + [message];
          i := i + 1;
        }
      } else {
        var message := CreateMessage(k, user, payload.kind, payload.content, None, Some(id), payload.storedAt);
        if receiver in online {
          pushes := [Push(receiver, message, PushedUnread(Tables(), k, receiver, user))];
        }
        stored := [message];
        assert stored[..0] == [];
        assert messages == before.messages + stored;
      }
    }

    /** Insert the recipients one by one; refused by the key, or by a missing customer. */
    method StoreRecipients(id: BroadcastId, ks: seq<ContactId>) returns (ok: bool)
      requires forall r | r in recipients :: r.0 != id
      modifies `recipients
      ensures ok == RecipientsFit(Tables(), ks)
      ensures ok ==> recipients == old(recipients) + RecipientRows(old(Tables()), ks, id)
    {
      ghost var before := Tables();
      var i := 0;
      ok := true;
      while i < |ks|
        invariant 0 <= i <= |ks| && Tables() == before.(recipients := recipients)
        invariant recipients == before.recipients + RecipientRows(before, ks[..i], id)
        invariant RecipientsFit(before, ks[..i])
      {
        var customer := Customer(Tables(), ks[i]);
        SameCustomers(before, Tables(), ks[..i + 1], id);
        OneMoreRecipient(before, ks, i, id);
        if customer.None? || (id, customer.value) in recipients {
          ok := false;
          MisfitLasts(before, ks, i + 1);
          SameCustomers(before, Tables(), ks, id);
          return;
        }
        recipients := recipients + {(id, customer.value)};
        i := i + 1;
      }
      assert ks[..i] == ks;
      SameCustomers(before, Tables(), ks, id);
    }

    /** The messages a new broadcast has for one contact, files first. */
    method ComposeFor(k: ContactId, user: UserId, text: Option<string>, media: seq<Upload>, id: BroadcastId, now: Time)
      returns (toSave: seq<Message>)
      ensures toSave == AddressAll(k, user, Drafts(text, media), id, now)
    {
      toSave := [];
      var j := 0;
      while j < |media|
        invariant 0 <= j <= |media|
        invariant toSave == AddressAll(k, user, Drafts(text, media)[..j], id, now)
      {
        toSave := toSave + [Message(k, user, KindOf(media[j].mimeType), None, Some(media[j].fileId), Some(id), now, false, false)];
        j := j + 1;
      }
      if HasText(text) {
        toSave := toSave + [Message(k, user, TEXT, text, None, Some(id), now, false, false)];
      }
    }

    /** Events for the messages just saved for one contact; `committed` is the log as others see it. */
    method Emit(k: ContactId, user: UserId, saved: seq<Message>, online: set<UserId>, committed: seq<Message>)
      returns (pushes: seq<Push>)
      requires forall i | 0 <= i < |saved| :: saved[i].contactId == k
      ensures pushes == Deliveries(Tables().(messages := committed), saved, user, online)
    {
      pushes := [];
      var j := 0;
      while j < |saved|
        invariant 0 <= j <= |saved|
        invariant pushes == Deliveries(Tables().(messages := committed), saved[..j], user, online)
      {
        assert saved[..j + 1][..j] == saved[..j];
        j := j + 1;
        var contact := Find(contacts, k);
        if contact.None? { continue; }
        var receiver := Other(contact.value, user);
        if receiver.None? { continue; }
        if (receiver.value, user) in blocks || (user, receiver.value) in blocks { continue; }
        if receiver.value in online {
          var unread := PushedUnread(Tables().(messages := committed), k, receiver.value, user);
          pushes := pushes + [Push(receiver.value, saved[j - 1], unread)];
        }
      }
      assert saved[..j] == saved;
    }

    /** The broadcast and its recipients, or nothing but a used-up id. */
    method OpenBroadcast(user: UserId, ks: seq<ContactId>) returns (ok: bool)
      requires Valid()
      modifies this
      ensures ok == RecipientsFit(old(Tables()), ks)
      ensures var id := old(nextBroadcast);
              Tables() == if !ok then old(Tables()).(nextBroadcast := id + 1)
                          else old(Tables()).(nextBroadcast := id + 1, broadcasts := old(broadcasts)[id := user],
                                              recipients := old(recipients) + RecipientRows(old(Tables()), ks, id))
    {
      ghost var before := Tables();
      var committed := (broadcasts, recipients);
      var id := nextBroadcast;
      broadcasts, nextBroadcast := broadcasts[id := user], id + 1;
      SameCustomers(before, Tables(), ks, id);
      ok := StoreRecipients(id, ks);
      SameCustomers(before, Tables(), ks, id);
      if !ok {
        broadcasts, recipients := committed.0, committed.1;
      }
    }

    /** `createBroadcast`: the transaction leaves all of its rows or, if a recipient cannot be stored, none;
        messages go to every contact, but events only to connected receivers with no block either way, and
        they count unread messages as they were before the transaction. */
    method CreateNewBroadcast(user: UserId, ks: seq<ContactId>, text: Option<string>, media: seq<Upload>, online: set<UserId>, now: Time)
      returns (created: bool, pushes: seq<Push>)
      requires Valid()
      modifies this
      ensures Valid() && created == (user in old(liveUsers) && RecipientsFit(old(Tables()), ks))
      ensures Tables() == Apply(old(Tables()), Create(user, ks, text, media, now))
      ensures pushes == if created then Deliveries(old(Tables()), Fanout(ks, user, Drafts(text, media), old(nextBroadcast), now), user, online) else []
    {
      created, pushes := false, [];
      if user !in liveUsers { return; }
      StepKeepsFreshIds(Tables(), Create(user, ks, text, media, now));
      var id := nextBroadcast;
      created := OpenBroadcast(user, ks);
      if !created { return; }
      SameDeliveries(old(Tables()), Tables(), Fanout(ks, user, Drafts(text, media), id, now), user, online);
      pushes := SendToAll(ks, user, text, media, id, online, now);
    }

    method SendToAll(ks: seq<ContactId>, user: UserId, text: Option<string>, media: seq<Upload>, id: BroadcastId, online: set<UserId>, now: Time)
      returns (pushes: seq<Push>)
      modifies `messages
      ensures messages == old(messages) + Fanout(ks, user, Drafts(text, media), id, now)
      ensures pushes == Deliveries(old(Tables()), Fanout(ks, user, Drafts(text, media), id, now), user, online)
    {
      pushes := [];
      var committed := messages;
      ghost var drafts := Drafts(text, media);
      var i := 0;
      while i < |ks|
        invariant 0 <= i <= |ks|
        invariant messages == committed + Fanout(ks[..i], user, drafts, id, now)
        invariant pushes == Deliveries(old(Tables()), Fanout(ks[..i], user, drafts, id, now), user, online)
      {
        assert ks[..i + 1][..i] == ks[..i];
        var saved := ComposeFor(ks[i], user, text, media, id, now);
        messages := messages + saved;
        var emitted := Emit(ks[i], user, saved, online, committed);
        DeliveriesAppend(old(Tables()), Fanout(ks[..i], user, drafts, id, now), saved, user, online);
        pushes := pushes + emitted;
        i := i + 1;
      }
      assert ks[..i] == ks;
    }

    /** `block`: refused when the block is already there, so a second call cannot move its time, and by the
        foreign keys when one of the users is not known. */
    method BlockUser(user: UserId, other: UserId, now: Time) returns (ok: bool)
      requires Valid()
      modifies `blocks
      ensures Valid() && ok == MayBlock(old(Tables()), user, other)
      ensures Tables() == Apply(old(Tables()), Block(user, other, now))
    {
      ok := (user, other) !in blocks && user in users && other in users;
      if ok { blocks := blocks[(user, other) := now]; }
    }

    method UnblockUser(user: UserId, other: UserId) returns (ok: bool)
      requires Valid()
      modifies `blocks
      ensures Valid() && ok == ((user, other) in old(blocks))
      ensures Tables() == Apply(old(Tables()), Unblock(user, other))
    {
      ok := (user, other) in blocks;
      blocks := blocks - {(user, other)};
    }

    method DeleteChatFor(user: UserId, k: ContactId, now: Time) returns (ok: bool)
      requires Valid()
      modifies `deletions
      ensures Valid() && ok == (user in users && Find(contacts, k).Some?)
      ensures Tables() == Apply(old(Tables()), DeleteView(k, user, now))
    {
      var contact := Find(contacts, k);
      ok := user in users && contact.Some?;
      if ok { deletions := deletions + [Deletion(k, user, now)]; }
    }

    /** `deleteChat`: one soft delete over the log. */
    method DeleteChat(k: ContactId)
      requires Valid()
      modifies `messages
      ensures Valid() && Tables() == Apply(old(Tables()), Wipe(k))
    {
      StepKeepsFreshIds(Tables(), Wipe(k));
      messages := Mapped(messages, (m: Message) => if m.contactId == k then m.(deleted := true) else m);
      assert messages == Apply(old(Tables()), Wipe(k)).messages;
    }

    /** `markAllMessagesRead`: one update over the log. */
    method MarkAllMessagesRead(k: ContactId) returns (ok: bool)
      requires Valid()
      modifies `messages
      ensures Valid() && ok == Find(contacts, k).Some?
      ensures Tables() == Apply(old(Tables()), MarkRead(k))
    {
      var contact := Find(contacts, k);
      ok := contact.Some?;
      if !ok { return; }
      StepKeepsFreshIds(Tables(), MarkRead(k));
      messages := Mapped(messages, (m: Message) => if m.contactId == k && !m.read then m.(read := true) else m);
      assert messages == Apply(old(Tables()), MarkRead(k)).messages;
    }

    /** `getAllChatsForCurrentUser` and the chat part of `getBulkChatsForCurrentUser`: refused to deleted users. */
    method ListChats(user: UserId) returns (rows: Option<seq<Row>>)
      ensures rows.Some? <==> user in liveUsers
      ensures rows.Some? ==> RowsFor(Tables(), contacts, user, rows.value)
    {
      if user !in liveUsers { return None; }
      var result: seq<Row> := [];
      var i := 0;
      while i < |contacts|
        invariant 0 <= i <= |contacts|
        invariant RowsFor(Tables(), contacts[..i], user, result)
      {
        var contact := contacts[i];
        assert contacts[..i + 1][..i] == contacts[..i];
        i := i + 1;
        if !Eligible(Tables(), contact, user) { continue; }
        var other := if contact.sellerId == user then contact.invitedUserId.value else contact.sellerId;
        var isBlocked := (user, other) in blocks;
        var lastDelete := LastDelete(deletions, contact.id, user);
        var blockSince := if isBlocked then Some(blocks[(user, other)]) else None;
        var condition := CreatedAtCondition(lastDelete, blockSince);
        var visible := Select(messages, contact.id, condition);
        if |visible| == 0 { continue; }
        var unread := CountUnreadWhere(messages, contact.id, condition, other);
        var row := Row(contact.id, unread, Newest(visible), isBlocked);
        assert RowFor(Tables(), contact, user, row);
        assert (result + [row])[..|result|] == result;
        result := result + [row];
      }
      assert contacts[..i] == contacts;
      return Some(result);
    }
  }

  lemma {:induction false} SameDeliveries(a: Chat, b: Chat, msgs: seq<Message>, sender: UserId, online: set<UserId>)
    requires b == a.(broadcasts := b.broadcasts, recipients := b.recipients, nextBroadcast := b.nextBroadcast)
    ensures Deliveries(a, msgs, sender, online) == Deliveries(b, msgs, sender, online)
  {
    if msgs != [] { SameDeliveries(a, b, msgs[..|msgs| - 1], sender, online); }
  }

  /** One more contact fits exactly when it names a customer whose row is not there yet, and adds that row. */
  lemma OneMoreRecipient(chat: Chat, ks: seq<ContactId>, i: nat, id: BroadcastId)
    requires i < |ks| && RecipientsFit(chat, ks[..i])
    ensures var rows := RecipientRows(chat, ks[..i], id);
            var customer := Customer(chat, ks[i]);
            && (RecipientsFit(chat, ks[..i + 1]) <==> customer.Some? && (id, customer.value) !in rows)
            && (customer.Some? ==> RecipientRows(chat, ks[..i + 1], id) == rows + {(id, customer.value)})
  {
    var front, next := ks[..i], ks[..i + 1];
    assert forall j | 0 <= j < i :: next[j] == front[j];
    if Customer(chat, ks[i]).Some? {
      var row := (id, Customer(chat, ks[i]).value);
      if row in RecipientRows(chat, front, id) {
        var j :| 0 <= j < i && Customer(chat, front[j]).Some? && row == (id, Customer(chat, front[j]).value);
        assert Customer(chat, next[j]) == Customer(chat, next[i]);
      }
      RowsGrow(chat, front, ks[i], id);
      assert next == front + [ks[i]];
    } else {
      assert Customer(chat, next[i]).None?;
    }
  }

  lemma RowsGrow(chat: Chat, front: seq<ContactId>, k: ContactId, id: BroadcastId)
    requires Customer(chat, k).Some?
    ensures RecipientRows(chat, front + [k], id) == RecipientRows(chat, front, id) + {(id, Customer(chat, k).value)}
  {
    var ks := front + [k];
    assert ks[|front|] == k;
    forall r | r in RecipientRows(chat, front, id) ensures r in RecipientRows(chat, ks, id) {
      var j :| 0 <= j < |front| && Customer(chat, front[j]).Some? && r == (id, Customer(chat, front[j]).value);
      assert ks[j] == front[j];
    }
  }

  lemma MisfitLasts(chat: Chat, ks: seq<ContactId>, n: nat)
    requires n <= |ks| && !RecipientsFit(chat, ks[..n])
    ensures !RecipientsFit(chat, ks)
  {
    assert forall j | 0 <= j < n :: ks[..n][j] == ks[j];
  }

  lemma SameCustomers(a: Chat, b: Chat, ks: seq<ContactId>, id: BroadcastId)
    requires a.contacts == b.contacts
    ensures RecipientsFit(a, ks) == RecipientsFit(b, ks) && RecipientRows(a, ks, id) == RecipientRows(b, ks, id)
  {
    assert forall k :: Customer(a, k) == Customer(b, k);
  }
}
