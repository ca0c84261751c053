/**
 What the chat, block and broadcast operations do to the stored data, and what any run of them
 keeps or changes in the views of `ChatLog`.
 */
module ChatRuns {
  import opened Wrappers
  import opened ChatLog
  import Text

  // ---------------------------------------------------------------------------------------
  // Composing messages
  // ---------------------------------------------------------------------------------------

  datatype Upload = Upload(fileId: nat, mimeType: string, storedAt: Time)

  datatype Payload = Payload(kind: Kind, content: Option<string>, media: seq<Upload>, storedAt: Time)

  function KindOf(mimeType: string): Kind {
    if "video/" <= mimeType then VIDEO else if "image/" <= mimeType then IMAGE else FILE
  }

  /** One message per uploaded file, each with the text; or a single message when there is no file. */
  function Compose(k: ContactId, sender: UserId, payload: Payload, broadcastId: Option<BroadcastId>): seq<Message> {
    if payload.media != [] then
      seq(|payload.media|, i requires 0 <= i < |payload.media| =>
        var file := payload.media[i];
        Message(k, sender, KindOf(file.mimeType), payload.content, Some(file.fileId), broadcastId, file.storedAt, false, false))
    else
      [Message(k, sender, payload.kind, payload.content, None, broadcastId, payload.storedAt, false, false)]
  }

  function HasText(text: Option<string>): bool {
    text.Some? && Text.Trim(text.value) != ""
  }

  datatype Draft = Draft(kind: Kind, content: Option<string>, mediaKey: Option<nat>)

  /** What a new broadcast says to each contact: the files, then the text unless it is blank. */
  function Drafts(text: Option<string>, media: seq<Upload>): seq<Draft> {
    seq(|media|, i requires 0 <= i < |media| => Draft(KindOf(media[i].mimeType), None, Some(media[i].fileId)))
    + if HasText(text) then [Draft(TEXT, text, None)] else []
  }

  function Addressed(k: ContactId, sender: UserId, draft: Draft, id: BroadcastId, now: Time): Message {
    Message(k, sender, draft.kind, draft.content, draft.mediaKey, Some(id), now, false, false)
  }

  function AddressAll(k: ContactId, sender: UserId, drafts: seq<Draft>, id: BroadcastId, now: Time): (r: seq<Message>)
    ensures |r| == |drafts| && forall i | 0 <= i < |r| :: r[i] == Addressed(k, sender, drafts[i], id, now)
  {
    seq(|drafts|, i requires 0 <= i < |drafts| => Addressed(k, sender, drafts[i], id, now))
  }

  function Fanout(ks: seq<ContactId>, sender: UserId, drafts: seq<Draft>, id: BroadcastId, now: Time): seq<Message> {
    if ks == [] then []
    else Fanout(ks[..|ks| - 1], sender, drafts, id, now) + AddressAll(ks[|ks| - 1], sender, drafts, id, now)
  }

  // ---------------------------------------------------------------------------------------
  // Operations
  // ---------------------------------------------------------------------------------------

  datatype Op =
    | Send(k: ContactId, user: UserId, payload: Payload)
    | Relay(broadcastId: BroadcastId, k: ContactId, user: UserId, payload: Payload)
    | Create(user: UserId, ks: seq<ContactId>, text: Option<string>, media: seq<Upload>, at: Time)
    | Block(user: UserId, other: UserId, at: Time)
    | Unblock(user: UserId, other: UserId)
    | DeleteView(k: ContactId, user: UserId, at: Time)
    | Wipe(k: ContactId)
    | MarkRead(k: ContactId)

  function Find(contacts: seq<Contact>, k: ContactId): (r: Option<Contact>)
    ensures r.Some? ==> r.value in contacts && r.value.id == k
    ensures r.None? ==> forall c | c in contacts :: c.id != k
  {
    if contacts == [] then None
    else if contacts[0].id == k then Some(contacts[0])
    else Find(contacts[1..], k)
  }

  /** `contactService.findOne`: contacts of a customer who has been deleted are not found. */
  function FindLive(chat: Chat, k: ContactId): (r: Option<Contact>)
    ensures r.Some? ==> r.value in chat.contacts && r.value.id == k
  {
    var contact := Find(chat.contacts, k);
    if contact.Some? && contact.value.invitedUserId.Some? && contact.value.invitedUserId.value !in chat.liveUsers then None else contact
  }

  predicate IsParticipant(contact: Contact, user: UserId) {
    contact.sellerId == user || contact.invitedUserId == Some(user)
  }

  /** The guards of `send_message`: a known sender who is a party of the contact, and a customer who has accepted. */
  predicate MaySend(chat: Chat, k: ContactId, user: UserId) {
    && user in chat.liveUsers
    && var contact := FindLive(chat, k);
    && contact.Some? && IsParticipant(contact.value, user)
    && (contact.value.sellerId == user ==> contact.value.invitedUserId.Some?)
  }

  /** A new block between two known users. */
  predicate MayBlock(chat: Chat, user: UserId, other: UserId) {
    (user, other) !in chat.blocks && user in chat.users && other in chat.users
  }

  predicate EitherBlocks(chat: Chat, a: UserId, b: UserId) {
    (a, b) in chat.blocks || (b, a) in chat.blocks
  }

  /** The guards of `send_broadcast` for one contact. */
  predicate MayRelay(chat: Chat, id: BroadcastId, k: ContactId, user: UserId) {
    && id in chat.broadcasts && user in chat.liveUsers
    && var contact := FindLive(chat, k);
    && contact.Some?
    && var receiver := Other(contact.value, user);
    && receiver.Some? && !EitherBlocks(chat, user, receiver.value)
  }

  function Customer(chat: Chat, k: ContactId): Option<UserId> {
    var contact := Find(chat.contacts, k);
    if contact.Some? then contact.value.invitedUserId else None
  }

  /** Storing the recipients succeeds: each contact names a customer, and no two name the same one. */
  predicate RecipientsFit(chat: Chat, ks: seq<ContactId>) {
    && (forall i | 0 <= i < |ks| :: Customer(chat, ks[i]).Some?)
    && (forall i, j | 0 <= i < j < |ks| :: Customer(chat, ks[i]) != Customer(chat, ks[j]))
  }

  function RecipientRows(chat: Chat, ks: seq<ContactId>, id: BroadcastId): set<(BroadcastId, UserId)> {
    set i | 0 <= i < |ks| && Customer(chat, ks[i]).Some? :: (id, Customer(chat, ks[i]).value)
  }

  /** `createBroadcast`: one transaction; when storing the recipients fails only the id has been used up. */
  function CreateBroadcast(chat: Chat, user: UserId, ks: seq<ContactId>, text: Option<string>, media: seq<Upload>, now: Time): Chat {
    if user !in chat.liveUsers then chat
    else if !RecipientsFit(chat, ks) then chat.(nextBroadcast := chat.nextBroadcast + 1)
    else
      var id := chat.nextBroadcast;
      chat.(
        nextBroadcast := id + 1,
        broadcasts := chat.broadcasts[id := user],
        recipients := chat.recipients + RecipientRows(chat, ks, id),
        messages := chat.messages + Fanout(ks, user, Drafts(text, media), id, now))
  }

  function Mapped(log: seq<Message>, f: Message -> Message): (r: seq<Message>)
    ensures |r| == |log| && forall i | 0 <= i < |log| :: r[i] == f(log[i])
  {
    seq(|log|, i requires 0 <= i < |log| => f(log[i]))
  }

  function Apply(chat: Chat, op: Op): Chat {
    match op
    case Send(k, user, payload) =>
      if MaySend(chat, k, user) then chat.(messages := chat.messages + Compose(k, user, payload, None)) else chat
    case Relay(id, k, user, payload) =>
      if MayRelay(chat, id, k, user) then chat.(messages := chat.messages + Compose(k, user, payload, Some(id))) else chat
    case Create(user, ks, text, media, at) => CreateBroadcast(chat, user, ks, text, media, at)
    case Block(user, other, at) =>
      if MayBlock(chat, user, other) then chat.(blocks := chat.blocks[(user, other) := at]) else chat
    case Unblock(user, other) => chat.(blocks := chat.blocks - {(user, other)})
    case DeleteView(k, user, at) =>
      if user in chat.users && Find(chat.contacts, k).Some? then chat.(deletions := chat.deletions + [Deletion(k, user, at)]) else chat
    case Wipe(k) => chat.(messages := Mapped(chat.messages, (m: Message) => if m.contactId == k then m.(deleted := true) else m))
    case MarkRead(k) =>
      if Find(chat.contacts, k).Some?
      then chat.(messages := Mapped(chat.messages, (m: Message) => if m.contactId == k then m.(read := true) else m))
      else chat
  }

  function Run(chat: Chat, ops: seq<Op>): Chat
    decreases ops
  {
    if ops == [] then chat else Run(Apply(chat, ops[0]), ops[1..])
  }

  // ---------------------------------------------------------------------------------------
  // Block, then unblock
  // ---------------------------------------------------------------------------------------

  predicate Touches(op: Op, a: UserId, b: UserId) {
    (op.Block? || op.Unblock?) && op.user == a && op.other == b
  }

  /** The same data, except that in the first `a` blocks `b`. */
  predicate Twins(blocked: Chat, open: Chat, a: UserId, b: UserId, t: Time) {
    (a, b) !in open.blocks && blocked == open.(blocks := open.blocks[(a, b) := t])
  }

  /** A relayed broadcast between the two users that only the block would hold back. */
  predicate Held(chat: Chat, op: Op, a: UserId, b: UserId) {
    && op.Relay? && MayRelay(chat, op.broadcastId, op.k, op.user)
    && var receiver := Other(FindLive(chat, op.k).value, op.user).value;
    && ((op.user == a && receiver == b) || (op.user == b && receiver == a))
  }

  predicate HeldSomewhere(chat: Chat, ops: seq<Op>, a: UserId, b: UserId)
    decreases ops
  {
    ops != [] && (Held(chat, ops[0], a, b) || HeldSomewhere(Apply(chat, ops[0]), ops[1..], a, b))
  }

  lemma TwinsRelay(blocked: Chat, open: Chat, op: Op, a: UserId, b: UserId, t: Time)
    requires Twins(blocked, open, a, b, t) && op.Relay?
    ensures MayRelay(blocked, op.broadcastId, op.k, op.user)
            <==> MayRelay(open, op.broadcastId, op.k, op.user) && !Held(open, op, a, b)
  {
    var contact := FindLive(open, op.k);
    if contact.Some? && Other(contact.value, op.user).Some? {
      var receiver := Other(contact.value, op.user).value;
      assert EitherBlocks(blocked, op.user, receiver)
             <==> EitherBlocks(open, op.user, receiver) || (op.user, receiver) == (a, b) || (receiver, op.user) == (a, b);
    }
  }

  lemma TwinsBlocks(blocked: Chat, open: Chat, op: Op, a: UserId, b: UserId, t: Time)
    requires Twins(blocked, open, a, b, t) && !Touches(op, a, b) && (op.Block? || op.Unblock?)
    ensures Twins(Apply(blocked, op), Apply(open, op), a, b, t)
  {
    assert (op.user, op.other) != (a, b);
    assert Apply(blocked, op).blocks == Apply(open, op).blocks[(a, b) := t];
  }

  lemma TwinsRelayStep(blocked: Chat, open: Chat, op: Op, a: UserId, b: UserId, t: Time)
    requires Twins(blocked, open, a, b, t) && op.Relay?
    ensures !Held(open, op, a, b) ==> Twins(Apply(blocked, op), Apply(open, op), a, b, t)
    ensures Held(open, op, a, b) ==> Behind(Apply(blocked, op), Apply(open, op), a, b)
  {
    TwinsRelay(blocked, open, op, a, b, t);
    assert open.blocks == blocked.blocks - {(a, b)};
  }

  /** Operations that pay no heed to blocks. */
  predicate Heedless(op: Op) {
    !op.Relay? && !op.Block? && !op.Unblock?
  }

  lemma TwinsHeedless(blocked: Chat, open: Chat, op: Op, a: UserId, b: UserId, t: Time)
    requires Twins(blocked, open, a, b, t) && Heedless(op)
    ensures Twins(Apply(blocked, op), Apply(open, op), a, b, t)
  {
    if op.Create? {
      assert forall k :: Customer(blocked, k) == Customer(open, k);
    }
  }

  lemma TwinsStep(blocked: Chat, open: Chat, op: Op, a: UserId, b: UserId, t: Time)
    requires Twins(blocked, open, a, b, t) && !Touches(op, a, b)
    ensures !Held(open, op, a, b) ==> Twins(Apply(blocked, op), Apply(open, op), a, b, t)
    ensures Held(open, op, a, b) ==> Behind(Apply(blocked, op), Apply(open, op), a, b)
  {
    if op.Relay? {
      TwinsRelayStep(blocked, open, op, a, b, t);
    } else if Heedless(op) {
      TwinsHeedless(blocked, open, op, a, b, t);
    } else {
      TwinsBlocks(blocked, open, op, a, b, t);
    }
  }

  /** The blocked run has fewer messages, and knows the same users, contacts, broadcasts and other blocks. */
  predicate Behind(blocked: Chat, open: Chat, a: UserId, b: UserId) {
    && blocked.users == open.users && blocked.liveUsers == open.liveUsers && blocked.contacts == open.contacts
    && blocked.broadcasts == open.broadcasts && blocked.nextBroadcast == open.nextBroadcast
    && open.blocks == blocked.blocks - {(a, b)} && (a, b) in blocked.blocks
    && |blocked.messages| < |open.messages|
  }

  lemma BehindBlocks(blocked: Chat, open: Chat, op: Op, a: UserId, b: UserId)
    requires Behind(blocked, open, a, b) && !Touches(op, a, b) && (op.Block? || op.Unblock?)
    ensures Behind(Apply(blocked, op), Apply(open, op), a, b)
  {
    assert (op.user, op.other) != (a, b);
    assert Apply(open, op).blocks == Apply(blocked, op).blocks - {(a, b)};
  }

  lemma BehindHeedless(blocked: Chat, open: Chat, op: Op, a: UserId, b: UserId)
    requires Behind(blocked, open, a, b) && Heedless(op)
    ensures Behind(Apply(blocked, op), Apply(open, op), a, b)
  {
    if op.Create? {
      assert forall k :: Customer(blocked, k) == Customer(open, k);
    }
  }

  lemma BehindStep(blocked: Chat, open: Chat, op: Op, a: UserId, b: UserId)
    requires Behind(blocked, open, a, b) && !Touches(op, a, b)
    ensures Behind(Apply(blocked, op), Apply(open, op), a, b)
  {
    if op.Relay? {
      assert MayRelay(blocked, op.broadcastId, op.k, op.user) ==> MayRelay(open, op.broadcastId, op.k, op.user);
    } else if Heedless(op) {
      BehindHeedless(blocked, open, op, a, b);
    } else {
      BehindBlocks(blocked, open, op, a, b);
    }
  }

  lemma {:induction false} BehindRun(blocked: Chat, open: Chat, ops: seq<Op>, a: UserId, b: UserId)
    requires Behind(blocked, open, a, b) && forall op | op in ops :: !Touches(op, a, b)
    ensures Behind(Run(blocked, ops), Run(open, ops), a, b)
    decreases ops
  {
    if ops != [] {
      BehindStep(blocked, open, ops[0], a, b);
      BehindRun(Apply(blocked, ops[0]), Apply(open, ops[0]), ops[1..], a, b);
    }
  }

  lemma {:induction false} TwinsRun(blocked: Chat, open: Chat, ops: seq<Op>, a: UserId, b: UserId, t: Time)
    requires Twins(blocked, open, a, b, t) && forall op | op in ops :: !Touches(op, a, b)
    ensures !HeldSomewhere(open, ops, a, b) ==> Twins(Run(blocked, ops), Run(open, ops), a, b, t)
    ensures HeldSomewhere(open, ops, a, b) ==> Behind(Run(blocked, ops), Run(open, ops), a, b)
    decreases ops
  {
    if ops != [] {
      TwinsStep(blocked, open, ops[0], a, b, t);
      if Held(open, ops[0], a, b) {
        BehindRun(Apply(blocked, ops[0]), Apply(open, ops[0]), ops[1..], a, b);
      } else {
        TwinsRun(Apply(blocked, ops[0]), Apply(open, ops[0]), ops[1..], a, b, t);
      }
    }
  }

  /** Blocking someone and unblocking them later leaves everything as if the block had never been,
      messages sent meanwhile included, exactly when no broadcast between the two was relayed meanwhile. */
  lemma BlockLeavesNoTraceIff(chat: Chat, ops: seq<Op>, a: UserId, b: UserId, t: Time)
    requires MayBlock(chat, a, b) && forall op | op in ops :: !Touches(op, a, b)
    ensures Run(chat, [Block(a, b, t)] + ops + [Unblock(a, b)]) == Run(chat, ops) <==> !HeldSomewhere(chat, ops, a, b)
  {
    var blocked := Apply(chat, Block(a, b, t));
    TwinsRun(blocked, chat, ops, a, b, t);
    RunAppend(chat, [Block(a, b, t)] + ops, [Unblock(a, b)]);
    RunAppend(chat, [Block(a, b, t)], ops);
    assert Run(chat, [Block(a, b, t)]) == blocked by { assert Run(blocked, []) == blocked; }
    var last := Run(blocked, ops);
    assert Run(last, [Unblock(a, b)]) == Apply(last, Unblock(a, b)) by { assert Run(Apply(last, Unblock(a, b)), []) == Apply(last, Unblock(a, b)); }
    if !HeldSomewhere(chat, ops, a, b) {
      assert last.blocks - {(a, b)} == Run(chat, ops).blocks;
    }
  }

  lemma {:induction false} RunAppend(chat: Chat, first: seq<Op>, second: seq<Op>)
    ensures Run(chat, first + second) == Run(Run(chat, first), second)
    decreases first
  {
    if first == [] {
      assert first + second == second;
    } else {
      RunAppend(Apply(chat, first[0]), first[1..], second);
      assert (first + second)[1..] == first[1..] + second;
    }
  }
}
