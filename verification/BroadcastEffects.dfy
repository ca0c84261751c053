/**
 What a new broadcast says to each contact and leaves in the tables, and what the operations that send
 nothing write, told from the rows themselves.
 */
module BroadcastEffects {
  import opened Wrappers
  import opened ChatLog
  import opened ChatRuns
  import opened Broadcasts
  import opened ChatEffects
  import Text

  // ---------------------------------------------------------------------------------------
  // What is said
  // ---------------------------------------------------------------------------------------

  /** There is something other than white space in the text. */
  ghost predicate SaysSomething(text: Option<string>) {
    text.Some? && exists i | 0 <= i < |text.value| :: !Text.IsSpace(text.value[i])
  }

  /** In order, one message per file with that file, the kind its MIME type demands and no text; then, if the text
      says something, one TEXT with exactly that text and no file.  All are new and bear the broadcast's time. */
  ghost predicate SaysBroadcast(msgs: seq<Message>, k: ContactId, sender: UserId, text: Option<string>, media: seq<Upload>,
                                id: BroadcastId, now: Time) {
    && |msgs| == |media| + (if SaysSomething(text) then 1 else 0)
    && (forall i | 0 <= i < |media| ::
          && KindFits(msgs[i].kind, media[i].mimeType)
          && msgs[i] == Message(k, sender, msgs[i].kind, None, Some(media[i].fileId), Some(id), now, false, false))
    && (SaysSomething(text) ==> msgs[|media|] == Message(k, sender, TEXT, text, None, Some(id), now, false, false))
  }

  lemma SaysSomethingIff(text: Option<string>)
    ensures SaysSomething(text) <==> HasText(text)
  {
    if text.Some? { Text.TrimIsEmptyIff(text.value); }
  }

  lemma DraftsSay(k: ContactId, sender: UserId, text: Option<string>, media: seq<Upload>, id: BroadcastId, now: Time)
    ensures SaysBroadcast(AddressAll(k, sender, Drafts(text, media), id, now), k, sender, text, media, id, now)
  {
    SaysSomethingIff(text);
    forall i | 0 <= i < |media| ensures KindFits(KindOf(media[i].mimeType), media[i].mimeType) {
      KindOfFits(media[i].mimeType);
    }
  }

  lemma {:induction false} FanoutSlice(ks: seq<ContactId>, sender: UserId, drafts: seq<Draft>, id: BroadcastId, now: Time, i: nat)
    requires i < |ks|
    ensures i * |drafts| <= (i + 1) * |drafts| <= |Fanout(ks, sender, drafts, id, now)|
    ensures Fanout(ks, sender, drafts, id, now)[i * |drafts|..(i + 1) * |drafts|] == AddressAll(ks[i], sender, drafts, id, now)
  {
    var n := |ks| - 1;
    var front, last := Fanout(ks[..n], sender, drafts, id, now), AddressAll(ks[n], sender, drafts, id, now);
    FanoutLength(ks[..n], sender, drafts, id, now);
    FanoutLength(ks, sender, drafts, id, now);
    assert (i + 1) * |drafts| == i * |drafts| + |drafts|;
    if i == n {
      assert (front + last)[|front|..|front| + |drafts|] == last;
    } else {
      FanoutSlice(ks[..n], sender, drafts, id, now, i);
      assert (front + last)[i * |drafts|..(i + 1) * |drafts|] == front[i * |drafts|..(i + 1) * |drafts|];
    }
  }

  lemma FanoutSays(ks: seq<ContactId>, user: UserId, text: Option<string>, media: seq<Upload>, id: BroadcastId, now: Time, i: nat)
    requires i < |ks|
    ensures var all := Fanout(ks, user, Drafts(text, media), id, now);
            var n := |media| + (if SaysSomething(text) then 1 else 0);
            && |all| == |ks| * n && 0 <= i * n <= (i + 1) * n <= |ks| * n
            && SaysBroadcast(all[i * n..(i + 1) * n], ks[i], user, text, media, id, now)
  {
    var drafts := Drafts(text, media);
    assert |drafts| == |media| + (if SaysSomething(text) then 1 else 0) by { SaysSomethingIff(text); }
    FanoutLength(ks, user, drafts, id, now);
    FanoutSlice(ks, user, drafts, id, now, i);
    DraftsSay(ks[i], user, text, media, id, now);
  }

  /** The new messages are grouped by contact, in the order of the contacts, and each group says the broadcast. */
  lemma BroadcastSays(chat: Chat, user: UserId, ks: seq<ContactId>, text: Option<string>, media: seq<Upload>, now: Time, i: nat)
    requires user in chat.liveUsers && RecipientsFit(chat, ks) && i < |ks|
    ensures var after := Apply(chat, Create(user, ks, text, media, now));
            var n := |media| + (if SaysSomething(text) then 1 else 0);
            && chat.messages <= after.messages && |after.messages| == |chat.messages| + |ks| * n
            && 0 <= i * n <= (i + 1) * n <= |ks| * n
            && SaysBroadcast(after.messages[|chat.messages|..][i * n..(i + 1) * n], ks[i], user, text, media, chat.nextBroadcast, now)
  {
    var after := Apply(chat, Create(user, ks, text, media, now));
    FanoutSays(ks, user, text, media, chat.nextBroadcast, now, i);
    assert after.messages[|chat.messages|..] == Fanout(ks, user, Drafts(text, media), chat.nextBroadcast, now);
  }

  // ---------------------------------------------------------------------------------------
  // Who is written down
  // ---------------------------------------------------------------------------------------

  /** The contact of that id names this customer. */
  ghost predicate Names(chat: Chat, k: ContactId, customer: UserId) {
    exists c | c in chat.contacts :: c.id == k && c.invitedUserId == Some(customer)
  }

  lemma NamesIff(chat: Chat, k: ContactId, customer: UserId)
    requires UniqueContactIds(chat)
    ensures Names(chat, k, customer) <==> Customer(chat, k) == Some(customer)
  {
    if c :| c in chat.contacts && c.id == k && c.invitedUserId == Some(customer) { FindsIt(chat, c); }
  }

  ghost predicate NamesSomebody(chat: Chat, k: ContactId) {
    exists customer: UserId :: Names(chat, k, customer)
  }

  /** Every contact names a customer, and no two name the same one. */
  ghost predicate NameDifferentCustomers(chat: Chat, ks: seq<ContactId>) {
    && (forall i | 0 <= i < |ks| :: NamesSomebody(chat, ks[i]))
    && (forall i, j, c: UserId | 0 <= i < j < |ks| && Names(chat, ks[i], c) :: !Names(chat, ks[j], c))
  }

  lemma FitNames(chat: Chat, ks: seq<ContactId>)
    requires UniqueContactIds(chat) && RecipientsFit(chat, ks)
    ensures NameDifferentCustomers(chat, ks)
  {
    forall i | 0 <= i < |ks| ensures NamesSomebody(chat, ks[i]) {
      assert Customer(chat, ks[i]).Some?;
      NamesIff(chat, ks[i], Customer(chat, ks[i]).value);
    }
    forall i, j, c: UserId | 0 <= i < j < |ks| && Names(chat, ks[i], c) ensures !Names(chat, ks[j], c) {
      NamesIff(chat, ks[i], c);
      NamesIff(chat, ks[j], c);
    }
  }

  lemma NamesFit(chat: Chat, ks: seq<ContactId>)
    requires UniqueContactIds(chat) && NameDifferentCustomers(chat, ks)
    ensures RecipientsFit(chat, ks)
  {
    forall i | 0 <= i < |ks| ensures Customer(chat, ks[i]).Some? && Names(chat, ks[i], Customer(chat, ks[i]).value) {
      var c: UserId :| Names(chat, ks[i], c);
      NamesIff(chat, ks[i], c);
    }
    forall i, j | 0 <= i < j < |ks| ensures Customer(chat, ks[i]) != Customer(chat, ks[j]) {
      var c := Customer(chat, ks[i]).value;
      assert Names(chat, ks[i], c);
      NamesIff(chat, ks[j], c);
    }
  }

  /** A broadcast is created exactly when its sender is a live user, every contact names a customer, and no two name the
      same one. */
  lemma CreatedIff(chat: Chat, user: UserId, ks: seq<ContactId>, text: Option<string>, media: seq<Upload>, now: Time)
    requires UniqueContactIds(chat) && FreshIds(chat)
    ensures chat.nextBroadcast in Apply(chat, Create(user, ks, text, media, now)).broadcasts
            <==> user in chat.liveUsers && NameDifferentCustomers(chat, ks)
  {
    if RecipientsFit(chat, ks) { FitNames(chat, ks); }
    if NameDifferentCustomers(chat, ks) { NamesFit(chat, ks); }
  }

  /** What a new broadcast leaves in the tables beside its messages: itself with its seller, one row for each customer
      named, and the next id; if it is not created, a used-up id at most. */
  lemma CreateLeaves(chat: Chat, user: UserId, ks: seq<ContactId>, text: Option<string>, media: seq<Upload>, now: Time)
    requires UniqueContactIds(chat) && FreshIds(chat)
    ensures var after := Apply(chat, Create(user, ks, text, media, now));
            var id := chat.nextBroadcast;
            if id in after.broadcasts then
              && after == chat.(messages := after.messages, broadcasts := chat.broadcasts[id := user], recipients := after.recipients, nextBroadcast := id + 1)
              && forall r :: r in after.recipients <==> r in chat.recipients || (r.0 == id && exists i | 0 <= i < |ks| :: Names(chat, ks[i], r.1))
            else after == if user in chat.liveUsers then chat.(nextBroadcast := id + 1) else chat
  {
    var after := Apply(chat, Create(user, ks, text, media, now));
    var id := chat.nextBroadcast;
    if id in after.broadcasts {
      forall r: (BroadcastId, UserId)
        ensures r in after.recipients <==> r in chat.recipients || (r.0 == id && exists i | 0 <= i < |ks| :: Names(chat, ks[i], r.1))
      {
        if r in RecipientRows(chat, ks, id) {
          var i :| 0 <= i < |ks| && Customer(chat, ks[i]).Some? && r == (id, Customer(chat, ks[i]).value);
          NamesIff(chat, ks[i], r.1);
        }
        if i :| 0 <= i < |ks| && Names(chat, ks[i], r.1) && r.0 == id {
          NamesIff(chat, ks[i], r.1);
          assert (id, Customer(chat, ks[i]).value) in RecipientRows(chat, ks, id);
        }
      }
    }
  }

  /** The contacts of a broadcast: those that tie its seller, in either role, to one of its recipients. */
  lemma ContactIdsAre(chat: Chat, id: BroadcastId, k: ContactId)
    ensures k in BroadcastContactIds(chat, id) <==>
            && id in chat.broadcasts
            && exists c, customer: UserId | c in chat.contacts && c.id == k && c.invitedUserId == Some(customer) ::
                 || (c.sellerId == chat.broadcasts[id] && (id, customer) in chat.recipients)
                 || (customer == chat.broadcasts[id] && (id, c.sellerId) in chat.recipients)
  {
    if k in BroadcastContactIds(chat, id) {
      var c :| c in chat.contacts && Reaches(chat.recipients, id, chat.broadcasts[id], c) && c.id == k;
      assert c.invitedUserId == Some(c.invitedUserId.value);
    }
    if id in chat.broadcasts {
      forall c, customer: UserId | c in chat.contacts && c.id == k && c.invitedUserId == Some(customer)
           && ((c.sellerId == chat.broadcasts[id] && (id, customer) in chat.recipients)
               || (customer == chat.broadcasts[id] && (id, c.sellerId) in chat.recipients))
        ensures k in BroadcastContactIds(chat, id)
      {
        assert Reaches(chat.recipients, id, chat.broadcasts[id], c);
      }
    }
  }

  // ---------------------------------------------------------------------------------------
  // Operations that send nothing
  // ---------------------------------------------------------------------------------------

  /** A block is written down with its time once, between known users, and removed by its owner. */
  lemma BlockingWrites(chat: Chat, user: UserId, other: UserId, at: Time)
    ensures Apply(chat, Block(user, other, at))
            == if (user, other) in chat.blocks || user !in chat.users || other !in chat.users then chat
               else chat.(blocks := chat.blocks[(user, other) := at])
    ensures Apply(chat, Unblock(user, other)) == chat.(blocks := map p | p in chat.blocks && p != (user, other) :: chat.blocks[p])
  {
    assert chat.blocks - {(user, other)} == map p | p in chat.blocks && p != (user, other) :: chat.blocks[p];
  }

  /** "Delete chat" writes one row for a known user and contact. */
  lemma DeletingWrites(chat: Chat, k: ContactId, user: UserId, at: Time)
    ensures Apply(chat, DeleteView(k, user, at))
            == if user in chat.users && exists c | c in chat.contacts :: c.id == k
               then chat.(deletions := chat.deletions + [Deletion(k, user, at)]) else chat
  {
  }

  /** Reading and removing mark the messages of the contact, and no others, in that one column. */
  lemma MarkingWrites(chat: Chat, k: ContactId, i: nat)
    requires i < |chat.messages|
    ensures var read, wiped := Apply(chat, MarkRead(k)), Apply(chat, Wipe(k));
            && read == chat.(messages := read.messages) && wiped == chat.(messages := wiped.messages)
            && |read.messages| == |wiped.messages| == |chat.messages|
            && read.messages[i] == (if chat.messages[i].contactId == k && exists c | c in chat.contacts :: c.id == k
                                    then chat.messages[i].(read := true) else chat.messages[i])
            && wiped.messages[i] == if chat.messages[i].contactId == k then chat.messages[i].(deleted := true) else chat.messages[i]
  {
  }

  /** A run carries out its operations one after the other. */
  lemma RunIs(chat: Chat, ops: seq<Op>, op: Op)
    ensures Run(chat, []) == chat && Run(chat, ops + [op]) == Apply(Run(chat, ops), op)
  {
    RunAppend(chat, ops, [op]);
    assert Run(Apply(Run(chat, ops), op), []) == Apply(Run(chat, ops), op);
  }
}
