/**
 What the handshake guarantees: consent, soundness of acceptance, agreement of contacts and
 invitations, the guards in front of the unique index, and exact withdrawal.
 */
module Theorems {
  import opened Wrappers
  import opened Schema
  import opened Protocol
  import opened Invariant

  // ---------------------------------------------------------------------------------------
  // Two-sided consent and acceptance soundness, over whole runs
  // ---------------------------------------------------------------------------------------

  /** An accepted contact has an act of each side behind it, in order. */
  lemma TwoSidedConsent(states: seq<Store>, calls: seq<Call>, n: nat, k: ContactId)
    requires IsRun(states, calls) && n < |states|
    requires k in states[n].contacts && states[n].contacts[k].status == ContactStatus.ACCEPTED
    ensures states[n].contacts[k].invitedUserId.Some?
    ensures Consented(states[n].history, k, states[n].contacts[k].sellerId, states[n].contacts[k].invitedUserId.value)
  {
    RunsKeepInv(states, calls, n);
    assert ContactOk(states[n], k);
  }

  /** An accepted invitation points at an accepted contact of the same two parties. */
  lemma AcceptedInvitationIsSound(states: seq<Store>, calls: seq<Call>, n: nat, i: InviteId)
    requires IsRun(states, calls) && n < |states|
    requires i in states[n].invitations && states[n].invitations[i].status == InviteStatus.ACCEPTED
    ensures var s := states[n]; var row := s.invitations[i];
            && row.contactId.Some? && row.contactId.value in s.contacts
            && var contact := s.contacts[row.contactId.value];
            && contact.sellerId == row.sellerId && contact.status == ContactStatus.ACCEPTED
            && contact.invitedUserId.Some?
            && (row.customerId.Some? ==> row.customerId == contact.invitedUserId)
  {
    RunsKeepInv(states, calls, n);
    assert InvitationOk(states[n], i);
  }

  /** `verifyCustomerSellerRelation`. */
  predicate VerifyRelation(contacts: map<ContactId, Contact>, invs: Invitations, customer: UserId, seller: UserId) {
    || customer == seller
    || exists i | i in invs ::
         && invs[i].status == InviteStatus.ACCEPTED && invs[i].sellerId == seller
         && invs[i].contactId.Some? && invs[i].contactId.value in contacts
         && contacts[invs[i].contactId.value].invitedUserId == Some(customer)
  }

  /** Access to a seller's data implies that both sides agreed to be in contact. */
  lemma VerifiedRelationIsConsented(states: seq<Store>, calls: seq<Call>, n: nat, customer: UserId, seller: UserId)
    requires IsRun(states, calls) && n < |states| && customer != seller
    requires VerifyRelation(states[n].contacts, states[n].invitations, customer, seller)
    ensures exists k | k in states[n].contacts ::
              && ContactOf(states[n].contacts[k], seller, customer)
              && states[n].contacts[k].status == ContactStatus.ACCEPTED
              && Consented(states[n].history, k, seller, customer)
  {
    var s := states[n];
    RunsKeepInv(states, calls, n);
    var i :| && i in s.invitations && s.invitations[i].status == InviteStatus.ACCEPTED && s.invitations[i].sellerId == seller
             && s.invitations[i].contactId.Some? && s.invitations[i].contactId.value in s.contacts
             && s.contacts[s.invitations[i].contactId.value].invitedUserId == Some(customer);
    assert InvitationOk(s, i);
    var k := s.invitations[i].contactId.value;
    assert ContactOk(s, k);
    assert ContactOf(s.contacts[k], seller, customer);
  }

  // ---------------------------------------------------------------------------------------
  // Status typing
  // ---------------------------------------------------------------------------------------

  /** The statuses each kind of invitation can have; a contact's invitation is never REQUESTED. */
  lemma StatusTyping(states: seq<Store>, calls: seq<Call>, n: nat, i: InviteId)
    requires IsRun(states, calls) && n < |states| && i in states[n].invitations
    ensures var row := states[n].invitations[i];
            && (row.inviteFor == ForSeller ==>
                  && (row.status == InviteStatus.PENDING || row.status == InviteStatus.ACCEPTED)
                  && (row.contactId.Some? <==> row.status == InviteStatus.ACCEPTED))
            && (row.inviteFor == ForCustomer && row.contactId.None? ==>
                  row.status == InviteStatus.PENDING || row.status == InviteStatus.REQUESTED)
            && (row.inviteFor == ForCustomer && row.contactId.Some? ==> row.status != InviteStatus.REQUESTED)
  {
    RunsKeepInv(states, calls, n);
    assert InvitationOk(states[n], i);
  }

  // ---------------------------------------------------------------------------------------
  // Contacts and their invitations
  // ---------------------------------------------------------------------------------------

  ghost function PendingInvites(s: Store, k: ContactId): set<InviteId> {
    set i | i in s.invitations && PendingFor(s.invitations[i], k)
  }

  /** No contact is tied to a user before that user accepted. */
  ghost predicate NoPresets(s: Store) {
    forall k | k in s.contacts :: s.contacts[k].invitedUserId.Some? ==> s.contacts[k].status == ContactStatus.ACCEPTED
  }

  predicate PresetFree(call: Call) {
    call.CreateContactCall? ==> call.preset.None?
  }

  /** Answers tie a contact to a user only by accepting it. */
  lemma AnswersKeepNoPresets(s: Store, id: InviteId, verb: InviteStatus, bySeller: bool, customer: UserId,
                             pick: Option<ContactId>, now: Time)
    requires NoPresets(s) && id in s.invitations
    requires pick.Some? ==> pick.value in s.contacts
    ensures NoPresets(AnswerSellerInvite(s, id, verb, bySeller, customer, pick, now).store)
    ensures NoPresets(AnswerLink(s, id, verb, customer, now))
    ensures s.invitations[id].contactId.Some? && s.invitations[id].contactId.value in s.contacts ==>
              && NoPresets(AnswerContactInvite(s, id, verb, customer, now).store)
              && NoPresets(AnswerCold(s, id, verb, customer, now).store)
  {
  }

  lemma AcceptInviteKeepsNoPresets(s: Store, id: InviteId, verb: InviteStatus, actor: UserId, pick: Option<ContactId>, now: Time)
    requires NoPresets(s) && LookupOk(s, id, verb, actor, pick)
    ensures NoPresets(AcceptInvite(s, id, verb, actor, pick, now).store)
  {
    if id in s.invitations && LiveUser(s, actor) {
      var customer := CustomerOf(s.contacts, s.invitations[id]);
      AcceptInviteParts(s, id, verb, actor, pick, now);
      AnswersKeepNoPresets(s, id, verb, actor == s.invitations[id].sellerId,
                           if customer.Some? then customer.value else actor, pick, now);
    }
  }

  lemma EditContactKeepsNoPresets(s: Store, k: ContactId, status: ContactStatus, sent: bool, now: Time)
    requires NoPresets(s) && (k in s.contacts ==> HandshakeEdit(s.contacts[k].status, status))
    ensures NoPresets(EditContact(s, k, status, sent, now).store)
  {
    if k in s.contacts {
      var t := EditContact(s, k, status, sent, now).store;
      assert t.contacts == s.contacts || t.contacts == SetContactStatus(s, k, status).contacts;
    }
  }

  lemma StepKeepsNoPresets(s: Store, call: Call)
    requires NoPresets(s) && Legal(s, call) && PresetFree(call)
    ensures NoPresets(Step(s, call).store)
  {
    match call
    case AcceptInviteCall(id, verb, actor, pick, now) => AcceptInviteKeepsNoPresets(s, id, verb, actor, pick, now);
    case EditContactCall(k, status, sent, now) => EditContactKeepsNoPresets(s, k, status, sent, now);
    case LoginCall(phone, seller, now) => assert Login(s, phone, seller, now).store.contacts == s.contacts;
    case _ =>
  }

  lemma {:induction false} RunsHaveNoPresets(states: seq<Store>, calls: seq<Call>, n: nat)
    requires IsRun(states, calls) && n < |states|
    requires forall m | 0 <= m < n :: PresetFree(calls[m])
    ensures NoPresets(states[n])
  {
    if n > 0 {
      RunsHaveNoPresets(states, calls, n - 1);
      StepKeepsNoPresets(states[n - 1], calls[n - 1]);
    }
  }

  /** Of all status edits exactly the handshake's keep the invariant, and INVITED to NEW when nothing is pending. */
  lemma EditKeepsInvariantIff(s: Store, k: ContactId, status: ContactStatus, sent: bool, now: Time)
    requires Inv(s) && k in s.contacts
    ensures Inv(EditContact(s, k, status, sent, now).store) <==>
            || HandshakeEdit(s.contacts[k].status, status)
            || (s.contacts[k].status == ContactStatus.INVITED && status == ContactStatus.NEW && PendingInvites(s, k) == {})
  {
    var from := s.contacts[k].status;
    var t := EditContact(s, k, status, sent, now).store;
    assert ContactOk(s, k);
    if HandshakeEdit(from, status) {
      EditContactKeepsInv(s, k, status, sent, now);
    } else {
      assert t == SetContactStatus(s, k, status);
      if from == ContactStatus.ACCEPTED {
        BypassLosesAcceptance(s, t, k);
      } else if status == ContactStatus.ACCEPTED {
        BypassLacksConsent(s, t, k);
      } else if status == ContactStatus.REJECTED {
        assert !ContactOk(t, k);
      } else if PendingInvites(s, k) != {} {
        var i :| i in PendingInvites(s, k);
        assert InvitationOk(s, i) && !InvitationOk(t, i);
      } else {
        assert forall i | i in s.invitations :: i !in PendingInvites(s, k);
        BackToNewKeepsInv(s, k);
      }
    }
  }

  lemma BypassLosesAcceptance(s: Store, t: Store, k: ContactId)
    requires Inv(s) && k in s.contacts && s.contacts[k].status == ContactStatus.ACCEPTED
    requires k in t.contacts && t.contacts[k].status != ContactStatus.ACCEPTED && t.history == s.history
    ensures !Inv(t)
  {
    assert ContactOk(s, k);
    var m, n :| 0 <= m < n < |s.history|
                && Agreement(s.history[m], s.history[n], k, s.contacts[k].sellerId, s.contacts[k].invitedUserId.value);
    assert !ActOk(t, t.history[n]);
  }

  lemma BypassLacksConsent(s: Store, t: Store, k: ContactId)
    requires Inv(s) && k in s.contacts && s.contacts[k].status != ContactStatus.ACCEPTED
    requires k in t.contacts && t.contacts[k].status == ContactStatus.ACCEPTED && t.history == s.history
    ensures !Inv(t)
  {
    forall m, n, seller, customer | 0 <= m < n < |s.history|
      ensures !Agreement(s.history[m], s.history[n], k, seller, customer)
    {
      assert ActOk(s, s.history[n]);
    }
    assert !ContactOk(t, k);
  }

  lemma BackToNewKeepsInv(s: Store, k: ContactId)
    requires Inv(s) && k in s.contacts && s.contacts[k].status == ContactStatus.INVITED
    requires forall i | i in s.invitations :: !PendingFor(s.invitations[i], k)
    ensures Inv(SetContactStatus(s, k, ContactStatus.NEW))
  {
    var t := SetContactStatus(s, k, ContactStatus.NEW);
    assert ContactOk(s, k);
    forall i | i in t.invitations ensures InvitationOk(t, i) {
      assert InvitationOk(s, i);
      RowLasts(s, t, NoAct, i);
    }
    forall c | c in t.contacts && c != k ensures ContactOk(t, c) {
      ContactLasts(s, t, NoAct, c);
    }
    ActsLast(s, t, NoAct);
  }

  // ---------------------------------------------------------------------------------------
  // The guards in front of the unique index
  // ---------------------------------------------------------------------------------------

  /** A fresh pair row is refused by the index exactly when the pair has an active row of that kind. */
  lemma PairRowConflicts(invs: Invitations, id: InviteId, seller: UserId, customer: UserId, kind: InviteType, recipient: Recipient, now: Time)
    requires id !in invs
    ensures Conflicts(invs, id, PairInvite(seller, customer, kind, recipient, now)) <==> HasActive(invs, seller, customer, recipient)
  {
    var row := PairInvite(seller, customer, kind, recipient, now);
    if HasActive(invs, seller, customer, recipient) {
      var i :| i in invs && IsPairRow(invs[i], seller, customer, recipient) && Active(invs[i]);
      assert Clash(row, invs[i]);
    }
    if Conflicts(invs, id, row) {
      var j :| j in invs && j != id && Clash(row, invs[j]);
      assert IsPairRow(invs[j], seller, customer, recipient) && Active(invs[j]);
    }
  }

  /** A pair without a contact has an active customer-invite exactly when one is PENDING or REQUESTED. */
  lemma ActiveWithoutContact(s: Store, seller: UserId, customer: UserId)
    requires Inv(s) && !HasContact(s.contacts, seller, customer)
    ensures HasActive(s.invitations, seller, customer, ForCustomer) <==>
            || HasWithStatus(s.invitations, seller, customer, ForCustomer, InviteStatus.PENDING)
            || HasWithStatus(s.invitations, seller, customer, ForCustomer, InviteStatus.REQUESTED)
  {
    if HasWithStatus(s.invitations, seller, customer, ForCustomer, InviteStatus.ACCEPTED) {
      AcceptedPairHasContact(s, seller, customer, ForCustomer);
    }
  }

  lemma FreshInvitationId(s: Store)
    requires Inv(s)
    ensures s.nextInvitation !in s.invitations
  {
    forall i | i in s.invitations ensures i < s.nextInvitation { assert InvitationOk(s, i); }
  }

  /** The customer of an invitation without a contact, or of a seller-invite, is the row's own. */
  lemma OwnCustomer(s: Store, id: InviteId)
    requires Inv(s) && id in s.invitations
    requires s.invitations[id].inviteFor == ForSeller || s.invitations[id].contactId.None?
    ensures s.invitations[id].customerId.Some? && CustomerOf(s.contacts, s.invitations[id]) == s.invitations[id].customerId
  {
    assert InvitationOk(s, id);
  }

  /** The insert in `login` never hits the index, whatever the tables hold. */
  lemma LoginNeverHitsIndex(s: Store, seller: UserId, customer: UserId, phone: string, now: Time)
    requires Inv(s)
    ensures EnsureLink(s, seller, customer, phone, now).reply != Refused(PairIndexViolation)
  {
    if !HasContact(s.contacts, seller, customer) && !HasOpenInvite(s, seller, customer, phone) {
      FreshInvitationId(s);
      ActiveWithoutContact(s, seller, customer);
      PairRowConflicts(s.invitations, s.nextInvitation, seller, customer, LINK, ForCustomer, now);
      forall i | i in s.invitations && IsPairRow(s.invitations[i], seller, customer, ForCustomer)
        ensures s.invitations[i].status != InviteStatus.PENDING && s.invitations[i].status != InviteStatus.REQUESTED
      {
        assert !OpenInviteFor(s.contacts, s.invitations[i], seller, customer, phone);
      }
    }
  }

  /** The seller-invite that a customer's acceptance spawns never hits the index. */
  lemma RequestNeverHitsIndex(s: Store, id: InviteId, customer: UserId, now: Time)
    requires Inv(s) && id in s.invitations
    requires s.invitations[id].inviteFor == ForCustomer && s.invitations[id].contactId.None?
    ensures var row := s.invitations[id];
            var requested := s.invitations[id := row.(status := InviteStatus.REQUESTED)];
            && !Conflicts(s.invitations, id, row.(status := InviteStatus.REQUESTED))
            && (!HasActive(requested, row.sellerId, customer, ForSeller) ==>
                  !Conflicts(requested, s.nextInvitation, PairInvite(row.sellerId, customer, row.inviteType, ForSeller, now)))
  {
    FreshInvitationId(s);
    assert InvitationOk(s, id);
    var row := s.invitations[id];
    forall j | j in s.invitations && j != id ensures !Clash(row.(status := InviteStatus.REQUESTED), s.invitations[j]) {
      assert Fit(row, s.invitations[j]);
    }
    PairRowConflicts(s.invitations[id := row.(status := InviteStatus.REQUESTED)], s.nextInvitation,
                     row.sellerId, customer, row.inviteType, ForSeller, now);
  }

  lemma PendingExcludesRequested(s: Store, seller: UserId, customer: UserId)
    requires Inv(s)
    ensures HasWithStatus(s.invitations, seller, customer, ForCustomer, InviteStatus.PENDING) ==>
              !HasWithStatus(s.invitations, seller, customer, ForCustomer, InviteStatus.REQUESTED)
  {
    if HasWithStatus(s.invitations, seller, customer, ForCustomer, InviteStatus.PENDING) {
      var i :| i in s.invitations && IsPairRow(s.invitations[i], seller, customer, ForCustomer)
               && s.invitations[i].status == InviteStatus.PENDING;
      forall j | j in s.invitations && IsPairRow(s.invitations[j], seller, customer, ForCustomer)
        ensures s.invitations[j].status != InviteStatus.REQUESTED
      {
        assert j != i ==> Fit(s.invitations[i], s.invitations[j]);
      }
    }
  }

  /** `inviteSeller` hits the index exactly when the pair, still without a contact, has a REQUESTED invitation. */
  lemma InviteSellerHitsIndexIff(s: Store, customer: UserId, seller: UserId, now: Time)
    requires Inv(s)
    requires LiveUser(s, customer) && s.users[customer].role == CUSTOMER
    requires LiveUser(s, seller) && s.users[seller].role == SELLER
    ensures InviteSeller(s, customer, seller, now).reply == Refused(PairIndexViolation) <==>
            && !HasContact(s.contacts, seller, customer)
            && HasWithStatus(s.invitations, seller, customer, ForCustomer, InviteStatus.REQUESTED)
  {
    if !HasContact(s.contacts, seller, customer) {
      FreshInvitationId(s);
      ActiveWithoutContact(s, seller, customer);
      PairRowConflicts(s.invitations, s.nextInvitation, seller, customer, LINK, ForCustomer, now);
      PendingExcludesRequested(s, seller, customer);
    }
  }

  /** A cold acceptance is cut short by the index exactly when its user already has an open or accepted
      invitation of that seller; the contact is accepted all the same. */
  lemma ColdAcceptHitsIndexIff(s: Store, id: InviteId, actor: UserId, pick: Option<ContactId>, now: Time)
    requires Inv(s) && LookupOk(s, id, InviteStatus.ACCEPTED, actor, pick) && id in s.invitations && LiveUser(s, actor)
    requires Cold(s.invitations[id], CustomerOf(s.contacts, s.invitations[id]))
    requires s.users[actor].role == CUSTOMER && actor != s.invitations[id].sellerId
    requires s.invitations[id].status == InviteStatus.PENDING
    ensures var out := AcceptInvite(s, id, InviteStatus.ACCEPTED, actor, pick, now);
            var k := s.invitations[id].contactId.value;
            && (out.reply == Refused(PairIndexViolation) <==>
                  HasActive(s.invitations, s.invitations[id].sellerId, actor, ForCustomer))
            && k in out.store.contacts
            && out.store.contacts[k].status == ContactStatus.ACCEPTED
            && out.store.contacts[k].invitedUserId == Some(actor)
  {
    var row := s.invitations[id];
    assert AcceptInvite(s, id, InviteStatus.ACCEPTED, actor, pick, now) == AcceptForContact(s, id, actor, now);
    assert row.customerId.None?;
    NamedConflicts(s.invitations, id, Answered(row, InviteStatus.ACCEPTED, now).(customerId := Some(actor)), actor);
  }

  /** Naming the customer of an accepted row conflicts exactly when that customer has an active row already. */
  lemma NamedConflicts(invs: Invitations, id: InviteId, named: Invitation, customer: UserId)
    requires id in invs && invs[id].customerId.None?
    requires named.customerId == Some(customer) && named.inviteFor == ForCustomer && named.status == InviteStatus.ACCEPTED
    ensures Conflicts(invs, id, named) <==> HasActive(invs, named.sellerId, customer, ForCustomer)
  {
    if HasActive(invs, named.sellerId, customer, ForCustomer) {
      var i :| i in invs && IsPairRow(invs[i], named.sellerId, customer, ForCustomer) && Active(invs[i]);
      assert i != id && Clash(named, invs[i]);
    }
    if Conflicts(invs, id, named) {
      var j :| j in invs && j != id && Clash(named, invs[j]);
      assert IsPairRow(invs[j], named.sellerId, customer, ForCustomer) && Active(invs[j]);
    }
  }

  // ---------------------------------------------------------------------------------------
  // Withdrawal is an exact inverse
  // ---------------------------------------------------------------------------------------

  ghost predicate SameTables(s: Store, t: Store) {
    t.users == s.users && t.contacts == s.contacts && t.invitations == s.invitations
  }

  /** A pending link invitation of a live customer, with no active seller-invite for the pair. */
  predicate Offered(s: Store, link: InviteId, seller: UserId, customer: UserId) {
    && link in s.invitations
    && IsPairRow(s.invitations[link], seller, customer, ForCustomer)
    && s.invitations[link].contactId.None? && s.invitations[link].status == InviteStatus.PENDING
    && !HasActive(s.invitations, seller, customer, ForSeller)
    && LiveUser(s, customer) && LiveUser(s, seller)
  }

  lemma OfferedRequest(s: Store, link: InviteId, seller: UserId, customer: UserId, now: Time)
    requires Inv(s) && Offered(s, link, seller, customer)
    ensures var t := AcceptInvite(s, link, InviteStatus.ACCEPTED, customer, None, now).store;
            && t == Request(s, link, customer, now)
            && s.nextInvitation !in s.invitations
            && t.invitations == s.invitations[link := s.invitations[link].(status := InviteStatus.REQUESTED)]
                                             [s.nextInvitation := PairInvite(seller, customer, s.invitations[link].inviteType, ForSeller, now)]
            && t.users == s.users && t.contacts == s.contacts
    ensures forall i | i in s.invitations :: !IsPairRow(s.invitations[i], seller, customer, ForSeller)
    ensures forall i | i in s.invitations && i != link && IsPairRow(s.invitations[i], seller, customer, ForCustomer) ::
              s.invitations[i].status != InviteStatus.REQUESTED
    ensures s.invitations[link].acceptedAt == None && s.invitations[link].cancelledAt == None
  {
    FreshInvitationId(s);
    assert InvitationOk(s, link);
    forall i | i in s.invitations
      ensures !IsPairRow(s.invitations[i], seller, customer, ForSeller)
      ensures i != link && IsPairRow(s.invitations[i], seller, customer, ForCustomer) ==> s.invitations[i].status != InviteStatus.REQUESTED
    {
      assert InvitationOk(s, i);
      if i != link { assert Fit(s.invitations[i], s.invitations[link]); }
    }
    var s1 := s.(invitations := s.invitations[link := s.invitations[link].(status := InviteStatus.REQUESTED)]);
    assert !HasActive(s1.invitations, seller, customer, ForSeller);
  }

  /** On the invitations alone, both ways of undoing a request give the old map back. */
  lemma RequestUndone(invs: Invitations, new': Invitations, link: InviteId, spawned: InviteId, seller: UserId, customer: UserId)
    requires link in invs && spawned !in invs
    requires IsPairRow(invs[link], seller, customer, ForCustomer) && invs[link] == Restored(invs[link])
    requires spawned in new' && IsPairRow(new'[spawned], seller, customer, ForSeller)
    requires new' == invs[link := invs[link].(status := InviteStatus.REQUESTED)][spawned := new'[spawned]]
    requires forall i | i in invs :: !IsPairRow(invs[i], seller, customer, ForSeller)
    requires forall i | i in invs && i != link && IsPairRow(invs[i], seller, customer, ForCustomer) :: invs[i].status != InviteStatus.REQUESTED
    ensures WithoutPair(new'[link := Restored(new'[link])], seller, customer, ForSeller) == invs
    ensures RestoreRequested(new' - {spawned}, seller, customer) == invs
  {
  }

  /** The customer takes the request back through the link invitation. */
  lemma CustomerWithdrawsLink(s: Store, t: Store, link: InviteId, seller: UserId, customer: UserId, now: Time, later: Time)
    requires Inv(s) && Offered(s, link, seller, customer)
    requires t == AcceptInvite(s, link, InviteStatus.ACCEPTED, customer, None, now).store
    ensures SameTables(s, AcceptInvite(t, link, InviteStatus.CANCELLED, customer, None, later).store)
  {
    OfferedRequest(s, link, seller, customer, now);
    RequestUndone(s.invitations, t.invitations, link, s.nextInvitation, seller, customer);
    assert AcceptInvite(t, link, InviteStatus.CANCELLED, customer, None, later).store
        == AnswerLink(t, link, InviteStatus.CANCELLED, customer, later);
  }

  /** Either party takes the request back through the seller-invite it spawned. */
  lemma WithdrawSpawned(s: Store, t: Store, link: InviteId, seller: UserId, customer: UserId, verb: InviteStatus, actor: UserId,
                        pick: Option<ContactId>, now: Time, later: Time)
    requires Inv(s) && Offered(s, link, seller, customer)
    requires Picks(s.contacts, seller, customer, pick)
    requires t == AcceptInvite(s, link, InviteStatus.ACCEPTED, customer, None, now).store
    requires (actor == seller && Withdraws(verb)) || (actor == customer && verb == InviteStatus.CANCELLED)
    ensures s.nextInvitation in t.invitations
    ensures SameTables(s, AcceptInvite(t, s.nextInvitation, verb, actor, pick, later).store)
  {
    OfferedRequest(s, link, seller, customer, now);
    var spawned := s.nextInvitation;
    RequestUndone(s.invitations, t.invitations, link, spawned, seller, customer);
    assert AcceptInvite(t, spawned, verb, actor, pick, later).store
        == WithdrawSellerInvite(t, spawned, verb, actor == seller, customer);
  }

  /** After a request, every way of withdrawing it gives back the very tables there were before. */
  lemma WithdrawalUndoesRequest(s: Store, t: Store, link: InviteId, seller: UserId, customer: UserId, pick: Option<ContactId>,
                                now: Time, later: Time)
    requires Inv(s) && Offered(s, link, seller, customer)
    requires Picks(s.contacts, seller, customer, pick)
    requires t == AcceptInvite(s, link, InviteStatus.ACCEPTED, customer, None, now).store
    ensures !SameTables(s, t) && t.contacts == s.contacts && s.nextInvitation in t.invitations
    ensures SameTables(s, AcceptInvite(t, link, InviteStatus.CANCELLED, customer, None, later).store)
    ensures SameTables(s, AcceptInvite(t, s.nextInvitation, InviteStatus.CANCELLED, customer, pick, later).store)
    ensures SameTables(s, AcceptInvite(t, s.nextInvitation, InviteStatus.CANCELLED, seller, pick, later).store)
    ensures SameTables(s, AcceptInvite(t, s.nextInvitation, InviteStatus.REJECTED, seller, pick, later).store)
  {
    OfferedRequest(s, link, seller, customer, now);
    CustomerWithdrawsLink(s, t, link, seller, customer, now, later);
    WithdrawSpawned(s, t, link, seller, customer, InviteStatus.CANCELLED, customer, pick, now, later);
    WithdrawSpawned(s, t, link, seller, customer, InviteStatus.CANCELLED, seller, pick, now, later);
    WithdrawSpawned(s, t, link, seller, customer, InviteStatus.REJECTED, seller, pick, now, later);
  }

  /** A REQUESTED link invitation together with the PENDING seller-invite of the pair. */
  predicate Requested(s: Store, link: InviteId, invite: InviteId, seller: UserId, customer: UserId) {
    && LiveUser(s, customer) && LiveUser(s, seller)
    && link in s.invitations && IsPairRow(s.invitations[link], seller, customer, ForCustomer)
    && s.invitations[link].contactId.None? && s.invitations[link].status == InviteStatus.REQUESTED
    && invite in s.invitations && IsPairRow(s.invitations[invite], seller, customer, ForSeller)
    && s.invitations[invite].contactId.None? && s.invitations[invite].status == InviteStatus.PENDING
  }

  predicate HasAccepted(s: Store, seller: UserId, customer: UserId) {
    exists k | k in s.contacts :: ContactOf(s.contacts[k], seller, customer) && s.contacts[k].status == ContactStatus.ACCEPTED
  }

  /** A PENDING seller-invite of the pair can be accepted whatever became of the link invitation. */
  lemma OfferCanBeAccepted(s: Store, invite: InviteId, seller: UserId, customer: UserId, pick: Option<ContactId>, now: Time)
    requires LiveUser(s, seller) && invite in s.invitations && IsPairRow(s.invitations[invite], seller, customer, ForSeller)
    requires s.invitations[invite].contactId.None? && s.invitations[invite].status == InviteStatus.PENDING
    requires Picks(s.contacts, seller, customer, pick)
    requires pick.None? ==> !ContactConflicts(s.contacts, NewContact(s, seller, customer))
    requires forall i | i in s.invitations && s.invitations[i].contactId.Some? :: s.invitations[i].contactId.value in s.contacts
    ensures var out := AcceptInvite(s, invite, InviteStatus.ACCEPTED, seller, pick, now);
            out.reply == Done && HasAccepted(out.store, seller, customer)
  {
    var out := AcceptInvite(s, invite, InviteStatus.ACCEPTED, seller, pick, now);
    assert out == SellerAccepts(s, invite, customer, pick, now);
    var k := if pick.Some? then pick.value else s.nextContact;
    assert ContactOf(out.store.contacts[k], seller, customer) && out.store.contacts[k].status == ContactStatus.ACCEPTED;
  }

  lemma RejectionRemovesLink(s: Store, link: InviteId, invite: InviteId, seller: UserId, customer: UserId, now: Time)
    requires Requested(s, link, invite, seller, customer)
    ensures AcceptInvite(s, link, InviteStatus.REJECTED, customer, None, now).store == s.(invitations := s.invitations - {link})
  {
    assert AcceptInvite(s, link, InviteStatus.REJECTED, customer, None, now).store
        == AnswerLink(s, link, InviteStatus.REJECTED, customer, now);
  }

  /** What a customer's REJECTED does not do: the seller can still accept the request it leaves behind. */
  lemma RejectedRequestCanBeAccepted(s: Store, link: InviteId, invite: InviteId, seller: UserId, customer: UserId,
                                     pick: Option<ContactId>, now: Time)
    requires Inv(s) && Requested(s, link, invite, seller, customer)
    requires Picks(s.contacts, seller, customer, pick)
    requires pick.None? ==> !ContactConflicts(s.contacts, NewContact(s, seller, customer))
    ensures var rejected := AcceptInvite(s, link, InviteStatus.REJECTED, customer, None, now).store;
            && rejected == s.(invitations := s.invitations - {link})
            && AcceptInvite(rejected, invite, InviteStatus.ACCEPTED, seller, pick, now).reply == Done
            && HasAccepted(AcceptInvite(rejected, invite, InviteStatus.ACCEPTED, seller, pick, now).store, seller, customer)
  {
    RejectionRemovesLink(s, link, invite, seller, customer, now);
    var rejected := s.(invitations := s.invitations - {link});
    forall i | i in rejected.invitations && rejected.invitations[i].contactId.Some?
      ensures rejected.invitations[i].contactId.value in rejected.contacts
    {
      assert InvitationOk(s, i);
    }
    OfferCanBeAccepted(rejected, invite, seller, customer, pick, now);
  }

  /** A customer's CANCELLED does end the request: the seller finds nothing to accept. */
  lemma CancelledRequestCannotBeAccepted(s: Store, link: InviteId, invite: InviteId, seller: UserId, customer: UserId, now: Time)
    requires Inv(s) && Requested(s, link, invite, seller, customer)
    ensures var cancelled := AcceptInvite(s, link, InviteStatus.CANCELLED, customer, None, now).store;
            && cancelled.contacts == s.contacts && invite !in cancelled.invitations
            && AcceptInvite(cancelled, invite, InviteStatus.ACCEPTED, seller, None, now).reply == Refused(InvitationNotFound)
  {
    assert AcceptInvite(s, link, InviteStatus.CANCELLED, customer, None, now).store
        == AnswerLink(s, link, InviteStatus.CANCELLED, customer, now);
  }
}
