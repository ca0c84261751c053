/**
 What each answer to an invitation leaves behind, row by row.  These lemmas speak of calls and of the
 fields of rows alone, so that they hold `Protocol` to the effects the services promise.
 */
module AnswerEffects {
  import opened Wrappers
  import opened Schema
  import opened Protocol
  import opened Invariant

  /** The invitation concerns this user: its contact's user if that is known, else the customer it names. */
  ghost predicate Concerns(s: Store, row: Invitation, user: UserId) {
    if row.contactId.Some? && row.contactId.value in s.contacts && s.contacts[row.contactId.value].invitedUserId.Some?
    then s.contacts[row.contactId.value].invitedUserId == Some(user)
    else row.customerId == Some(user)
  }

  /** Nobody knows yet which user the invitation concerns. */
  ghost predicate ConcernsNobody(s: Store, row: Invitation) {
    && (row.contactId.Some? && row.contactId.value in s.contacts ==> s.contacts[row.contactId.value].invitedUserId.None?)
    && row.customerId.None?
  }

  ghost predicate IsLive(s: Store, user: UserId) {
    user in s.users && !s.users[user].deleted
  }

  /** A live user answers a contact's invitation as the customer it concerns. */
  ghost predicate AnswersAsCustomer(s: Store, id: InviteId, actor: UserId) {
    && id in s.invitations && s.invitations[id].inviteFor == ForCustomer && s.invitations[id].contactId.Some?
    && IsLive(s, actor) && Concerns(s, s.invitations[id], actor)
  }

  /** A live customer whom the seller does not know yet answers a contact's invitation. */
  ghost predicate AnswersUnknown(s: Store, id: InviteId, actor: UserId) {
    && id in s.invitations && s.invitations[id].inviteFor == ForCustomer && s.invitations[id].contactId.Some?
    && IsLive(s, actor) && ConcernsNobody(s, s.invitations[id])
    && s.users[actor].role == CUSTOMER && actor != s.invitations[id].sellerId
  }

  // ---------------------------------------------------------------------------------------
  // A contact's invitation
  // ---------------------------------------------------------------------------------------

  /** Turning a pending invitation down: that status on the row, the time with REJECTED only, and the contact
      NEW without a user. */
  lemma DecliningStartsOver(s: Store, id: InviteId, verb: InviteStatus, actor: UserId, pick: Option<ContactId>, now: Time)
    requires Legal(s, AcceptInviteCall(id, verb, actor, pick, now))
    requires AnswersAsCustomer(s, id, actor) || AnswersUnknown(s, id, actor)
    requires s.invitations[id].status == InviteStatus.PENDING
    requires verb == InviteStatus.REJECTED || verb == InviteStatus.CANCELLED
    ensures var row := s.invitations[id];
            var k := row.contactId.value;
            var declined := if verb == InviteStatus.REJECTED
                            then row.(status := InviteStatus.REJECTED, cancelledAt := Some(now))
                            else row.(status := InviteStatus.CANCELLED);
            Step(s, AcceptInviteCall(id, verb, actor, pick, now))
            == Outcome(s.(invitations := s.invitations[id := declined],
                          contacts := s.contacts[k := s.contacts[k].(status := ContactStatus.NEW, invitedUserId := None)]), Done)
  {
  }

  /** Accepting a pending invitation: the row is ACCEPTED with the time and names the customer, the contact is
      ACCEPTED with the customer as its user; the name alone is refused if the customer has an active
      customer-invite of the seller already. */
  lemma AcceptingTakesContact(s: Store, id: InviteId, actor: UserId, pick: Option<ContactId>, now: Time)
    requires Legal(s, AcceptInviteCall(id, InviteStatus.ACCEPTED, actor, pick, now))
    requires AnswersAsCustomer(s, id, actor) || AnswersUnknown(s, id, actor)
    requires s.invitations[id].status == InviteStatus.PENDING
    ensures var row := s.invitations[id];
            var k := row.contactId.value;
            var taken := exists j | j in s.invitations :: j != id
                           && s.invitations[j].sellerId == row.sellerId && s.invitations[j].customerId == Some(actor)
                           && s.invitations[j].inviteFor == ForCustomer
                           && s.invitations[j].status != InviteStatus.CANCELLED && s.invitations[j].status != InviteStatus.REJECTED;
            var accepted := row.(status := InviteStatus.ACCEPTED, acceptedAt := Some(now));
            Step(s, AcceptInviteCall(id, InviteStatus.ACCEPTED, actor, pick, now))
            == Outcome(s.(invitations := s.invitations[id := if row.customerId.None? && !taken then accepted.(customerId := Some(actor)) else accepted],
                          contacts := s.contacts[k := s.contacts[k].(status := ContactStatus.ACCEPTED, invitedUserId := Some(actor))],
                          history := s.history + [CustomerAccepted(actor, k, id)]),
                       if row.customerId.None? && taken then Refused(PairIndexViolation) else Done)
  {
    var row := s.invitations[id];
    var named := row.(status := InviteStatus.ACCEPTED, acceptedAt := Some(now), customerId := Some(actor));
    IndexRefusesIff(s.invitations, id, named);
    assert Step(s, AcceptInviteCall(id, InviteStatus.ACCEPTED, actor, pick, now)) == AcceptForContact(s, id, actor, now);
  }

  /** Accepting an invitation that is no longer pending is refused. */
  lemma AcceptingTwiceIsRefused(s: Store, id: InviteId, actor: UserId, pick: Option<ContactId>, now: Time)
    requires Legal(s, AcceptInviteCall(id, InviteStatus.ACCEPTED, actor, pick, now))
    requires AnswersAsCustomer(s, id, actor) || AnswersUnknown(s, id, actor)
    requires s.invitations[id].status != InviteStatus.PENDING
    ensures Step(s, AcceptInviteCall(id, InviteStatus.ACCEPTED, actor, pick, now)) == Outcome(s, Refused(AlreadyProcessed))
  {
  }

  /** Withdrawing from an invitation that is no longer pending: its customer removes the row, or takes a
      request back together with the pair's seller-invites; anybody else is refused. */
  lemma WithdrawingLater(s: Store, id: InviteId, verb: InviteStatus, actor: UserId, pick: Option<ContactId>, now: Time)
    requires Legal(s, AcceptInviteCall(id, verb, actor, pick, now))
    requires AnswersAsCustomer(s, id, actor) || AnswersUnknown(s, id, actor)
    requires s.invitations[id].status != InviteStatus.PENDING
    requires verb == InviteStatus.REJECTED || verb == InviteStatus.CANCELLED
    ensures var row := s.invitations[id];
            var restored := s.invitations[id := row.(status := InviteStatus.PENDING, acceptedAt := None, cancelledAt := None)];
            Step(s, AcceptInviteCall(id, verb, actor, pick, now))
            == if !Concerns(s, row, actor) then Outcome(s, Refused(AlreadyProcessed))
               else if verb == InviteStatus.CANCELLED && row.status == InviteStatus.REQUESTED then
                 Outcome(s.(invitations := map i | i in restored
                   && !(restored[i].sellerId == row.sellerId && restored[i].customerId == Some(actor) && restored[i].inviteFor == ForSeller)
                   :: restored[i]), Done)
               else Outcome(s.(invitations := s.invitations - {id}), Done)
  {
  }

  // ---------------------------------------------------------------------------------------
  // A link invitation
  // ---------------------------------------------------------------------------------------

  /** A live customer answers a link invitation that names the customer. */
  ghost predicate AnswersLink(s: Store, id: InviteId, actor: UserId) {
    && id in s.invitations && s.invitations[id].inviteFor == ForCustomer && s.invitations[id].contactId.None?
    && IsLive(s, actor) && s.invitations[id].customerId == Some(actor)
  }

  /** Accepting a link: the row is REQUESTED, and the seller is invited to answer, unless an active invitation of
      the pair asks for that already. */
  lemma AcceptingLinkRequests(s: Store, id: InviteId, actor: UserId, pick: Option<ContactId>, now: Time)
    requires Legal(s, AcceptInviteCall(id, InviteStatus.ACCEPTED, actor, pick, now)) && AnswersLink(s, id, actor)
    ensures var row := s.invitations[id];
            var requested := s.invitations[id := row.(status := InviteStatus.REQUESTED)];
            var asked := exists j | j in s.invitations ::
                           s.invitations[j].sellerId == row.sellerId && s.invitations[j].customerId == Some(actor)
                           && s.invitations[j].inviteFor == ForSeller
                           && s.invitations[j].status != InviteStatus.CANCELLED && s.invitations[j].status != InviteStatus.REJECTED;
            var offer := Invitation(row.sellerId, Some(actor), None, ForSeller, row.inviteType, InviteStatus.PENDING, None, None, Some(now));
            Step(s, AcceptInviteCall(id, InviteStatus.ACCEPTED, actor, pick, now))
            == Outcome(if asked then s.(invitations := requested)
                       else s.(invitations := requested[s.nextInvitation := offer], nextInvitation := s.nextInvitation + 1,
                               history := s.history + [CustomerRequested(actor, row.sellerId, s.nextInvitation)]), Done)
  {
    var row := s.invitations[id];
    var requested := s.invitations[id := row.(status := InviteStatus.REQUESTED)];
    ActivePairIff(requested, row.sellerId, actor, ForSeller);
    if j :| j in s.invitations && s.invitations[j].sellerId == row.sellerId && s.invitations[j].customerId == Some(actor)
            && s.invitations[j].inviteFor == ForSeller
            && s.invitations[j].status != InviteStatus.CANCELLED && s.invitations[j].status != InviteStatus.REJECTED {
      assert requested[j] == s.invitations[j];
    }
  }

  /** Withdrawing from a link: a request that is CANCELLED goes back to PENDING and the pair's seller-invites go;
      in every other case the row goes. */
  lemma WithdrawingFromLink(s: Store, id: InviteId, verb: InviteStatus, actor: UserId, pick: Option<ContactId>, now: Time)
    requires Legal(s, AcceptInviteCall(id, verb, actor, pick, now)) && AnswersLink(s, id, actor)
    requires verb == InviteStatus.REJECTED || verb == InviteStatus.CANCELLED
    ensures var row := s.invitations[id];
            var restored := s.invitations[id := row.(status := InviteStatus.PENDING, acceptedAt := None, cancelledAt := None)];
            Step(s, AcceptInviteCall(id, verb, actor, pick, now))
            == Outcome(s.(invitations :=
                 if verb == InviteStatus.CANCELLED && row.status == InviteStatus.REQUESTED then
                   map i | i in restored
                     && !(restored[i].sellerId == row.sellerId && restored[i].customerId == Some(actor) && restored[i].inviteFor == ForSeller)
                     :: restored[i]
                 else s.invitations - {id}), Done)
  {
  }

  // ---------------------------------------------------------------------------------------
  // A seller-invite
  // ---------------------------------------------------------------------------------------

  /** A live user answers a seller-invite as one of its parties. */
  ghost predicate AnswersOffer(s: Store, id: InviteId, actor: UserId, customer: UserId) {
    && id in s.invitations && s.invitations[id].inviteFor == ForSeller && Concerns(s, s.invitations[id], customer)
    && IsLive(s, actor) && (actor == s.invitations[id].sellerId || actor == customer)
  }

  /** Withdrawing a seller-invite: the row goes, and the pair's request is PENDING again, unless it is the
      customer who leaves with REJECTED. */
  lemma WithdrawingOffer(s: Store, id: InviteId, verb: InviteStatus, actor: UserId, customer: UserId, pick: Option<ContactId>, now: Time)
    requires Legal(s, AcceptInviteCall(id, verb, actor, pick, now)) && AnswersOffer(s, id, actor, customer)
    requires verb == InviteStatus.REJECTED || verb == InviteStatus.CANCELLED
    ensures var row := s.invitations[id];
            var left := s.invitations - {id};
            Step(s, AcceptInviteCall(id, verb, actor, pick, now))
            == Outcome(s.(invitations :=
                 if verb == InviteStatus.REJECTED && actor != row.sellerId then left
                 else (map i | i in left ::
                   if left[i].sellerId == row.sellerId && left[i].customerId == Some(customer) && left[i].inviteFor == ForCustomer
                      && left[i].status == InviteStatus.REQUESTED
                   then left[i].(status := InviteStatus.PENDING, acceptedAt := None, cancelledAt := None) else left[i])), Done)
  {
  }

  /** The contact of the pair that the seller's acceptance leaves behind, if there was one to take over. */
  lemma AcceptingOfferTakesOver(s: Store, id: InviteId, actor: UserId, customer: UserId, k: ContactId, now: Time)
    requires Legal(s, AcceptInviteCall(id, InviteStatus.ACCEPTED, actor, Some(k), now)) && AnswersOffer(s, id, actor, customer)
    requires actor == s.invitations[id].sellerId
    ensures k in s.contacts && s.contacts[k].sellerId == actor && s.contacts[k].invitedUserId == Some(customer)
    ensures Step(s, AcceptInviteCall(id, InviteStatus.ACCEPTED, actor, Some(k), now))
            == Outcome(s.(contacts := s.contacts[k := s.contacts[k].(invitedUserId := Some(customer), status := ContactStatus.ACCEPTED)],
                          invitations := AfterAcceptance(s, id, customer, k, now),
                          history := s.history + [SellerAccepted(actor, customer, id, k)]), Done)
  {
    assert CustomerOf(s.contacts, s.invitations[id]) == Some(customer);
    assert Step(s, AcceptInviteCall(id, InviteStatus.ACCEPTED, actor, Some(k), now)) == SellerAccepts(s, id, customer, Some(k), now);
  }

  /** The seller-invite is ACCEPTED with its contact and the time, and the customer-invites of the pair are gone. */
  ghost function AfterAcceptance(s: Store, id: InviteId, customer: UserId, k: ContactId, now: Time): (invs: Invitations)
    requires id in s.invitations && s.invitations[id].inviteFor == ForSeller
    ensures id in invs && invs[id] == s.invitations[id].(status := InviteStatus.ACCEPTED, contactId := Some(k), acceptedAt := Some(now))
    ensures forall i | i != id ::
              i in invs <==>
              && i in s.invitations
              && !(s.invitations[i].sellerId == s.invitations[id].sellerId && s.invitations[i].customerId == Some(customer)
                   && s.invitations[i].inviteFor == ForCustomer)
    ensures forall i | i in invs && i != id :: invs[i] == s.invitations[i]
  {
    var accepted := s.invitations[id].(status := InviteStatus.ACCEPTED, contactId := Some(k), acceptedAt := Some(now));
    map i | i in s.invitations
      && !(s.invitations[i].sellerId == s.invitations[id].sellerId && s.invitations[i].customerId == Some(customer)
           && s.invitations[i].inviteFor == ForCustomer)
      :: if i == id then accepted else s.invitations[i]
  }

  /** Without a contact of the pair one is created, ACCEPTED, with the phone and e-mail of the customer's account
      while that is live; it is refused if the seller has a contact with either already. */
  lemma AcceptingOfferCreates(s: Store, id: InviteId, actor: UserId, customer: UserId, now: Time)
    requires Legal(s, AcceptInviteCall(id, InviteStatus.ACCEPTED, actor, None, now)) && AnswersOffer(s, id, actor, customer)
    requires actor == s.invitations[id].sellerId
    ensures var live := IsLive(s, customer);
            var created := Contact(actor, Some(customer), if live then Some(s.users[customer].phone) else None,
                                   if live then s.users[customer].email else None, ContactStatus.ACCEPTED);
            var known := exists c | c in s.contacts :: s.contacts[c].sellerId == actor
                           && ((created.phone.Some? && s.contacts[c].phone == created.phone)
                               || (created.email.Some? && s.contacts[c].email == created.email));
            Step(s, AcceptInviteCall(id, InviteStatus.ACCEPTED, actor, None, now))
            == if known then Outcome(s, Refused(ContactNotUnique))
               else Outcome(s.(contacts := s.contacts[s.nextContact := created], nextContact := s.nextContact + 1,
                               invitations := AfterAcceptance(s, id, customer, s.nextContact, now),
                               history := s.history + [SellerAccepted(actor, customer, id, s.nextContact)]), Done)
  {
    assert CustomerOf(s.contacts, s.invitations[id]) == Some(customer);
    assert Step(s, AcceptInviteCall(id, InviteStatus.ACCEPTED, actor, None, now)) == SellerAccepts(s, id, customer, None, now);
    ContactRefusedIff(s.contacts, NewContact(s, actor, customer));
  }

  // ---------------------------------------------------------------------------------------
  // Answers without effect
  // ---------------------------------------------------------------------------------------

  /** The answers that change nothing, each with its reply: to an invitation that is not there, by a user who is
      not live, by a stranger, by a party who is not asked, and with a status that is no answer. */
  lemma AnswersWithoutEffect(s: Store, id: InviteId, verb: InviteStatus, actor: UserId, pick: Option<ContactId>, now: Time)
    requires Legal(s, AcceptInviteCall(id, verb, actor, pick, now))
    ensures var out := Step(s, AcceptInviteCall(id, verb, actor, pick, now));
            && (id !in s.invitations ==> out == Outcome(s, Refused(InvitationNotFound)))
            && (id in s.invitations && !IsLive(s, actor) ==> out == Outcome(s, Refused(UserNotFound)))
            && (id in s.invitations && IsLive(s, actor) ==>
                  var row := s.invitations[id];
                  var answers := verb == InviteStatus.ACCEPTED || verb == InviteStatus.REJECTED || verb == InviteStatus.CANCELLED;
                  && (actor != row.sellerId && !Concerns(s, row, actor) && !AnswersUnknown(s, id, actor) ==>
                        out == Outcome(s, Refused(Forbidden)))
                  && (actor == row.sellerId && row.inviteFor == ForCustomer && !Concerns(s, row, actor) ==> out == Outcome(s, Done))
                  && (actor == row.sellerId && row.inviteFor == ForSeller && ConcernsNobody(s, row) ==>
                        out == Outcome(s, Refused(InvalidInput)))
                  && (row.inviteFor == ForSeller && verb == InviteStatus.ACCEPTED && actor != row.sellerId && Concerns(s, row, actor) ==>
                        out == Outcome(s, Done))
                  && (Concerns(s, row, actor) && !answers ==> out == Outcome(s, Done))
                  && (AnswersUnknown(s, id, actor) && !answers ==> out == Outcome(s, Refused(InvalidInput))))
  {
  }

  // ---------------------------------------------------------------------------------------
  // The constraints, told from the fields
  // ---------------------------------------------------------------------------------------

  /** The index refuses a row exactly when it is active and another active row has the same seller, customer and
      recipient. */
  lemma IndexRefusesIff(invs: Invitations, id: InviteId, row: Invitation)
    ensures Conflicts(invs, id, row) <==>
            && row.customerId.Some? && row.status != InviteStatus.CANCELLED && row.status != InviteStatus.REJECTED
            && exists j | j in invs :: j != id
                 && invs[j].sellerId == row.sellerId && invs[j].customerId == row.customerId && invs[j].inviteFor == row.inviteFor
                 && invs[j].status != InviteStatus.CANCELLED && invs[j].status != InviteStatus.REJECTED
  {
    if Conflicts(invs, id, row) {
      var j :| j in invs && j != id && Clash(row, invs[j]);
    } else {
      forall j | j in invs && j != id ensures !Clash(row, invs[j]) { }
    }
  }

  lemma ActivePairIff(invs: Invitations, seller: UserId, customer: UserId, recipient: Recipient)
    ensures HasActive(invs, seller, customer, recipient) <==>
            exists j | j in invs ::
              && invs[j].sellerId == seller && invs[j].customerId == Some(customer) && invs[j].inviteFor == recipient
              && invs[j].status != InviteStatus.CANCELLED && invs[j].status != InviteStatus.REJECTED
  {
    if HasActive(invs, seller, customer, recipient) {
      var j :| j in invs && IsPairRow(invs[j], seller, customer, recipient) && Active(invs[j]);
    } else {
      forall j | j in invs ensures !(IsPairRow(invs[j], seller, customer, recipient) && Active(invs[j])) { }
    }
  }

  /** A contact is refused exactly when the seller has one with the same phone or the same e-mail. */
  lemma ContactRefusedIff(contacts: map<ContactId, Contact>, row: Contact)
    ensures ContactConflicts(contacts, row) <==>
            exists c | c in contacts :: contacts[c].sellerId == row.sellerId
              && ((row.phone.Some? && contacts[c].phone == row.phone) || (row.email.Some? && contacts[c].email == row.email))
  {
    if ContactConflicts(contacts, row) {
      var c :| c in contacts && ContactClash(row, contacts[c]);
    } else {
      forall c | c in contacts ensures !ContactClash(row, contacts[c]) { }
    }
  }
}
