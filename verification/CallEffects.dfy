/**
 What the calls other than answers leave behind, told from the fields of rows, and who makes the acts
 that the history records.
 */
module CallEffects {
  import opened Wrappers
  import opened Schema
  import opened Protocol
  import opened Invariant
  import opened Theorems
  import opened AnswerEffects

  // ---------------------------------------------------------------------------------------
  // Login
  // ---------------------------------------------------------------------------------------

  /** The pair has a contact. */
  ghost predicate Acquainted(s: Store, seller: UserId, customer: UserId) {
    exists k | k in s.contacts :: s.contacts[k].sellerId == seller && s.contacts[k].invitedUserId == Some(customer)
  }

  /** An open customer-invite of the seller, by customer or by the phone number of its contact. */
  ghost predicate OpenTo(s: Store, row: Invitation, seller: UserId, customer: UserId, phone: string) {
    && row.sellerId == seller && row.inviteFor == ForCustomer
    && (row.status == InviteStatus.PENDING || row.status == InviteStatus.REQUESTED)
    && (row.customerId == Some(customer)
        || (row.contactId.Some? && row.contactId.value in s.contacts && s.contacts[row.contactId.value].phone == Some(phone)))
  }

  ghost predicate InvitedAlready(s: Store, seller: UserId, customer: UserId, phone: string) {
    exists i | i in s.invitations :: OpenTo(s, s.invitations[i], seller, customer, phone)
  }

  /** The invitation with which a link starts. */
  ghost predicate IsFreshLink(row: Invitation, seller: UserId, customer: UserId, now: Time) {
    row == Invitation(seller, Some(customer), None, ForCustomer, LINK, InviteStatus.PENDING, None, None, Some(now))
  }

  /** Exactly one row was added to the invitations, a fresh link of the pair. */
  ghost predicate LinkAdded(s: Store, t: Store, seller: UserId, customer: UserId, now: Time) {
    && s.nextInvitation !in s.invitations && s.nextInvitation in t.invitations
    && IsFreshLink(t.invitations[s.nextInvitation], seller, customer, now)
    && t == s.(invitations := s.invitations[s.nextInvitation := t.invitations[s.nextInvitation]], nextInvitation := s.nextInvitation + 1)
  }

  lemma AlreadyIff(s: Store, seller: UserId, customer: UserId, phone: string)
    ensures HasContact(s.contacts, seller, customer) <==> Acquainted(s, seller, customer)
    ensures HasOpenInvite(s, seller, customer, phone) <==> InvitedAlready(s, seller, customer, phone)
  {
    if Acquainted(s, seller, customer) {
      var k :| k in s.contacts && s.contacts[k].sellerId == seller && s.contacts[k].invitedUserId == Some(customer);
      assert ContactOf(s.contacts[k], seller, customer);
    }
    if InvitedAlready(s, seller, customer, phone) {
      var i :| i in s.invitations && OpenTo(s, s.invitations[i], seller, customer, phone);
      assert OpenInviteFor(s.contacts, s.invitations[i], seller, customer, phone);
    }
    if HasOpenInvite(s, seller, customer, phone) {
      var i :| i in s.invitations && OpenInviteFor(s.contacts, s.invitations[i], seller, customer, phone);
      assert OpenTo(s, s.invitations[i], seller, customer, phone);
    }
  }

  lemma LinkAddedIsOpen(s: Store, t: Store, seller: UserId, customer: UserId, phone: string, now: Time)
    requires LinkAdded(s, t, seller, customer, now)
    ensures InvitedAlready(t, seller, customer, phone)
  {
    assert OpenTo(t, t.invitations[s.nextInvitation], seller, customer, phone);
  }

  lemma EnsuredLink(s: Store, seller: UserId, customer: UserId, phone: string, now: Time)
    requires Inv(s) && seller in s.users
    ensures var t := EnsureLink(s, seller, customer, phone, now).store;
            && (if Acquainted(s, seller, customer) || InvitedAlready(s, seller, customer, phone) then t == s
                else LinkAdded(s, t, seller, customer, now))
            && (Acquainted(t, seller, customer) || InvitedAlready(t, seller, customer, phone))
  {
    AlreadyIff(s, seller, customer, phone);
    LoginNeverHitsIndex(s, seller, customer, phone, now);
    FreshInvitationId(s);
    var t := EnsureLink(s, seller, customer, phone, now).store;
    if !(Acquainted(s, seller, customer) || InvitedAlready(s, seller, customer, phone)) {
      LinkAddedIsOpen(s, t, seller, customer, phone, now);
    }
  }

  /** A new customer with this phone number has been added. */
  ghost function Joined(s: Store, phone: string): Store {
    s.(users := s.users[s.nextUser := User(CUSTOMER, phone, None, false)], nextUser := s.nextUser + 1)
  }

  lemma JoinedIsFine(s: Store, phone: string)
    requires Inv(s) && forall u | u in s.users :: s.users[u].phone != phone
    ensures s.nextUser !in s.users && Inv(Joined(s, phone))
  {
    UsersKeepInv(s, Joined(s, phone));
  }

  /** The account of a first login. */
  lemma FirstLoginIs(s: Store, phone: string, seller: UserId, now: Time)
    requires forall u | u in s.users :: s.users[u].phone != phone
    ensures Step(s, LoginCall(phone, Some(seller), now))
            == Outcome(EnsureLink(Joined(s, phone), seller, s.nextUser, phone, now).store, Done)
  {
    assert UserWithPhone(s.users, phone) == None;
  }

  /** A known customer logs in through a seller's link: if the pair has neither a contact nor an open invitation,
      a fresh link is added, and otherwise nothing changes; so it always has one of them afterwards. */
  lemma LoginOpensLink(s: Store, phone: string, u: UserId, seller: UserId, now: Time)
    requires Inv(s) && u in s.users && s.users[u].phone == phone && s.users[u].role == CUSTOMER && seller in s.users
    ensures var out := Step(s, LoginCall(phone, Some(seller), now));
            && out.reply == Done
            && (if Acquainted(s, seller, u) || InvitedAlready(s, seller, u, phone) then out.store == s
                else LinkAdded(s, out.store, seller, u, now))
            && (Acquainted(out.store, seller, u) || InvitedAlready(out.store, seller, u, phone))
  {
    assert UserWithPhone(s.users, phone) == Some(u);
    EnsuredLink(s, seller, u, phone, now);
  }

  /** The same for a phone number that is not known yet: the customer is added first. */
  lemma FirstLoginOpensLink(s: Store, phone: string, seller: UserId, now: Time)
    requires Inv(s) && seller in s.users && forall u | u in s.users :: s.users[u].phone != phone
    ensures var u, joined := s.nextUser, Joined(s, phone);
            var out := Step(s, LoginCall(phone, Some(seller), now));
            && u !in s.users && out.reply == Done
            && (if Acquainted(joined, seller, u) || InvitedAlready(joined, seller, u, phone) then out.store == joined
                else LinkAdded(joined, out.store, seller, u, now))
            && (Acquainted(out.store, seller, u) || InvitedAlready(out.store, seller, u, phone))
  {
    FirstLoginIs(s, phone, seller, now);
    JoinedIsFine(s, phone);
    EnsuredLink(Joined(s, phone), seller, s.nextUser, phone, now);
  }

  /** Other logins: without a seller, or through the link of an unknown one, only the account may be new; and the
      phone number of somebody who is no customer does not log in as one. */
  lemma PlainLogin(s: Store, phone: string, seller: Option<UserId>, now: Time)
    requires UsersOk(s) && (seller.Some? ==> seller.value !in s.users && seller.value != s.nextUser)
    ensures var out := Step(s, LoginCall(phone, seller, now));
            && ((forall u | u in s.users :: s.users[u].phone != phone) ==>
                  out == Outcome(s.(users := s.users[s.nextUser := User(CUSTOMER, phone, None, false)], nextUser := s.nextUser + 1), Done))
            && (forall u | u in s.users && s.users[u].phone == phone ::
                  out == if s.users[u].role == CUSTOMER then Outcome(s, Done) else Outcome(s, Refused(LoginFailed)))
  {
  }

  lemma StrangersDoNotLogIn(s: Store, phone: string, u: UserId, seller: Option<UserId>, now: Time)
    requires UsersOk(s) && u in s.users && s.users[u].phone == phone && s.users[u].role != CUSTOMER
    ensures Step(s, LoginCall(phone, seller, now)) == Outcome(s, Refused(LoginFailed))
  {
    assert UserWithPhone(s.users, phone) == Some(u);
  }

  // ---------------------------------------------------------------------------------------
  // A customer invites a seller
  // ---------------------------------------------------------------------------------------

  ghost predicate LinkPending(s: Store, seller: UserId, customer: UserId) {
    exists i | i in s.invitations ::
      && s.invitations[i].sellerId == seller && s.invitations[i].customerId == Some(customer)
      && s.invitations[i].inviteFor == ForCustomer && s.invitations[i].status == InviteStatus.PENDING
  }

  /** The guards in their order; after them a pending invitation of the pair is kept as it is, and otherwise a fresh
      link is added or refused by the index. */
  lemma InvitingASeller(s: Store, customer: UserId, seller: UserId, now: Time)
    requires Inv(s)
    ensures var out := Step(s, InviteSellerCall(customer, seller, now));
            if !IsLive(s, customer) then out == Outcome(s, Refused(UserNotFound))
            else if s.users[customer].role != CUSTOMER then out == Outcome(s, Refused(Forbidden))
            else if !IsLive(s, seller) then out == Outcome(s, Refused(UserNotFound))
            else if s.users[seller].role != SELLER then out == Outcome(s, Refused(Forbidden))
            else if Acquainted(s, seller, customer) then out == Outcome(s, Refused(ContactExists))
            else if LinkPending(s, seller, customer) then out == Outcome(s, Done)
            else if out.reply == Done then LinkAdded(s, out.store, seller, customer, now) && LinkPending(out.store, seller, customer)
            else out == Outcome(s, Refused(PairIndexViolation))
  {
    FreshInvitationId(s);
    AlreadyIff(s, seller, customer, "");
    if LinkPending(s, seller, customer) {
      var i :| && i in s.invitations && s.invitations[i].sellerId == seller && s.invitations[i].customerId == Some(customer)
               && s.invitations[i].inviteFor == ForCustomer && s.invitations[i].status == InviteStatus.PENDING;
      assert IsPairRow(s.invitations[i], seller, customer, ForCustomer);
    }
  }

  // ---------------------------------------------------------------------------------------
  // Contacts
  // ---------------------------------------------------------------------------------------

  /** The contact is gone with all invitations that point at it, and everything else stays. */
  lemma DeletingAContact(s: Store, k: ContactId)
    ensures Step(s, DeleteContactCall(k))
            == if k !in s.contacts then Outcome(s, Refused(ContactNotFound))
               else Outcome(s.(contacts := map c | c in s.contacts && c != k :: s.contacts[c],
                               invitations := map i | i in s.invitations && s.invitations[i].contactId != Some(k) :: s.invitations[i]), Done)
  {
    if k in s.contacts {
      assert s.contacts - {k} == map c | c in s.contacts && c != k :: s.contacts[c];
    }
  }

  /** A contact is added as given, NEW, unless a user is unknown or the seller has one with its phone or e-mail. */
  lemma CreatingAContact(s: Store, seller: UserId, phone: Option<string>, email: Option<string>, user: Option<UserId>)
    ensures var known := exists c | c in s.contacts :: s.contacts[c].sellerId == seller
                           && ((phone.Some? && s.contacts[c].phone == phone) || (email.Some? && s.contacts[c].email == email));
            Step(s, CreateContactCall(seller, phone, email, user))
            == if seller !in s.users || (user.Some? && user.value !in s.users) then Outcome(s, Refused(ForeignKeyViolation))
               else if known then Outcome(s, Refused(ContactNotUnique))
               else Outcome(s.(contacts := s.contacts[s.nextContact := Contact(seller, user, phone, email, ContactStatus.NEW)],
                               nextContact := s.nextContact + 1), Done)
  {
    ContactRefusedIff(s.contacts, Contact(seller, user, phone, email, ContactStatus.NEW));
  }

  /** NEW to INVITED: a pending customer-invite of the contact is stored with its user, once the message has gone
      out by phone or e-mail, and the contact is INVITED. */
  lemma InvitingAContact(s: Store, k: ContactId, sent: bool, now: Time)
    requires k in s.contacts && s.contacts[k].status == ContactStatus.NEW
    ensures var contact := s.contacts[k];
            var row := Invitation(contact.sellerId, contact.invitedUserId, Some(k), ForCustomer, NORMAL, InviteStatus.PENDING, None, None, Some(now));
            var taken := exists j | j in s.invitations :: j != s.nextInvitation
                           && contact.invitedUserId.Some?
                           && s.invitations[j].sellerId == contact.sellerId && s.invitations[j].customerId == contact.invitedUserId
                           && s.invitations[j].inviteFor == ForCustomer
                           && s.invitations[j].status != InviteStatus.CANCELLED && s.invitations[j].status != InviteStatus.REJECTED;
            Step(s, EditContactCall(k, ContactStatus.INVITED, sent, now))
            == if (contact.phone == None || contact.phone == Some("")) && (contact.email == None || contact.email == Some(""))
               then Outcome(s, Refused(NoInvitationMethod))
               else if !sent then Outcome(s, Refused(InvitationNotSent))
               else if taken then Outcome(s, Refused(PairIndexViolation))
               else Outcome(s.(invitations := s.invitations[s.nextInvitation := row], nextInvitation := s.nextInvitation + 1,
                               contacts := s.contacts[k := contact.(status := ContactStatus.INVITED)],
                               history := s.history + [SellerInvited(contact.sellerId, k, s.nextInvitation)]), Done)
  {
    IndexRefusesIff(s.invitations, s.nextInvitation,
                    Invitation(s.contacts[k].sellerId, s.contacts[k].invitedUserId, Some(k), ForCustomer, NORMAL,
                               InviteStatus.PENDING, None, None, Some(now)));
  }

  /** INVITED to CANCELLED: the contact's pending invitation is CANCELLED with the time, and the contact is NEW;
      without one the edit is refused. */
  lemma CancellingAContact(s: Store, k: ContactId, sent: bool, now: Time)
    requires Inv(s) && k in s.contacts && s.contacts[k].status == ContactStatus.INVITED
    ensures var out := Step(s, EditContactCall(k, ContactStatus.CANCELLED, sent, now));
            && (forall i | i in s.invitations && s.invitations[i].contactId == Some(k) && s.invitations[i].status == InviteStatus.PENDING ::
                  out == Outcome(s.(
                    invitations := s.invitations[i := s.invitations[i].(status := InviteStatus.CANCELLED, cancelledAt := Some(now))],
                    contacts := s.contacts[k := s.contacts[k].(status := ContactStatus.NEW)]), Done))
            && ((forall i | i in s.invitations ::
                   !(s.invitations[i].contactId == Some(k) && s.invitations[i].status == InviteStatus.PENDING)) ==>
                  out == Outcome(s, Refused(InvitationNotFound)))
  {
    forall i | i in s.invitations && s.invitations[i].contactId == Some(k) && s.invitations[i].status == InviteStatus.PENDING
      ensures PendingInviteOf(s, k) == Some(i)
    {
      var j := PendingInviteOf(s, k).value;
      assert i != j ==> Fit(s.invitations[i], s.invitations[j]);
    }
  }

  /** Any other edit of the status stores it, CANCELLED as NEW, and nothing else. */
  lemma OtherEdits(s: Store, k: ContactId, status: ContactStatus, sent: bool, now: Time)
    requires Legal(s, EditContactCall(k, status, sent, now))
    requires k in s.contacts ==>
               && !(status == ContactStatus.INVITED && s.contacts[k].status == ContactStatus.NEW)
               && !(status == ContactStatus.CANCELLED && s.contacts[k].status == ContactStatus.INVITED)
    ensures Step(s, EditContactCall(k, status, sent, now))
            == if k !in s.contacts then Outcome(s, Refused(ContactNotFound))
               else Outcome(s.(contacts := s.contacts[k := s.contacts[k].(
                      status := if status == ContactStatus.CANCELLED then ContactStatus.NEW else status)]), Done)
  {
  }

  // ---------------------------------------------------------------------------------------
  // Users
  // ---------------------------------------------------------------------------------------

  lemma SigningUp(s: Store, role: Role, phone: string, email: Option<string>)
    ensures Step(s, SignUpCall(role, phone, email))
            == if role == CUSTOMER then Outcome(s, Refused(Forbidden))
               else if email.Some? && email.value != "" && exists u | u in s.users :: s.users[u].email == email then Outcome(s, Refused(EmailExists))
               else if exists u | u in s.users :: s.users[u].phone == phone then Outcome(s, Refused(PhoneExists))
               else Outcome(s.(users := s.users[s.nextUser := User(role, phone, email, false)], nextUser := s.nextUser + 1), Done)
  {
  }

  lemma MarkingAUser(s: Store, u: UserId, deleted: bool)
    ensures Step(s, MarkUserCall(u, deleted)).reply == Done
    ensures var t := Step(s, MarkUserCall(u, deleted)).store;
            t == if u in s.users then s.(users := s.users[u := s.users[u].(deleted := deleted)]) else s
  {
  }

  /** What the environment keeps to: an answer comes with a contact of the pair if the seller's acceptance looks one
      up, and a contact's status is edited along the handshake; every other call may be made at any time. */
  lemma LegalIff(s: Store, call: Call)
    requires Inv(s)
    ensures call.AcceptInviteCall? ==>
              (Legal(s, call) <==>
                && (call.pick.Some? ==> call.pick.value in s.contacts)
                && (call.verb == InviteStatus.ACCEPTED && call.id in s.invitations && s.invitations[call.id].inviteFor == ForSeller
                    && call.actor == s.invitations[call.id].sellerId && IsLive(s, call.actor) ==>
                      var row := s.invitations[call.id];
                      if call.pick.Some?
                      then s.contacts[call.pick.value].sellerId == row.sellerId && s.contacts[call.pick.value].invitedUserId == row.customerId
                      else !Acquainted(s, row.sellerId, row.customerId.value)))
    ensures call.EditContactCall? && call.contact in s.contacts ==>
              var from, to := s.contacts[call.contact].status, call.status;
              (Legal(s, call) <==>
                || (from == ContactStatus.NEW && (to == ContactStatus.NEW || to == ContactStatus.INVITED || to == ContactStatus.CANCELLED))
                || (from == ContactStatus.INVITED && (to == ContactStatus.INVITED || to == ContactStatus.CANCELLED))
                || (from == ContactStatus.ACCEPTED && to == ContactStatus.ACCEPTED))
    ensures call.EditContactCall? && call.contact !in s.contacts ==> Legal(s, call)
    ensures !call.AcceptInviteCall? && !call.EditContactCall? ==> Legal(s, call)
  {
    if call.AcceptInviteCall? && call.id in s.invitations {
      assert InvitationOk(s, call.id);
      if s.invitations[call.id].inviteFor == ForSeller {
        OwnCustomer(s, call.id);
        AlreadyIff(s, s.invitations[call.id].sellerId, s.invitations[call.id].customerId.value, "");
      }
    }
    if call.EditContactCall? && call.contact in s.contacts { assert ContactOk(s, call.contact); }
  }

  // ---------------------------------------------------------------------------------------
  // The relation check
  // ---------------------------------------------------------------------------------------

  /** The relation check passes for a user and himself, and for a customer whom some accepted invitation of the
      seller leads to through its contact; the status of that contact is not looked at. */
  lemma RelationIff(t: Store, customer: UserId, seller: UserId)
    ensures VerifyRelation(t.contacts, t.invitations, customer, seller) <==>
            || customer == seller
            || exists i | i in t.invitations ::
                 && t.invitations[i].status == InviteStatus.ACCEPTED && t.invitations[i].sellerId == seller
                 && t.invitations[i].contactId.Some? && t.invitations[i].contactId.value in t.contacts
                 && t.contacts[t.invitations[i].contactId.value].invitedUserId == Some(customer)
  {
  }
}
