/**
 The services that run the handshake, as sequences of reads and single writes on the tables.
 Nothing here is transactional: a write that is refused ends the call, and the writes before
 it stay.  Each call keeps the tables in good standing after every write; started from tables
 that satisfy the invariant it ends exactly as the transition system of `Protocol` says.
 */
module Services {
  import opened Wrappers
  import opened Schema
  import opened Protocol
  import opened Invariant
  import opened Theorems
  import opened Database

  /** An open invitation, to whichever party, of a contact with the number, or an open customer-invite of the
      user with the number. */
  ghost predicate FoundByNumber(s: Store, row: Invitation, phone: string) {
    || ((row.status == InviteStatus.PENDING || row.status == InviteStatus.REQUESTED)
        && row.contactId.Some? && row.contactId.value in s.contacts && s.contacts[row.contactId.value].phone == Some(phone))
    || (Awaiting(row) && row.customerId.Some? && row.customerId == UserWithPhone(s.users, phone))
  }

  /** The relation check is sound on any tables in good standing. */
  lemma RelationStandsOnConsent(s: Store, customer: UserId, seller: UserId)
    requires Standing(s) && customer != seller && VerifyRelation(s.contacts, s.invitations, customer, seller)
    ensures exists k | k in s.contacts ::
              && ContactOf(s.contacts[k], seller, customer) && s.contacts[k].status == ContactStatus.ACCEPTED
              && Consented(s.history, k, seller, customer)
  {
    var i :| && i in s.invitations && s.invitations[i].status == InviteStatus.ACCEPTED && s.invitations[i].sellerId == seller
             && s.invitations[i].contactId.Some? && s.invitations[i].contactId.value in s.contacts
             && s.contacts[s.invitations[i].contactId.value].invitedUserId == Some(customer);
    var k := s.invitations[i].contactId.value;
    assert InvitationStands(s, i, s.invitations[i]) && ContactStands(s, k, s.contacts[k]);
    assert ContactOf(s.contacts[k], seller, customer);
  }

  class InvitationService {
    const db: Tables

    constructor (db: Tables)
      ensures this.db == db
    {
      this.db := db;
    }

    /** Invite a contact by SMS or e-mail; the row is stored only after the message went out. */
    method CreateInvitation(k: ContactId, sent: bool, now: Time) returns (r: Reply)
      requires db.Valid() && k in db.contacts
      modifies db
      ensures db.Valid() && old(db.trail) <= db.trail
      ensures var s := old(db.Now());
              var row := ContactInvite(k, s.contacts[k], now);
              && (r == Done <==> Reachable(s.contacts[k]) && sent && !Conflicts(s.invitations, s.nextInvitation, row))
              && (r != Done ==> db.Now() == s)
              && (r == Done ==> db.Now() == Perform(Insert(s, row), SellerInvited(s.contacts[k].sellerId, k, s.nextInvitation)))
              && r == (if !Reachable(s.contacts[k]) then Refused(NoInvitationMethod)
                       else if !sent then Refused(InvitationNotSent)
                       else if Conflicts(s.invitations, s.nextInvitation, row) then Refused(PairIndexViolation) else Done)
    {
      var contact := db.contacts[k];
      assert ContactStands(db.Now(), k, contact);
      if !Reachable(contact) {
        return Refused(NoInvitationMethod);
      }
      if !sent {
        return Refused(InvitationNotSent);
      }
      ghost var act := SellerInvited(contact.sellerId, k, db.nextInvitation);
      assert act in db.history + [act];
      var id;
      r, id := db.InsertInvitation(ContactInvite(k, contact, now), [act]);
    }

    /** Store a PENDING invitation of a pair, for the customer or for the seller. */
    method CreateInvitationForCustomer(seller: UserId, customer: UserId, kind: InviteType, recipient: Recipient, now: Time)
      returns (r: Reply)
      requires db.Valid() && customer in db.users
      modifies db
      ensures db.Valid() && old(db.trail) <= db.trail
      ensures var s := old(db.Now());
              var row := PairInvite(seller, customer, kind, recipient, now);
              var acts := if recipient == ForSeller then [CustomerRequested(customer, seller, s.nextInvitation)] else [];
              && r == (if seller !in s.users then Refused(ForeignKeyViolation)
                       else if Conflicts(s.invitations, s.nextInvitation, row) then Refused(PairIndexViolation) else Done)
              && db.Now() == if r == Done then Insert(s, row).(history := s.history + acts) else s
    {
      ghost var acts := if recipient == ForSeller then [CustomerRequested(customer, seller, db.nextInvitation)] else [];
      assert recipient == ForSeller ==> acts[0] in db.history + acts;
      var id;
      r, id := db.InsertInvitation(PairInvite(seller, customer, kind, recipient, now), acts);
    }

    /** Close the pending invitation of a contact and make the contact NEW. */
    method CancelInvitation(k: ContactId, now: Time) returns (r: Reply)
      requires db.Valid() && k in db.contacts && db.contacts[k].status != ContactStatus.ACCEPTED
      modifies db
      ensures db.Valid() && old(db.trail) <= db.trail
      ensures r != Done ==> db.Now() == old(db.Now())
      ensures r == Refused(InvitationNotFound) <==> forall i | i in old(db.invitations) :: !PendingFor(old(db.invitations)[i], k)
      ensures r == Done ==> exists i :: ClosedFor(old(db.Now()), db.Now(), k, i, now)
      ensures r == Done || r == Refused(InvitationNotFound)
    {
      if i :| i in db.invitations && PendingFor(db.invitations[i], k) {
        var row := db.invitations[i];
        assert InvitationStands(db.Now(), i, row) && ContactStands(db.Now(), k, db.contacts[k]);
        r := db.SaveInvitation(i, row.(status := InviteStatus.CANCELLED, cancelledAt := Some(now)));
        assert !Active(row.(status := InviteStatus.CANCELLED, cancelledAt := Some(now)));
        db.SaveContact(k, db.contacts[k].invitedUserId, ContactStatus.NEW, []);
        assert db.history == old(db.history);
        assert ClosedFor(old(db.Now()), db.Now(), k, i, now);
      } else {
        r := Refused(InvitationNotFound);
      }
    }

    method UpdateInvitationStatusById(id: InviteId, status: InviteStatus, now: Time) returns (r: Reply)
      requires db.Valid()
      modifies db
      ensures db.Valid() && old(db.trail) <= db.trail
      ensures r != Done ==> db.Now() == old(db.Now())
      ensures r == (if id !in old(db.invitations) then Refused(InvitationNotFound)
                    else if Conflicts(old(db.invitations), id, Answered(old(db.invitations)[id], status, now))
                    then Refused(PairIndexViolation) else Done)
      ensures r == Done ==>
                db.Now() == old(db.Now()).(invitations := old(db.invitations)[id := Answered(old(db.invitations)[id], status, now)])
    {
      if id !in db.invitations {
        return Refused(InvitationNotFound);
      }
      assert InvitationStands(db.Now(), id, db.invitations[id]);
      r := db.SaveInvitation(id, Answered(db.invitations[id], status, now));
    }

    method DeleteInvitationsByContactId(k: ContactId)
      requires db.Valid()
      modifies db
      ensures db.Valid() && old(db.trail) <= db.trail
      ensures db.Now() == old(db.Now()).(invitations := WithoutContact(old(db.invitations), k))
    {
      db.DeleteInvitations(set i | i in db.invitations && db.invitations[i].contactId == Some(k));
      assert db.invitations == WithoutContact(old(db.invitations), k);
    }

    /** The open customer-invites of one customer. */
    method GetInvitationsByCustomerId(customer: UserId) returns (ids: set<InviteId>)
      ensures forall i :: i in ids <==> i in db.invitations && db.invitations[i].customerId == Some(customer) && Awaiting(db.invitations[i])
    {
      ids := set i | i in db.invitations && db.invitations[i].customerId == Some(customer) && Awaiting(db.invitations[i]);
    }

    /** The open invitations of contacts with a phone number, and those of the user with that number. */
    method GetInvitationByNumber(phone: string) returns (ids: set<InviteId>)
      requires db.Valid()
      ensures forall i :: i in ids <==> i in db.invitations && FoundByNumber(db.Now(), db.invitations[i], phone)
    {
      ids := set i | i in db.invitations
                     && (db.invitations[i].status == InviteStatus.PENDING || db.invitations[i].status == InviteStatus.REQUESTED)
                     && db.invitations[i].contactId.Some? && db.invitations[i].contactId.value in db.contacts
                     && db.contacts[db.invitations[i].contactId.value].phone == Some(phone);
      if u :| u in db.users && db.users[u].phone == phone {
        assert UserWithPhone(db.users, phone) == Some(u);
        var own := GetInvitationsByCustomerId(u);
        ids := ids + own;
      }
    }

    /** Access between two different users means, even between two writes of a call, that both agreed to be
        in contact. */
    method VerifyCustomerSellerRelation(customer: UserId, seller: UserId) returns (b: bool)
      requires db.Valid()
      ensures b == VerifyRelation(db.contacts, db.invitations, customer, seller)
      ensures b && customer != seller ==>
                exists k | k in db.contacts ::
                  && ContactOf(db.contacts[k], seller, customer) && db.contacts[k].status == ContactStatus.ACCEPTED
                  && Consented(db.history, k, seller, customer)
    {
      if customer == seller {
        return true;
      }
      b := exists i | i in db.invitations ::
        && db.invitations[i].status == InviteStatus.ACCEPTED && db.invitations[i].sellerId == seller
        && db.invitations[i].contactId.Some? && db.invitations[i].contactId.value in db.contacts
        && db.contacts[db.invitations[i].contactId.value].invitedUserId == Some(customer);
      if b {
        RelationStandsOnConsent(db.Now(), customer, seller);
      }
    }
  }

  /** Closing a pending invitation of the contact, as the cancelled edit describes it. */
  ghost predicate ClosedFor(s: Store, t: Store, k: ContactId, i: InviteId, now: Time)
    requires k in s.contacts
  {
    && i in s.invitations && PendingFor(s.invitations[i], k)
    && t == SetContactStatus(
              s.(invitations := s.invitations[i := s.invitations[i].(status := InviteStatus.CANCELLED, cancelledAt := Some(now))]),
              k, ContactStatus.CANCELLED)
  }

  lemma NothingPending(s: Store, k: ContactId)
    requires forall i | i in s.invitations :: !PendingFor(s.invitations[i], k)
    ensures PendingInviteOf(s, k) == None
  {
  }

  lemma OnePending(s: Store, k: ContactId, i: InviteId)
    requires PairsOk(s.invitations) && i in s.invitations && PendingFor(s.invitations[i], k)
    ensures PendingInviteOf(s, k) == Some(i)
  {
    var j := PendingInviteOf(s, k).value;
    assert j != i ==> Fit(s.invitations[i], s.invitations[j]);
  }

  /** Cancelling through the invitation service already gives what the whole edit gives. */
  lemma CancelledIsEdited(s: Store, t: Store, k: ContactId, sent: bool, now: Time)
    requires PairsOk(s.invitations) && k in s.contacts && s.contacts[k].status == ContactStatus.INVITED
    requires exists i :: ClosedFor(s, t, k, i, now)
    ensures Outcome(t, Done) == EditContact(s, k, ContactStatus.CANCELLED, sent, now)
    ensures t == SetContactStatus(t, k, ContactStatus.CANCELLED)
  {
    var i :| ClosedFor(s, t, k, i, now);
    OnePending(s, k, i);
  }

  lemma ConflictsIgnoresSelf(invs: Invitations, id: InviteId, row: Invitation, stored: Invitation)
    ensures Conflicts(invs[id := stored], id, row) == Conflicts(invs, id, row)
  {
    forall j | j != id ensures j in invs <==> j in invs[id := stored] { }
    if Conflicts(invs, id, row) {
      var j :| j in invs && j != id && Clash(row, invs[j]);
      assert j in invs[id := stored] && Clash(row, invs[id := stored][j]);
    }
  }

  lemma OverwriteTwice(invs: Invitations, id: InviteId, first: Invitation, second: Invitation)
    ensures invs[id := first][id := second] == invs[id := second]
  {
  }

  /** A row that keeps its pair and was active before does not conflict. */
  lemma ActiveRowFits(invs: Invitations, id: InviteId, row: Invitation)
    requires UniqueActivePairs(invs) && id in invs && SamePair(row, invs[id]) && (Active(row) ==> Active(invs[id]))
    ensures !Conflicts(invs, id, row)
  {
    forall j | j in invs && j != id ensures !Clash(row, invs[j]) {
      assert !Clash(invs[id], invs[j]);
    }
  }

  lemma PrefixOfPrefix(a: seq<Store>, b: seq<Store>, c: seq<Store>)
    requires a <= b <= c
    ensures a <= c
  {
  }

  /** The seller's acceptance, put together from the contact obtained and the two writes after it. */
  lemma SellerAcceptsWhole(s: Store, t: Store, id: InviteId, customer: UserId, pick: Option<ContactId>, k: ContactId, now: Time)
    requires id in s.invitations && (pick.Some? ==> pick.value in s.contacts)
    requires pick.None? ==> !ContactConflicts(s.contacts, NewContact(s, s.invitations[id].sellerId, customer))
    requires k == if pick.Some? then pick.value else s.nextContact
    requires t == Perform(
               s.(contacts := s.contacts[k := if pick.Some?
                                              then s.contacts[k].(invitedUserId := Some(customer), status := ContactStatus.ACCEPTED)
                                              else NewContact(s, s.invitations[id].sellerId, customer)],
                  nextContact := if pick.Some? then s.nextContact else k + 1),
               SellerAccepted(s.invitations[id].sellerId, customer, id, k))
    ensures var accepted := s.invitations[id].(status := InviteStatus.ACCEPTED, contactId := Some(k), acceptedAt := Some(now));
            SellerAccepts(s, id, customer, pick, now)
            == Outcome(t.(invitations := WithoutPair(s.invitations[id := accepted], s.invitations[id].sellerId, customer, ForCustomer)), Done)
  {
  }

  /** A user who is both parties withdraws as customer and then as seller: the same as withdrawing as seller. */
  lemma WithdrawnByBoth(s: Store, id: InviteId, verb: InviteStatus, customer: UserId)
    requires id in s.invitations
    ensures var first := WithdrawSellerInvite(s, id, verb, false, customer);
            first.(invitations := RestoreRequested(first.invitations - {id}, s.invitations[id].sellerId, customer))
            == WithdrawSellerInvite(s, id, verb, true, customer)
  {
    var left := s.invitations - {id};
    assert left - {id} == left;
    assert RestoreRequested(RestoreRequested(left, s.invitations[id].sellerId, customer) - {id}, s.invitations[id].sellerId, customer)
        == RestoreRequested(left, s.invitations[id].sellerId, customer);
  }

  class ContactService {
    const db: Tables
    const invitations: InvitationService

    constructor (db: Tables, invitations: InvitationService)
      ensures this.db == db && this.invitations == invitations
    {
      this.db, this.invitations := db, invitations;
    }

    predicate Wired() {
      invitations.db == db
    }

    method Create(seller: UserId, phone: Option<string>, email: Option<string>) returns (r: Reply)
      requires Wired() && db.Valid()
      modifies db
      ensures db.Valid() && old(db.trail) <= db.trail
      ensures Outcome(db.Now(), r) == CreateContact(old(db.Now()), seller, phone, email, None)
    {
      if seller !in db.users {
        return Refused(ForeignKeyViolation);
      }
      var k;
      r, k := db.InsertContact(Contact(seller, None, phone, email, ContactStatus.NEW), []);
      assert db.history == old(db.history) + [] || db.history == old(db.history);
    }

    /** An update of the status alone that neither makes nor undoes an acceptance. */
    method UpdateStatus(k: ContactId, status: ContactStatus, sent: bool, now: Time) returns (r: Reply)
      requires Wired() && db.Valid()
      requires k in db.contacts ==> (status == ContactStatus.ACCEPTED <==> db.contacts[k].status == ContactStatus.ACCEPTED)
      modifies db
      ensures db.Valid() && old(db.trail) <= db.trail
      ensures old(PairsOk(db.invitations)) ==> Outcome(db.Now(), r) == EditContact(old(db.Now()), k, status, sent, now)
    {
      if k !in db.contacts {
        return Refused(ContactNotFound);
      }
      var contact := db.contacts[k];
      if status == ContactStatus.INVITED && contact.status == ContactStatus.NEW {
        r := InviteThenStore(k, sent, now);
      } else if status == ContactStatus.CANCELLED && contact.status == ContactStatus.INVITED {
        r := CancelThenStore(k, sent, now);
      } else {
        StoreStatus(k, status);
        r := Done;
      }
    }

    /** NEW to INVITED: the invitation first, then the status. */
    method InviteThenStore(k: ContactId, sent: bool, now: Time) returns (r: Reply)
      requires Wired() && db.Valid() && k in db.contacts && db.contacts[k].status == ContactStatus.NEW
      modifies db
      ensures db.Valid() && old(db.trail) <= db.trail
      ensures Outcome(db.Now(), r) == EditContact(old(db.Now()), k, ContactStatus.INVITED, sent, now)
    {
      r := invitations.CreateInvitation(k, sent, now);
      if r != Done {
        return;
      }
      ghost var created := db.trail;
      StoreStatus(k, ContactStatus.INVITED);
      PrefixOfPrefix(old(db.trail), created, db.trail);
    }

    /** INVITED to CANCELLED: the invitation is closed first, which makes the contact NEW already. */
    method CancelThenStore(k: ContactId, ghost sent: bool, now: Time) returns (r: Reply)
      requires Wired() && db.Valid() && k in db.contacts && db.contacts[k].status == ContactStatus.INVITED
      modifies db
      ensures db.Valid() && old(db.trail) <= db.trail
      ensures old(PairsOk(db.invitations)) ==>
                Outcome(db.Now(), r) == EditContact(old(db.Now()), k, ContactStatus.CANCELLED, sent, now)
    {
      r := invitations.CancelInvitation(k, now);
      if r != Done {
        NothingPending(old(db.Now()), k);
        return;
      }
      if old(PairsOk(db.invitations)) { CancelledIsEdited(old(db.Now()), db.Now(), k, sent, now); }
      ghost var cancelled := db.trail;
      StoreStatus(k, ContactStatus.CANCELLED);
      PrefixOfPrefix(old(db.trail), cancelled, db.trail);
    }

    /** The write that ends a status update; the contact's user stays as it is. */
    method StoreStatus(k: ContactId, status: ContactStatus)
      requires db.Valid() && k in db.contacts
      requires StoredStatus(status) == ContactStatus.ACCEPTED <==> db.contacts[k].status == ContactStatus.ACCEPTED
      modifies db
      ensures db.Valid() && old(db.trail) <= db.trail
      ensures db.Now() == SetContactStatus(old(db.Now()), k, status)
    {
      assert ContactStands(db.Now(), k, db.contacts[k]);
      assert db.history + [] == db.history;
      db.SaveContact(k, db.contacts[k].invitedUserId, StoredStatus(status), []);
    }

    /** An update that names the contact's user and accepts the contact. */
    method UpdateAccepted(k: ContactId, user: UserId, ghost acts: seq<Act>)
      requires Wired() && db.Valid() && k in db.contacts && user in db.users
      requires Consented(db.history + acts, k, db.contacts[k].sellerId, user)
      modifies db
      ensures db.Valid() && old(db.trail) <= db.trail
      ensures db.Now() == old(db.Now()).(
                contacts := old(db.contacts)[k := old(db.contacts)[k].(invitedUserId := Some(user), status := ContactStatus.ACCEPTED)],
                history := old(db.history) + acts)
    {
      db.SaveContact(k, Some(user), StoredStatus(ContactStatus.ACCEPTED), acts);
    }

    method Delete(k: ContactId) returns (r: Reply)
      requires Wired() && db.Valid()
      modifies db
      ensures db.Valid() && old(db.trail) <= db.trail
      ensures Outcome(db.Now(), r) == DeleteContact(old(db.Now()), k)
    {
      if k !in db.contacts {
        return Refused(ContactNotFound);
      }
      invitations.DeleteInvitationsByContactId(k);
      db.RemoveContact(k);
      r := Done;
    }

    method FindBySellerAndCustomer(seller: UserId, customer: UserId) returns (pick: Option<ContactId>)
      ensures Picks(db.contacts, seller, customer, pick)
    {
      if k :| k in db.contacts && ContactOf(db.contacts[k], seller, customer) {
        pick := Some(k);
      } else {
        pick := None;
      }
    }
  }

  class AuthService {
    const db: Tables
    const invitations: InvitationService
    const contacts: ContactService

    constructor (db: Tables, invitations: InvitationService, contacts: ContactService)
      ensures this.db == db && this.invitations == invitations && this.contacts == contacts
    {
      this.db, this.invitations, this.contacts := db, invitations, contacts;
    }

    predicate Wired() {
      invitations.db == db && contacts.db == db && contacts.Wired()
    }

    method SignUp(role: Role, phone: string, email: Option<string>) returns (r: Reply)
      requires Wired() && db.Valid()
      modifies db
      ensures db.Valid() && old(db.trail) <= db.trail
      ensures Outcome(db.Now(), r) == Protocol.SignUp(old(db.Now()), role, phone, email)
    {
      if role == CUSTOMER {
        return Refused(Forbidden);
      }
      if email.Some? && email.value != "" {
        if exists u | u in db.users :: db.users[u].email == email {
          return Refused(EmailExists);
        }
      }
      if exists u | u in db.users :: db.users[u].phone == phone {
        return Refused(PhoneExists);
      }
      var u := db.InsertUser(User(role, phone, email, false));
      r := Done;
    }

    /** Is there an open invitation of the seller, by customer or by phone number? */
    method HasOpenInvitation(seller: UserId, customer: UserId, phone: string) returns (found: bool)
      requires Wired() && db.Valid() && customer in db.users && db.users[customer].phone == phone
      ensures found == HasOpenInvite(db.Now(), seller, customer, phone)
    {
      var own := invitations.GetInvitationsByCustomerId(customer);
      var byPhone := invitations.GetInvitationByNumber(phone);
      assert UserWithPhone(db.users, phone) == Some(customer);
      var open := set i | i in own + byPhone && db.invitations[i].sellerId == seller;
      found := exists i | i in open :: Awaiting(db.invitations[i]);
      if found {
        ghost var i :| i in open && Awaiting(db.invitations[i]);
        assert OpenInviteFor(db.contacts, db.invitations[i], seller, customer, phone);
      }
      forall i | i in db.invitations && OpenInviteFor(db.contacts, db.invitations[i], seller, customer, phone) ensures i in open { }
    }

    /** Make sure the pair has a link invitation unless it has a contact or an open invitation. */
    method EnsureLinkInvitation(seller: UserId, customer: UserId, phone: string, now: Time) returns (r: Reply)
      requires Wired() && db.Valid() && customer in db.users && db.users[customer].phone == phone
      modifies db
      ensures db.Valid() && old(db.trail) <= db.trail
      ensures Outcome(db.Now(), r) == EnsureLink(old(db.Now()), seller, customer, phone, now)
    {
      var hasOpen := HasOpenInvitation(seller, customer, phone);
      var existing := contacts.FindBySellerAndCustomer(seller, customer);
      if existing.Some? || hasOpen {
        return Done;
      }
      r := invitations.CreateInvitationForCustomer(seller, customer, LINK, ForCustomer, now);
      assert db.history + [] == db.history;
    }

    /** A customer's login; the outcome of making the link invitation is not reported. */
    method Login(phone: string, seller: Option<UserId>, now: Time) returns (r: Reply)
      requires Wired() && db.Valid()
      modifies db
      ensures db.Valid() && old(db.trail) <= db.trail
      ensures Outcome(db.Now(), r) == Protocol.Login(old(db.Now()), phone, seller, now)
    {
      var customer: UserId;
      if u :| u in db.users && db.users[u].phone == phone {
        assert UserWithPhone(db.users, phone) == Some(u);
        if db.users[u].role != CUSTOMER {
          return Refused(LoginFailed);
        }
        customer := u;
      } else {
        assert UserWithPhone(db.users, phone) == None;
        customer := db.InsertUser(User(CUSTOMER, phone, None, false));
      }
      if seller.Some? {
        var logged := EnsureLinkInvitation(seller.value, customer, phone, now);
      }
      r := Done;
    }

    method InviteSeller(customer: UserId, seller: UserId, now: Time) returns (r: Reply)
      requires Wired() && db.Valid()
      modifies db
      ensures db.Valid() && old(db.trail) <= db.trail
      ensures Outcome(db.Now(), r) == Protocol.InviteSeller(old(db.Now()), customer, seller, now)
    {
      if customer !in db.users || db.users[customer].deleted {
        return Refused(UserNotFound);
      }
      if db.users[customer].role != CUSTOMER {
        return Refused(Forbidden);
      }
      if seller !in db.users || db.users[seller].deleted {
        return Refused(UserNotFound);
      }
      if db.users[seller].role != SELLER {
        return Refused(Forbidden);
      }
      var existing := contacts.FindBySellerAndCustomer(seller, customer);
      if existing.Some? {
        return Refused(ContactExists);
      }
      var own := invitations.GetInvitationsByCustomerId(customer);
      if exists i | i in own :: db.invitations[i].sellerId == seller && db.invitations[i].status == InviteStatus.PENDING {
        ghost var i :| i in own && db.invitations[i].sellerId == seller && db.invitations[i].status == InviteStatus.PENDING;
        assert IsPairRow(db.invitations[i], seller, customer, ForCustomer);
        return Done;
      }
      assert !HasWithStatus(db.invitations, seller, customer, ForCustomer, InviteStatus.PENDING) by {
        forall i | i in db.invitations && IsPairRow(db.invitations[i], seller, customer, ForCustomer)
          ensures db.invitations[i].status != InviteStatus.PENDING
        {
          assert i in own <==> Awaiting(db.invitations[i]);
        }
      }
      r := invitations.CreateInvitationForCustomer(seller, customer, LINK, ForCustomer, now);
      assert db.history + [] == db.history;
    }

    /** ACCEPTED on a contact's invitation: status, then contact, then the invitation's customer. */
    method AcceptContactInvitation(id: InviteId, customer: UserId, now: Time) returns (r: Reply)
      requires Wired() && db.Valid() && customer in db.users
      requires id in db.invitations && db.invitations[id].inviteFor == ForCustomer
      requires db.invitations[id].contactId.Some? && db.invitations[id].contactId.value in db.contacts
      modifies db
      ensures db.Valid() && old(db.trail) <= db.trail
      ensures Outcome(db.Now(), r) == AcceptForContact(old(db.Now()), id, customer, now)
    {
      var row := db.invitations[id];
      if row.status != InviteStatus.PENDING {
        return Refused(AlreadyProcessed);
      }
      MarkAccepted(id, customer, now);
      if row.customerId.Some? {
        return Done;
      }
      ghost var named := Answered(row, InviteStatus.ACCEPTED, now).(customerId := Some(customer));
      ConflictsIgnoresSelf(old(db.invitations), id, named, db.invitations[id]);
      OverwriteTwice(old(db.invitations), id, db.invitations[id], named);
      r := NameCustomer(id, customer);
    }

    /** The first two writes of an acceptance: the invitation's status and the contact. */
    method MarkAccepted(id: InviteId, customer: UserId, now: Time)
      requires Wired() && db.Valid() && customer in db.users
      requires id in db.invitations && db.invitations[id].inviteFor == ForCustomer
      requires db.invitations[id].status == InviteStatus.PENDING
      requires db.invitations[id].contactId.Some? && db.invitations[id].contactId.value in db.contacts
      modifies db
      ensures db.Valid() && old(db.trail) <= db.trail
      ensures var s := old(db.Now());
              var row := s.invitations[id];
              var k := row.contactId.value;
              db.Now() == Perform(
                s.(invitations := s.invitations[id := Answered(row, InviteStatus.ACCEPTED, now)],
                   contacts := s.contacts[k := s.contacts[k].(invitedUserId := Some(customer), status := ContactStatus.ACCEPTED)]),
                CustomerAccepted(customer, k, id))
    {
      var row := db.invitations[id];
      var k := row.contactId.value;
      assert InvitationStands(db.Now(), id, row);
      ActiveRowFits(db.invitations, id, Answered(row, InviteStatus.ACCEPTED, now));
      var r := invitations.UpdateInvitationStatusById(id, InviteStatus.ACCEPTED, now);
      ghost var act := CustomerAccepted(customer, k, id);
      ConsentGiven(db.history, SellerInvited(row.sellerId, k, id), act, k, row.sellerId, customer);
      contacts.UpdateAccepted(k, customer, [act]);
    }

    /** The invitation of an accepted contact learns who its customer is. */
    method NameCustomer(id: InviteId, customer: UserId) returns (r: Reply)
      requires Wired() && db.Valid() && customer in db.users
      requires id in db.invitations && db.invitations[id].inviteFor == ForCustomer
      modifies db
      ensures db.Valid() && old(db.trail) <= db.trail
      ensures var named := old(db.invitations)[id].(customerId := Some(customer));
              && r == (if Conflicts(old(db.invitations), id, named) then Refused(PairIndexViolation) else Done)
              && db.Now() == if r == Done then old(db.Now()).(invitations := old(db.invitations)[id := named]) else old(db.Now())
    {
      assert InvitationStands(db.Now(), id, db.invitations[id]);
      r := db.SaveInvitation(id, db.invitations[id].(customerId := Some(customer)));
    }

    /** REJECTED or CANCELLED on a contact's pending invitation. */
    method DeclineContactInvitation(id: InviteId, verb: InviteStatus, now: Time)
      requires Wired() && db.Valid() && Withdraws(verb)
      requires id in db.invitations && db.invitations[id].contactId.Some? && db.invitations[id].contactId.value in db.contacts
      modifies db
      ensures db.Valid() && old(db.trail) <= db.trail
      ensures db.Now() == DeclineForContact(old(db.Now()), id, verb, now)
    {
      var row := db.invitations[id];
      assert !Active(Answered(row, verb, now));
      var r := invitations.UpdateInvitationStatusById(id, verb, now);
      db.SaveContact(row.contactId.value, None, ContactStatus.NEW, []);
      assert db.history == old(db.history);
    }

    method AcceptColdContactCustomerInvite(id: InviteId, verb: InviteStatus, actor: UserId, now: Time) returns (r: Reply)
      requires Wired() && db.Valid() && actor in db.users
      requires id in db.invitations && db.invitations[id].inviteFor == ForCustomer
      requires db.invitations[id].contactId.Some? && db.invitations[id].contactId.value in db.contacts
      modifies db
      ensures db.Valid() && old(db.trail) <= db.trail
      ensures Outcome(db.Now(), r) == AnswerCold(old(db.Now()), id, verb, actor, now)
    {
      if verb == InviteStatus.ACCEPTED {
        r := AcceptContactInvitation(id, actor, now);
        return;
      }
      if verb == InviteStatus.REJECTED || verb == InviteStatus.CANCELLED {
        if db.invitations[id].status != InviteStatus.PENDING {
          return Refused(AlreadyProcessed);
        }
        DeclineContactInvitation(id, verb, now);
        return Done;
      }
      return Refused(InvalidInput);
    }

    /** The customer answers a contact's invitation, including the roll-back of a REQUESTED one. */
    method CustomerAnswersContactInvite(id: InviteId, verb: InviteStatus, customer: UserId, now: Time) returns (r: Reply)
      requires Wired() && db.Valid() && customer in db.users
      requires id in db.invitations && db.invitations[id].inviteFor == ForCustomer
      requires db.invitations[id].contactId.Some? && db.invitations[id].contactId.value in db.contacts
      modifies db
      ensures db.Valid() && old(db.trail) <= db.trail
      ensures Outcome(db.Now(), r) == AnswerContactInvite(old(db.Now()), id, verb, customer, now)
    {
      var row := db.invitations[id];
      if verb == InviteStatus.ACCEPTED {
        r := AcceptContactInvitation(id, customer, now);
      } else if verb == InviteStatus.REJECTED || verb == InviteStatus.CANCELLED {
        if row.status == InviteStatus.PENDING {
          DeclineContactInvitation(id, verb, now);
        } else if verb == InviteStatus.CANCELLED && row.status == InviteStatus.REQUESTED {
          RollBackRequest(id, customer);
        } else {
          db.DeleteInvitations({id});
        }
        r := Done;
      } else {
        r := Done;
      }
    }

    /** CANCELLED on a REQUESTED invitation: back to PENDING, and the pair's seller-invites go. */
    method RollBackRequest(id: InviteId, customer: UserId)
      requires Wired() && db.Valid() && id in db.invitations
      requires db.invitations[id].inviteFor == ForCustomer && db.invitations[id].status == InviteStatus.REQUESTED
      modifies db
      ensures db.Valid() && old(db.trail) <= db.trail
      ensures var row := old(db.invitations)[id];
              db.Now() == old(db.Now()).(
                invitations := WithoutPair(old(db.invitations)[id := Restored(row)], row.sellerId, customer, ForSeller))
    {
      var row := db.invitations[id];
      assert InvitationStands(db.Now(), id, row);
      if Active(row) { ActiveRowFits(db.invitations, id, Restored(row)); }
      var r := db.SaveInvitation(id, Restored(row));
      db.DeletePair(row.sellerId, customer, ForSeller);
    }

    /** The customer answers a link invitation. */
    method CustomerAnswersLink(id: InviteId, verb: InviteStatus, customer: UserId, now: Time) returns (r: Reply)
      requires Wired() && db.Valid() && customer in db.users
      requires id in db.invitations && db.invitations[id].inviteFor == ForCustomer && db.invitations[id].contactId.None?
      modifies db
      ensures db.Valid() && old(db.trail) <= db.trail
      ensures old(Inv(db.Now())) && old(db.invitations)[id].customerId == Some(customer) ==>
                Outcome(db.Now(), r) == Outcome(AnswerLink(old(db.Now()), id, verb, customer, now), Done)
    {
      var row := db.invitations[id];
      assert InvitationStands(db.Now(), id, row);
      if verb == InviteStatus.ACCEPTED {
        r := RequestLink(id, customer, now);
      } else if verb == InviteStatus.REJECTED || verb == InviteStatus.CANCELLED {
        if verb == InviteStatus.CANCELLED && row.status == InviteStatus.REQUESTED {
          RollBackRequest(id, customer);
        } else {
          db.DeleteInvitations({id});
        }
        r := Done;
      } else {
        r := Done;
      }
    }

    /** ACCEPTED on a link invitation: it becomes REQUESTED, and a seller-invite is spawned if there is none. */
    method RequestLink(id: InviteId, customer: UserId, now: Time) returns (r: Reply)
      requires Wired() && db.Valid() && customer in db.users
      requires id in db.invitations && db.invitations[id].inviteFor == ForCustomer && db.invitations[id].contactId.None?
      modifies db
      ensures db.Valid() && old(db.trail) <= db.trail
      ensures old(Inv(db.Now())) && old(db.invitations)[id].customerId == Some(customer) ==>
                r == Done && db.Now() == Request(old(db.Now()), id, customer, now)
    {
      var row := db.invitations[id];
      assert InvitationStands(db.Now(), id, row);
      if Inv(db.Now()) {
        RequestNeverHitsIndex(db.Now(), id, customer, now);
      }
      r := db.SaveInvitation(id, row.(status := InviteStatus.REQUESTED));
      if r != Done {
        return;
      }
      ghost var saved := db.trail;
      if !exists i | i in db.invitations :: IsPairRow(db.invitations[i], row.sellerId, customer, ForSeller) && Active(db.invitations[i]) {
        r := invitations.CreateInvitationForCustomer(row.sellerId, customer, row.inviteType, ForSeller, now);
        PrefixOfPrefix(old(db.trail), saved, db.trail);
      }
    }

    /** A customer withdraws a seller-invite. */
    method CustomerWithdrawsSellerInvite(id: InviteId, verb: InviteStatus, customer: UserId)
      requires Wired() && db.Valid() && id in db.invitations && Withdraws(verb)
      modifies db
      ensures db.Valid() && old(db.trail) <= db.trail
      ensures db.Now() == WithdrawSellerInvite(old(db.Now()), id, verb, false, customer)
    {
      var seller := db.invitations[id].sellerId;
      db.DeleteInvitations({id});
      if verb == InviteStatus.CANCELLED {
        db.RestorePair(seller, customer);
      }
    }

    /** The seller answers a seller-invite, which the same user may just have withdrawn as its customer. */
    method SellerAnswers(id: InviteId, verb: InviteStatus, row: Invitation, customer: UserId, now: Time)
      returns (r: Reply, pick: Option<ContactId>)
      requires Wired() && db.Valid() && customer in db.users
      requires row.inviteFor == ForSeller && row.sellerId in db.users
      requires verb == InviteStatus.ACCEPTED ==> id in db.invitations && db.invitations[id] == row
      requires CustomerOf(db.contacts, row) == Some(customer)
      modifies db
      ensures db.Valid() && old(db.trail) <= db.trail
      ensures if verb == InviteStatus.ACCEPTED then Picks(old(db.contacts), row.sellerId, customer, pick) else pick == None
      ensures verb == InviteStatus.ACCEPTED && Active(row) ==>
                Outcome(db.Now(), r) == SellerAccepts(old(db.Now()), id, customer, pick, now)
      ensures Withdraws(verb) ==>
                r == Done && db.Now() == old(db.Now()).(invitations := RestoreRequested(old(db.invitations) - {id}, row.sellerId, customer))
      ensures verb != InviteStatus.ACCEPTED && !Withdraws(verb) ==> r == Done && db.Now() == old(db.Now())
    {
      r, pick := Done, None;
      if verb == InviteStatus.ACCEPTED {
        pick := contacts.FindBySellerAndCustomer(row.sellerId, customer);
        r := SellerTakesContact(id, customer, pick, now);
      } else if verb == InviteStatus.REJECTED || verb == InviteStatus.CANCELLED {
        db.DeleteInvitations({id});
        db.RestorePair(row.sellerId, customer);
      }
    }

    /** ACCEPTED by the seller: contact first, then the invitation, then the customer-invites go. */
    method SellerTakesContact(id: InviteId, customer: UserId, pick: Option<ContactId>, now: Time) returns (r: Reply)
      requires Wired() && db.Valid() && customer in db.users
      requires id in db.invitations && db.invitations[id].inviteFor == ForSeller
      requires CustomerOf(db.contacts, db.invitations[id]) == Some(customer)
      requires Picks(db.contacts, db.invitations[id].sellerId, customer, pick)
      modifies db
      ensures db.Valid() && old(db.trail) <= db.trail
      ensures old(Active(db.invitations[id])) ==> Outcome(db.Now(), r) == SellerAccepts(old(db.Now()), id, customer, pick, now)
    {
      var seller := db.invitations[id].sellerId;
      var k;
      r, k := ObtainContact(id, customer, pick);
      if r != Done {
        return;
      }
      ghost var taken := (db.trail, db.Now());
      r := MarkTaken(id, k, now);
      if r != Done {
        return;
      }
      if old(Active(db.invitations[id])) { SellerAcceptsWhole(old(db.Now()), taken.1, id, customer, pick, k, now); }
      ghost var before := db.trail;
      PrefixOfPrefix(old(db.trail), taken.0, before);
      db.DeletePair(seller, customer, ForCustomer);
      PrefixOfPrefix(old(db.trail), before, db.trail);
    }

    /** The seller-invite becomes ACCEPTED and points at the contact. */
    method MarkTaken(id: InviteId, k: ContactId, now: Time) returns (r: Reply)
      requires db.Valid() && id in db.invitations && db.invitations[id].inviteFor == ForSeller
      requires k in db.contacts && db.contacts[k].sellerId == db.invitations[id].sellerId
      modifies db
      ensures db.Valid() && old(db.trail) <= db.trail
      ensures old(Active(db.invitations[id])) ==> r == Done
      ensures r != Done ==> db.Now() == old(db.Now())
      ensures r == Done ==>
                db.Now() == old(db.Now()).(invitations := old(db.invitations)[id :=
                  old(db.invitations)[id].(status := InviteStatus.ACCEPTED, contactId := Some(k), acceptedAt := Some(now))])
    {
      var accepted := db.invitations[id].(status := InviteStatus.ACCEPTED, contactId := Some(k), acceptedAt := Some(now));
      assert InvitationStands(db.Now(), id, db.invitations[id]);
      if Active(db.invitations[id]) { ActiveRowFits(db.invitations, id, accepted); }
      r := db.SaveInvitation(id, accepted);
    }

    /** The pair's contact is taken over if there is one, and created otherwise. */
    method ObtainContact(id: InviteId, customer: UserId, pick: Option<ContactId>) returns (r: Reply, k: ContactId)
      requires Wired() && db.Valid() && customer in db.users
      requires id in db.invitations && db.invitations[id].inviteFor == ForSeller
      requires CustomerOf(db.contacts, db.invitations[id]) == Some(customer)
      requires Picks(db.contacts, db.invitations[id].sellerId, customer, pick)
      modifies db
      ensures db.Valid() && old(db.trail) <= db.trail
      ensures var s := old(db.Now());
              var row := s.invitations[id];
              var created := NewContact(s, row.sellerId, customer);
              && r == (if pick.None? && ContactConflicts(s.contacts, created) then Refused(ContactNotUnique) else Done)
              && (r != Done ==> db.Now() == s)
              && (r == Done ==>
                    && k == (if pick.Some? then pick.value else s.nextContact)
                    && k in db.contacts && db.contacts[k].sellerId == row.sellerId
                    && db.Now() == Perform(
                         s.(contacts := s.contacts[k := if pick.Some?
                                                        then s.contacts[k].(invitedUserId := Some(customer), status := ContactStatus.ACCEPTED)
                                                        else created],
                            nextContact := if pick.Some? then s.nextContact else k + 1),
                         SellerAccepted(row.sellerId, customer, id, k)))
    {
      var row := db.invitations[id];
      assert InvitationStands(db.Now(), id, row);
      if pick.None? {
        ghost var act := SellerAccepted(row.sellerId, customer, id, db.nextContact);
        assert row.customerId == Some(customer) by {
          if row.contactId.Some? { assert !ContactOf(db.contacts[row.contactId.value], row.sellerId, customer); }
        }
        ConsentGiven(db.history, CustomerRequested(customer, row.sellerId, id), act, db.nextContact, row.sellerId, customer);
        var live := !db.users[customer].deleted;
        r, k := db.InsertContact(Contact(row.sellerId, Some(customer),
                                         if live then Some(db.users[customer].phone) else None,
                                         if live then db.users[customer].email else None,
                                         ContactStatus.ACCEPTED), [act]);
      } else {
        k := pick.value;
        ghost var act := SellerAccepted(row.sellerId, customer, id, k);
        assert ContactStands(db.Now(), k, db.contacts[k]);
        ConsentLasts(db.history, act, k, row.sellerId, customer);
        contacts.UpdateAccepted(k, customer, [act]);
        r := Done;
      }
    }

    /** One answer to one invitation by one user; `pick` is the contact the seller's lookup returned. */
    method AcceptInvite(id: InviteId, verb: InviteStatus, actor: UserId, now: Time) returns (r: Reply, pick: Option<ContactId>)
      requires Wired() && db.Valid()
      modifies db
      ensures db.Valid() && old(db.trail) <= db.trail
      ensures old(Inv(db.Now())) ==>
                && LookupOk(old(db.Now()), id, verb, actor, pick)
                && Outcome(db.Now(), r) == Protocol.AcceptInvite(old(db.Now()), id, verb, actor, pick, now)
    {
      pick := None;
      if id !in db.invitations {
        return Refused(InvitationNotFound), None;
      }
      var row := db.invitations[id];
      assert InvitationStands(db.Now(), id, row);
      if actor !in db.users || db.users[actor].deleted {
        return Refused(UserNotFound), None;
      }
      var customer := CustomerOf(db.contacts, row);
      var bySeller := actor == row.sellerId;
      var byCustomer := customer == Some(actor);
      if !bySeller && !byCustomer && Cold(row, customer) && db.users[actor].role == CUSTOMER {
        r := AcceptColdContactCustomerInvite(id, verb, actor, now);
        return;
      }
      if !bySeller && !byCustomer {
        return Refused(Forbidden), None;
      }
      if row.inviteFor == ForCustomer {
        r := Done;
        if byCustomer {
          r := CustomerAnswers(id, verb, actor, now);
        }
      } else {
        r, pick := ParticipantAnswersSellerInvite(id, verb, bySeller, byCustomer, customer, now);
      }
    }

    /** The customer answers an invitation addressed to the customer. */
    method CustomerAnswers(id: InviteId, verb: InviteStatus, customer: UserId, now: Time) returns (r: Reply)
      requires Wired() && db.Valid() && customer in db.users
      requires id in db.invitations && db.invitations[id].inviteFor == ForCustomer
      requires db.invitations[id].contactId.Some? ==> db.invitations[id].contactId.value in db.contacts
      requires CustomerOf(db.contacts, db.invitations[id]) == Some(customer)
      modifies db
      ensures db.Valid() && old(db.trail) <= db.trail
      ensures old(Inv(db.Now())) ==>
                Outcome(db.Now(), r) == if old(db.invitations)[id].contactId.Some?
                                        then AnswerContactInvite(old(db.Now()), id, verb, customer, now)
                                        else Outcome(AnswerLink(old(db.Now()), id, verb, customer, now), Done)
    {
      if Inv(db.Now()) { assert InvitationOk(db.Now(), id); }
      if db.invitations[id].contactId.Some? {
        r := CustomerAnswersContactInvite(id, verb, customer, now);
      } else {
        r := CustomerAnswersLink(id, verb, customer, now);
      }
    }

    /** A seller-invite is answered by its customer, by its seller, or by a user who is both. */
    method ParticipantAnswersSellerInvite(id: InviteId, verb: InviteStatus, bySeller: bool, byCustomer: bool,
                                          customer: Option<UserId>, now: Time)
      returns (r: Reply, pick: Option<ContactId>)
      requires Wired() && db.Valid() && (bySeller || byCustomer)
      requires id in db.invitations && db.invitations[id].inviteFor == ForSeller
      requires customer == CustomerOf(db.contacts, db.invitations[id])
      requires byCustomer ==> customer.Some?
      modifies db
      ensures db.Valid() && old(db.trail) <= db.trail
      ensures pick.Some? ==> pick.value in old(db.contacts)
      ensures customer.Some? && bySeller && verb == InviteStatus.ACCEPTED ==>
                Picks(old(db.contacts), old(db.invitations)[id].sellerId, customer.value, pick)
      ensures old(Inv(db.Now())) ==>
                && customer.Some?
                && Outcome(db.Now(), r) == AnswerSellerInvite(old(db.Now()), id, verb, bySeller, customer.value, pick, now)
    {
      var row := db.invitations[id];
      assert InvitationStands(db.Now(), id, row);
      if Inv(db.Now()) { assert InvitationOk(db.Now(), id); }
      if customer.None? {
        return Refused(InvalidInput), None;
      }
      var cus := customer.value;
      assert cus in db.users by {
        if row.contactId.Some? { assert ContactStands(db.Now(), row.contactId.value, db.contacts[row.contactId.value]); }
      }
      r, pick := Done, None;
      if byCustomer && (verb == InviteStatus.REJECTED || verb == InviteStatus.CANCELLED) {
        CustomerWithdrawsSellerInvite(id, verb, cus);
        WithdrawnByBoth(old(db.Now()), id, verb, cus);
      }
      if bySeller {
        r, pick := SellerAnswers(id, verb, row, cus, now);
      }
    }
  }

  class UserService {
    const db: Tables

    constructor (db: Tables)
      ensures this.db == db
    {
      this.db := db;
    }

    /** `softDelete`: the user's contacts and invitations stay. */
    method SoftDelete(u: UserId)
      requires db.Valid()
      modifies db
      ensures db.Valid() && old(db.trail) <= db.trail
      ensures db.Now() == MarkUser(old(db.Now()), u, true)
    {
      if u in db.users { db.SetDeleted(u, true); }
    }

    method MakeActive(u: UserId)
      requires db.Valid()
      modifies db
      ensures db.Valid() && old(db.trail) <= db.trail
      ensures db.Now() == MarkUser(old(db.Now()), u, false)
    {
      if u in db.users { db.SetDeleted(u, false); }
    }
  }
}
