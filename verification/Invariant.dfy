/**
 The invariant of the handshake tables, and the proof that every legal call keeps it.
 */
module Invariant {
  import opened Wrappers
  import opened Schema
  import opened Protocol

  // ---------------------------------------------------------------------------------------
  // Two-sided consent
  // ---------------------------------------------------------------------------------------

  /** Acts `a` then `b` are the two halves of an agreement between seller and customer over contact `k`. */
  predicate Agreement(a: Act, b: Act, k: ContactId, seller: UserId, customer: UserId) {
    || (a.CustomerRequested? && a == CustomerRequested(customer, seller, a.invite)
        && b == SellerAccepted(seller, customer, a.invite, k))
    || (a.SellerInvited? && a == SellerInvited(seller, k, a.invite)
        && b == CustomerAccepted(customer, k, a.invite))
  }

  /** The history holds an act by each side, in order. */
  ghost predicate Consented(history: seq<Act>, k: ContactId, seller: UserId, customer: UserId) {
    exists m, n | 0 <= m < n < |history| :: Agreement(history[m], history[n], k, seller, customer)
  }

  lemma ConsentLasts(history: seq<Act>, act: Act, k: ContactId, seller: UserId, customer: UserId)
    requires Consented(history, k, seller, customer)
    ensures Consented(history + [act], k, seller, customer)
  {
    var m, n :| 0 <= m < n < |history| && Agreement(history[m], history[n], k, seller, customer);
    var longer := history + [act];
    assert longer[m] == history[m] && longer[n] == history[n];
  }

  lemma ConsentGiven(history: seq<Act>, first: Act, second: Act, k: ContactId, seller: UserId, customer: UserId)
    requires first in history && Agreement(first, second, k, seller, customer)
    ensures Consented(history + [second], k, seller, customer)
  {
    var m :| 0 <= m < |history| && history[m] == first;
    var longer := history + [second];
    assert longer[m] == first && longer[|history|] == second;
  }

  // ---------------------------------------------------------------------------------------
  // The invariant
  // ---------------------------------------------------------------------------------------

  predicate KnownUser(users: map<UserId, User>, u: Option<UserId>) {
    u.Some? ==> u.value in users
  }

  /** An invitation's contact is there and belongs to the same seller. */
  predicate LinkedTo(contacts: map<ContactId, Contact>, row: Invitation) {
    row.contactId.Some? ==> row.contactId.value in contacts && contacts[row.contactId.value].sellerId == row.sellerId
  }

  predicate SellerInviteOk(row: Invitation, id: InviteId, history: seq<Act>) {
    && row.customerId.Some?
    && (row.status == InviteStatus.PENDING || row.status == InviteStatus.ACCEPTED)
    && (row.contactId.Some? <==> row.status == InviteStatus.ACCEPTED)
    && CustomerRequested(row.customerId.value, row.sellerId, id) in history
  }

  predicate LinkInviteOk(row: Invitation) {
    && row.customerId.Some?
    && (row.status == InviteStatus.PENDING || row.status == InviteStatus.REQUESTED)
    && row.acceptedAt == None && row.cancelledAt == None
  }

  predicate ContactInviteOk(row: Invitation, id: InviteId, contact: Contact, history: seq<Act>)
    requires row.contactId.Some?
  {
    && row.status != InviteStatus.REQUESTED
    && SellerInvited(row.sellerId, row.contactId.value, id) in history
    && (row.status == InviteStatus.PENDING ==>
          contact.status == ContactStatus.INVITED && row.customerId == contact.invitedUserId)
  }

  /** An accepted invitation points at an accepted contact of the same two parties. */
  predicate AcceptedOk(row: Invitation, contacts: map<ContactId, Contact>) {
    row.status == InviteStatus.ACCEPTED ==>
      && row.contactId.Some? && row.contactId.value in contacts
      && var contact := contacts[row.contactId.value];
      && contact.sellerId == row.sellerId
      && contact.status == ContactStatus.ACCEPTED
      && contact.invitedUserId.Some?
      && (row.customerId.Some? ==> row.customerId == contact.invitedUserId)
  }

  predicate InvitationOk(s: Store, i: InviteId)
    requires i in s.invitations
  {
    var row := s.invitations[i];
    && i < s.nextInvitation
    && row.sellerId in s.users && KnownUser(s.users, row.customerId)
    && LinkedTo(s.contacts, row)
    && AcceptedOk(row, s.contacts)
    && (row.inviteFor == ForSeller ==> SellerInviteOk(row, i, s.history))
    && (row.inviteFor == ForCustomer && row.contactId.None? ==> LinkInviteOk(row))
    && (row.inviteFor == ForCustomer && row.contactId.Some? ==>
          ContactInviteOk(row, i, s.contacts[row.contactId.value], s.history))
  }

  ghost predicate ContactOk(s: Store, k: ContactId)
    requires k in s.contacts
  {
    var row := s.contacts[k];
    && k < s.nextContact
    && row.sellerId in s.users && KnownUser(s.users, row.invitedUserId)
    && (row.status == ContactStatus.NEW || row.status == ContactStatus.INVITED || row.status == ContactStatus.ACCEPTED)
    && (row.status == ContactStatus.INVITED && row.invitedUserId.None? ==>
          exists i | i in s.invitations :: PendingFor(s.invitations[i], k))
    && (row.status == ContactStatus.ACCEPTED ==>
          row.invitedUserId.Some? && Consented(s.history, k, row.sellerId, row.invitedUserId.value))
  }

  /** The two rows do not stand in each other's way. */
  predicate Compatible(a: Invitation, b: Invitation) {
    && !Clash(a, b)
    && !(a.contactId.Some? && PendingFor(a, a.contactId.value) && PendingFor(b, a.contactId.value))
  }

  /** An accepted seller-invite and a link invitation of the same pair exclude each other. */
  predicate Exclusive(a: Invitation, b: Invitation) {
    !(a.inviteFor == ForSeller && a.status == InviteStatus.ACCEPTED
      && b.inviteFor == ForCustomer && b.contactId.None?
      && a.sellerId == b.sellerId && a.customerId == b.customerId)
  }

  /** A closed agreement is about a contact that was accepted and, while it exists, stays so. */
  predicate ActOk(s: Store, act: Act) {
    act.SellerAccepted? || act.CustomerAccepted? ==>
      && act.contact < s.nextContact
      && (act.contact in s.contacts ==> s.contacts[act.contact].status == ContactStatus.ACCEPTED)
  }

  ghost predicate UsersOk(s: Store) {
    && (forall u | u in s.users :: u < s.nextUser)
    && (forall u, v | u in s.users && v in s.users && s.users[u].phone == s.users[v].phone :: u == v)
  }

  ghost predicate InvitationsOk(s: Store) {
    forall i | i in s.invitations :: InvitationOk(s, i)
  }

  ghost predicate ContactsOk(s: Store) {
    forall k | k in s.contacts :: ContactOk(s, k)
  }

  predicate Fit(a: Invitation, b: Invitation) {
    Compatible(a, b) && Exclusive(a, b)
  }

  ghost predicate PairsOk(invs: Invitations) {
    forall i, j | i in invs && j in invs && i != j :: Fit(invs[i], invs[j])
  }

  ghost predicate ActsOk(s: Store) {
    forall n | 0 <= n < |s.history| :: ActOk(s, s.history[n])
  }

  ghost predicate Inv(s: Store) {
    UsersOk(s) && InvitationsOk(s) && ContactsOk(s) && PairsOk(s.invitations) && ActsOk(s)
  }

  lemma EmptyInv()
    ensures Inv(EmptyStore)
  {
  }

  // ---------------------------------------------------------------------------------------
  // What a call leaves in order
  // ---------------------------------------------------------------------------------------

  /** A row that asks for no more than it did. */
  predicate Calmer(old': Invitation, new': Invitation) {
    && new'.sellerId == old'.sellerId && new'.customerId == old'.customerId
    && new'.contactId == old'.contactId && new'.inviteFor == old'.inviteFor
    && (Active(new') ==> Active(old'))
    && (new'.status == InviteStatus.PENDING && old'.contactId.Some? ==> old'.status == InviteStatus.PENDING)
    && (new'.status == InviteStatus.ACCEPTED ==> old'.status == InviteStatus.ACCEPTED)
  }

  lemma CalmerFits(a: Invitation, b: Invitation, a': Invitation, b': Invitation)
    requires Fit(a, b) && Calmer(a, a') && Calmer(b, b')
    ensures Fit(a', b')
  {
  }

  /** Rows fit together after a change that adds or changes row `id` and calms or removes others. */
  lemma PairsLast(invs: Invitations, new': Invitations, id: InviteId)
    requires PairsOk(invs)
    requires forall i | i in new' && i != id :: i in invs && Calmer(invs[i], new'[i])
    requires id in new' ==> forall i | i in new' && i != id :: Fit(new'[id], new'[i]) && Fit(new'[i], new'[id])
    ensures PairsOk(new')
  {
    forall i, j | i in new' && j in new' && i != j ensures Fit(new'[i], new'[j]) {
      if i != id && j != id {
        CalmerFits(invs[i], invs[j], new'[i], new'[j]);
      }
    }
  }

  /** The tables moved on: no user is lost, ids and history only grow. */
  predicate MovesOn(s: Store, t: Store, act: Act) {
    && t.users == s.users && t.nextUser == s.nextUser
    && s.nextContact <= t.nextContact && s.nextInvitation <= t.nextInvitation
    && (t.history == s.history || t.history == s.history + [act])
  }

  /** An unchanged row stays in order while what it says about its contact stays true. */
  lemma RowLasts(s: Store, t: Store, act: Act, i: InviteId)
    requires i in s.invitations && InvitationOk(s, i) && MovesOn(s, t, act)
    requires i in t.invitations && t.invitations[i] == s.invitations[i]
    requires var row := s.invitations[i]; row.contactId.Some? ==>
               && row.contactId.value in t.contacts
               && var before := s.contacts[row.contactId.value];
               && var after := t.contacts[row.contactId.value];
               && after.sellerId == before.sellerId
               && ((row.status == InviteStatus.PENDING || row.status == InviteStatus.ACCEPTED) ==>
                     after.status == before.status && after.invitedUserId == before.invitedUserId)
    ensures InvitationOk(t, i)
  {
  }

  /** An unchanged contact stays in order if its pending invitation is kept. */
  lemma ContactLasts(s: Store, t: Store, act: Act, c: ContactId)
    requires c in s.contacts && ContactOk(s, c) && MovesOn(s, t, act)
    requires c in t.contacts && t.contacts[c] == s.contacts[c]
    requires s.contacts[c].invitedUserId.None? ==>
               forall i | i in s.invitations && PendingFor(s.invitations[i], c) ::
                 i in t.invitations && t.invitations[i] == s.invitations[i]
    ensures ContactOk(t, c)
  {
    var row := s.contacts[c];
    if row.status == ContactStatus.INVITED && row.invitedUserId.None? {
      var i :| i in s.invitations && PendingFor(s.invitations[i], c);
      assert PendingFor(t.invitations[i], c);
    } else if row.status == ContactStatus.ACCEPTED && t.history != s.history {
      ConsentLasts(s.history, act, c, row.sellerId, row.invitedUserId.value);
    }
  }

  lemma ActsLast(s: Store, t: Store, act: Act)
    requires ActsOk(s) && MovesOn(s, t, act)
    requires t.history != s.history ==> ActOk(t, act)
    requires forall k | k in t.contacts ::
               (k in s.contacts && (s.contacts[k].status == ContactStatus.ACCEPTED ==> t.contacts[k].status == ContactStatus.ACCEPTED))
               || (k !in s.contacts && s.nextContact <= k)
    ensures ActsOk(t)
  {
    forall n | 0 <= n < |t.history| ensures ActOk(t, t.history[n]) {
      if n < |s.history| { assert ActOk(s, s.history[n]); }
    }
  }

  /** Calls that leave the contacts alone: it is enough to look at the rows that changed. */
  lemma InvitationsOnlyKeepInv(s: Store, t: Store, act: Act)
    requires Inv(s) && MovesOn(s, t, act) && t.contacts == s.contacts && t.nextContact == s.nextContact
    requires act.CustomerRequested?
    requires PairsOk(t.invitations)
    requires forall i | i in t.invitations :: (i in s.invitations && t.invitations[i] == s.invitations[i]) || InvitationOk(t, i)
    requires forall i | i in s.invitations && s.invitations[i].contactId.Some? && s.invitations[i].status == InviteStatus.PENDING ::
               i in t.invitations && t.invitations[i] == s.invitations[i]
    ensures Inv(t)
  {
    forall i | i in t.invitations ensures InvitationOk(t, i) {
      if i in s.invitations && t.invitations[i] == s.invitations[i] {
        assert InvitationOk(s, i);
        RowLasts(s, t, act, i);
      }
    }
    forall k | k in t.contacts ensures ContactOk(t, k) {
      ContactLasts(s, t, act, k);
    }
    ActsLast(s, t, act);
  }

  /** One contact and one invitation change together; other rows stay or are removed. */
  ghost predicate ContactMove(s: Store, t: Store, act: Act, id: InviteId, k: ContactId) {
    && MovesOn(s, t, act)
    && k in t.contacts && t.contacts == s.contacts[k := t.contacts[k]]
    && id in t.invitations
    && (k !in s.contacts ==> k == s.nextContact)
    && (forall i | i in t.invitations && i != id :: i in s.invitations && t.invitations[i] == s.invitations[i])
    && (forall i | i in s.invitations && i != id && s.invitations[i].customerId.None? && s.invitations[i].status == InviteStatus.PENDING ::
          i in t.invitations)
  }

  /** What the changed contact means for the other invitations that point at it. */
  predicate Undisturbed(s: Store, t: Store, k: ContactId, row: Invitation)
    requires k in t.contacts
  {
    row.contactId == Some(k) && k in s.contacts ==>
      && t.contacts[k].sellerId == s.contacts[k].sellerId
      && (row.status == InviteStatus.PENDING || row.status == InviteStatus.ACCEPTED ==> t.contacts[k] == s.contacts[k])
  }

  /** The other invitations are undisturbed by the new contact row and fit the new invitation row. */
  ghost predicate Settled(s: Store, t: Store, id: InviteId, k: ContactId)
    requires k in t.contacts && id in t.invitations
  {
    forall i | i in t.invitations && i != id :: SettledRow(s, t, id, k, i)
  }

  predicate SettledRow(s: Store, t: Store, id: InviteId, k: ContactId, i: InviteId)
    requires k in t.contacts && id in t.invitations && i in t.invitations
  {
    && Undisturbed(s, t, k, t.invitations[i])
    && Fit(t.invitations[id], t.invitations[i]) && Fit(t.invitations[i], t.invitations[id])
  }

  lemma ContactMovePairs(s: Store, t: Store, act: Act, id: InviteId, k: ContactId)
    requires PairsOk(s.invitations) && ContactMove(s, t, act, id, k) && Settled(s, t, id, k)
    ensures PairsOk(t.invitations)
  {
    forall i | i in t.invitations && i != id
      ensures Fit(t.invitations[id], t.invitations[i]) && Fit(t.invitations[i], t.invitations[id])
    {
      assert SettledRow(s, t, id, k, i);
    }
    PairsLast(s.invitations, t.invitations, id);
  }

  lemma ContactMoveRows(s: Store, t: Store, act: Act, id: InviteId, k: ContactId)
    requires InvitationsOk(s) && ContactMove(s, t, act, id, k) && InvitationOk(t, id) && Settled(s, t, id, k)
    ensures InvitationsOk(t)
  {
    forall i | i in t.invitations ensures InvitationOk(t, i) {
      if i != id {
        assert InvitationOk(s, i) && SettledRow(s, t, id, k, i);
        RowLasts(s, t, act, i);
      }
    }
  }

  lemma ContactMoveContacts(s: Store, t: Store, act: Act, id: InviteId, k: ContactId)
    requires InvitationsOk(s) && ContactsOk(s) && ContactMove(s, t, act, id, k) && ContactOk(t, k)
    requires id in s.invitations ==> s.invitations[id].contactId.None? || s.invitations[id].status != InviteStatus.PENDING
                                     || s.invitations[id].contactId == Some(k)
    ensures ContactsOk(t)
  {
    forall c | c in t.contacts && c != k ensures ContactOk(t, c) {
      forall i | i in s.invitations && PendingFor(s.invitations[i], c) && s.contacts[c].invitedUserId.None?
        ensures i in t.invitations && t.invitations[i] == s.invitations[i]
      {
        assert InvitationOk(s, i);
      }
      ContactLasts(s, t, act, c);
    }
  }

  lemma ContactMoveKeepsInv(s: Store, t: Store, act: Act, id: InviteId, k: ContactId)
    requires Inv(s) && ContactMove(s, t, act, id, k)
    requires InvitationOk(t, id) && ContactOk(t, k)
    requires t.history != s.history ==> ActOk(t, act)
    requires k in s.contacts && s.contacts[k].status == ContactStatus.ACCEPTED ==> t.contacts[k].status == ContactStatus.ACCEPTED
    requires id in s.invitations ==> s.invitations[id].contactId.None? || s.invitations[id].status != InviteStatus.PENDING
                                     || s.invitations[id].contactId == Some(k)
    requires Settled(s, t, id, k)
    ensures Inv(t)
  {
    ContactMoveRows(s, t, act, id, k);
    ContactMoveContacts(s, t, act, id, k);
    ContactMovePairs(s, t, act, id, k);
    ActsLast(s, t, act);
  }

  const NoAct := CustomerRequested(0, 0, 0)

  // ---------------------------------------------------------------------------------------
  // Users and contacts
  // ---------------------------------------------------------------------------------------

  /** Adding users, or changing anything but their phones, keeps the invariant. */
  lemma UsersKeepInv(s: Store, t: Store)
    requires Inv(s)
    requires t == s.(users := t.users, nextUser := t.nextUser)
    requires s.users.Keys <= t.users.Keys
    requires UsersOk(t)
    ensures Inv(t)
  {
    forall i | i in t.invitations ensures InvitationOk(t, i) {
      assert InvitationOk(s, i);
    }
    forall k | k in t.contacts ensures ContactOk(t, k) {
      assert ContactOk(s, k);
    }
    forall n | 0 <= n < |t.history| ensures ActOk(t, t.history[n]) {
      assert ActOk(s, s.history[n]);
    }
  }

  lemma AddContactKeepsInv(s: Store, t: Store, row: Contact)
    requires Inv(s)
    requires t == s.(contacts := s.contacts[s.nextContact := row], nextContact := s.nextContact + 1)
    requires row.sellerId in s.users && KnownUser(s.users, row.invitedUserId) && row.status == ContactStatus.NEW
    ensures Inv(t)
  {
    forall k | k in s.contacts ensures k < s.nextContact { assert ContactOk(s, k); }
    forall i | i in t.invitations ensures InvitationOk(t, i) {
      assert InvitationOk(s, i);
      RowLasts(s, t, NoAct, i);
    }
    forall k | k in t.contacts ensures ContactOk(t, k) {
      if k in s.contacts { ContactLasts(s, t, NoAct, k); }
    }
    ActsLast(s, t, NoAct);
  }

  lemma CreateContactKeepsInv(s: Store, seller: UserId, phone: Option<string>, email: Option<string>, user: Option<UserId>)
    requires Inv(s)
    ensures Inv(CreateContact(s, seller, phone, email, user).store)
  {
    var out := CreateContact(s, seller, phone, email, user);
    if out.reply == Done {
      AddContactKeepsInv(s, out.store, Contact(seller, user, phone, email, ContactStatus.NEW));
    }
  }

  lemma DeleteContactRows(s: Store, t: Store, k: ContactId)
    requires InvitationsOk(s) && k in s.contacts && t == DeleteContact(s, k).store
    ensures InvitationsOk(t)
  {
    forall i | i in t.invitations ensures InvitationOk(t, i) {
      assert InvitationOk(s, i);
      RowLasts(s, t, NoAct, i);
    }
  }

  lemma DeleteContactContacts(s: Store, t: Store, k: ContactId)
    requires ContactsOk(s) && k in s.contacts && t == DeleteContact(s, k).store
    ensures ContactsOk(t)
  {
    forall c | c in t.contacts ensures ContactOk(t, c) {
      ContactLasts(s, t, NoAct, c);
    }
  }

  lemma DeleteContactKeepsInv(s: Store, k: ContactId)
    requires Inv(s)
    ensures Inv(DeleteContact(s, k).store)
  {
    var t := DeleteContact(s, k).store;
    if k in s.contacts {
      DeleteContactRows(s, t, k);
      DeleteContactContacts(s, t, k);
      PairsLast(s.invitations, t.invitations, s.nextInvitation);
      ActsLast(s, t, NoAct);
    }
  }

  // ---------------------------------------------------------------------------------------
  // Link invitations
  // ---------------------------------------------------------------------------------------

  /** Removing rows other than pending contact-invites. */
  lemma RemovalKeepsInv(s: Store, t: Store)
    requires Inv(s)
    requires t == s.(invitations := t.invitations)
    requires forall i | i in t.invitations :: i in s.invitations && t.invitations[i] == s.invitations[i]
    requires forall i | i in s.invitations && s.invitations[i].contactId.Some? && s.invitations[i].status == InviteStatus.PENDING ::
               i in t.invitations
    ensures Inv(t)
  {
    forall i | i in s.invitations ensures i < s.nextInvitation { assert InvitationOk(s, i); }
    PairsLast(s.invitations, t.invitations, s.nextInvitation);
    InvitationsOnlyKeepInv(s, t, NoAct);
  }

  /** A link row whose status changed between PENDING and REQUESTED, or any row left as it was. */
  predicate Relabelled(old': Invitation, new': Invitation) {
    || new' == old'
    || (old'.inviteFor == ForCustomer && old'.contactId.None? && LinkInviteOk(old') && LinkInviteOk(new')
        && new' == old'.(status := new'.status))
  }

  lemma RelabelledRowsFit(invs: Invitations, new': Invitations, unused: InviteId)
    requires PairsOk(invs) && new'.Keys == invs.Keys && unused !in invs
    requires forall i | i in new' :: Relabelled(invs[i], new'[i])
    ensures PairsOk(new')
  {
    forall i | i in new' ensures Calmer(invs[i], new'[i]) {
      assert Relabelled(invs[i], new'[i]);
    }
    PairsLast(invs, new', unused);
  }

  lemma RelabelKeepsInv(s: Store, t: Store)
    requires Inv(s)
    requires t == s.(invitations := t.invitations) && t.invitations.Keys == s.invitations.Keys
    requires forall i | i in t.invitations :: Relabelled(s.invitations[i], t.invitations[i])
    ensures Inv(t)
  {
    forall i | i in t.invitations ensures i < s.nextInvitation { assert InvitationOk(s, i); }
    RelabelledRowsFit(s.invitations, t.invitations, s.nextInvitation);
    forall i | i in t.invitations && t.invitations[i] != s.invitations[i] ensures InvitationOk(t, i) {
      assert InvitationOk(s, i) && Relabelled(s.invitations[i], t.invitations[i]);
    }
    forall i | i in s.invitations && s.invitations[i].contactId.Some? ensures t.invitations[i] == s.invitations[i] {
      assert Relabelled(s.invitations[i], t.invitations[i]);
    }
    InvitationsOnlyKeepInv(s, t, NoAct);
  }

  lemma InsertedRowFits(invs: Invitations, id: InviteId, row: Invitation)
    requires PairsOk(invs) && id !in invs
    requires row.contactId.None? && row.status == InviteStatus.PENDING && row.customerId.Some?
    requires !Conflicts(invs, id, row)
    requires row.inviteFor == ForCustomer ==>
               !HasWithStatus(invs, row.sellerId, row.customerId.value, ForSeller, InviteStatus.ACCEPTED)
    ensures PairsOk(invs[id := row])
  {
    forall i | i in invs ensures Fit(row, invs[i]) && Fit(invs[i], row) {
      assert !Clash(row, invs[i]);
    }
    PairsLast(invs, invs[id := row], id);
  }

  /** Storing a fresh row without a contact. */
  lemma InsertKeepsInv(s: Store, t: Store, row: Invitation, act: Act)
    requires Inv(s)
    requires t == Insert(s, row) || t == Perform(Insert(s, row), act)
    requires act.CustomerRequested?
    requires InvitationOk(t, s.nextInvitation)
    requires row.contactId.None? && row.status == InviteStatus.PENDING && row.customerId.Some?
    requires !Conflicts(s.invitations, s.nextInvitation, row)
    requires row.inviteFor == ForCustomer ==>
               !HasWithStatus(s.invitations, row.sellerId, row.customerId.value, ForSeller, InviteStatus.ACCEPTED)
    ensures Inv(t)
  {
    forall i | i in s.invitations ensures i < s.nextInvitation { assert InvitationOk(s, i); }
    InsertedRowFits(s.invitations, s.nextInvitation, row);
    InvitationsOnlyKeepInv(s, t, act);
  }

  /** Acceptance soundness for pairs: the pair of an accepted row has a contact. */
  lemma AcceptedPairHasContact(s: Store, seller: UserId, customer: UserId, recipient: Recipient)
    requires Inv(s)
    requires HasWithStatus(s.invitations, seller, customer, recipient, InviteStatus.ACCEPTED)
    ensures HasContact(s.contacts, seller, customer)
  {
    var i :| i in s.invitations && IsPairRow(s.invitations[i], seller, customer, recipient)
             && s.invitations[i].status == InviteStatus.ACCEPTED;
    assert InvitationOk(s, i);
    var k := s.invitations[i].contactId.value;
    assert ContactOf(s.contacts[k], seller, customer);
  }

  lemma OpenLinkKeepsInv(s: Store, seller: UserId, customer: UserId, now: Time)
    requires Inv(s) && customer in s.users
    requires !HasContact(s.contacts, seller, customer)
    ensures Inv(OpenLink(s, seller, customer, now).store)
  {
    var t := OpenLink(s, seller, customer, now).store;
    if t != s {
      if HasWithStatus(s.invitations, seller, customer, ForSeller, InviteStatus.ACCEPTED) {
        AcceptedPairHasContact(s, seller, customer, ForSeller);
      }
      InsertKeepsInv(s, t, PairInvite(seller, customer, LINK, ForCustomer, now), NoAct);
    }
  }

  lemma RequestKeepsInv(s: Store, id: InviteId, now: Time)
    requires Inv(s) && id in s.invitations
    requires s.invitations[id].inviteFor == ForCustomer && s.invitations[id].contactId.None?
    ensures s.invitations[id].customerId.Some?
    ensures Inv(Request(s, id, s.invitations[id].customerId.value, now))
  {
    assert InvitationOk(s, id);
    var row := s.invitations[id];
    var customer := row.customerId.value;
    var s1 := s.(invitations := s.invitations[id := row.(status := InviteStatus.REQUESTED)]);
    RelabelKeepsInv(s, s1);
    if !HasActive(s1.invitations, row.sellerId, customer, ForSeller) {
      var spawned := PairInvite(row.sellerId, customer, row.inviteType, ForSeller, now);
      var act := CustomerRequested(customer, row.sellerId, s.nextInvitation);
      var t := Perform(Insert(s1, spawned), act);
      assert act == t.history[|s.history|];
      assert InvitationOk(t, s.nextInvitation);
      InsertKeepsInv(s1, t, spawned, act);
    }
  }

  lemma AnswerLinkKeepsInv(s: Store, id: InviteId, verb: InviteStatus, now: Time)
    requires Inv(s) && id in s.invitations
    requires s.invitations[id].inviteFor == ForCustomer && s.invitations[id].contactId.None?
    ensures s.invitations[id].customerId.Some?
    ensures Inv(AnswerLink(s, id, verb, s.invitations[id].customerId.value, now))
  {
    assert InvitationOk(s, id);
    var row := s.invitations[id];
    var customer := row.customerId.value;
    var t := AnswerLink(s, id, verb, customer, now);
    if verb == InviteStatus.ACCEPTED {
      RequestKeepsInv(s, id, now);
    } else if verb == InviteStatus.CANCELLED && row.status == InviteStatus.REQUESTED {
      var s1 := s.(invitations := s.invitations[id := Restored(row)]);
      RelabelKeepsInv(s, s1);
      forall i | i in s1.invitations && s1.invitations[i].contactId.Some? && s1.invitations[i].status == InviteStatus.PENDING
        ensures i in t.invitations
      {
        assert InvitationOk(s1, i);
      }
      RemovalKeepsInv(s1, t);
    } else if Withdraws(verb) {
      RemovalKeepsInv(s, t);
    }
  }

  lemma RestoreKeepsInv(s: Store, seller: UserId, customer: UserId)
    requires Inv(s)
    ensures Inv(s.(invitations := RestoreRequested(s.invitations, seller, customer)))
  {
    var t := s.(invitations := RestoreRequested(s.invitations, seller, customer));
    forall i | i in t.invitations ensures Relabelled(s.invitations[i], t.invitations[i]) {
      assert InvitationOk(s, i);
    }
    RelabelKeepsInv(s, t);
  }

  lemma WithdrawSellerInviteKeepsInv(s: Store, id: InviteId, verb: InviteStatus, bySeller: bool, customer: UserId)
    requires Inv(s) && id in s.invitations && s.invitations[id].inviteFor == ForSeller
    ensures Inv(WithdrawSellerInvite(s, id, verb, bySeller, customer))
  {
    assert InvitationOk(s, id);
    var s1 := s.(invitations := s.invitations - {id});
    RemovalKeepsInv(s, s1);
    RestoreKeepsInv(s1, s.invitations[id].sellerId, customer);
  }

  // ---------------------------------------------------------------------------------------
  // Acceptance
  // ---------------------------------------------------------------------------------------

  lemma SellerAcceptsRows(s: Store, t: Store, id: InviteId, customer: UserId, pick: Option<ContactId>, k: ContactId, now: Time)
    requires Inv(s) && id in s.invitations && s.invitations[id].inviteFor == ForSeller
    requires s.invitations[id].customerId == Some(customer)
    requires Picks(s.contacts, s.invitations[id].sellerId, customer, pick)
    requires k == if pick.Some? then pick.value else s.nextContact
    requires SellerAccepts(s, id, customer, pick, now) == Outcome(t, Done)
    ensures k in t.contacts && id in t.invitations && Settled(s, t, id, k)
  {
    forall i | i in t.invitations && i != id ensures SettledRow(s, t, id, k, i) {
      assert InvitationOk(s, i);
      assert Fit(s.invitations[i], s.invitations[id]) && Fit(s.invitations[id], s.invitations[i]);
    }
  }

  lemma SellerAcceptsShape(s: Store, t: Store, act: Act, id: InviteId, customer: UserId, pick: Option<ContactId>, k: ContactId, now: Time)
    requires ContactsOk(s) && id in s.invitations && s.invitations[id].inviteFor == ForSeller
    requires s.invitations[id].customerId == Some(customer)
    requires Picks(s.contacts, s.invitations[id].sellerId, customer, pick)
    requires k == if pick.Some? then pick.value else s.nextContact
    requires act == SellerAccepted(s.invitations[id].sellerId, customer, id, k)
    requires SellerAccepts(s, id, customer, pick, now) == Outcome(t, Done)
    ensures ContactMove(s, t, act, id, k) && t.history == s.history + [act]
    ensures t.contacts[k].sellerId == s.invitations[id].sellerId && t.contacts[k].invitedUserId == Some(customer)
    ensures t.contacts[k].status == ContactStatus.ACCEPTED
    ensures k < t.nextContact
    ensures t.invitations[id] == s.invitations[id].(status := InviteStatus.ACCEPTED, contactId := Some(k), acceptedAt := Some(now))
  {
    forall c | c in s.contacts ensures c < s.nextContact { assert ContactOk(s, c); }
  }

  lemma SellerAcceptsKeepsInv(s: Store, id: InviteId, customer: UserId, pick: Option<ContactId>, now: Time)
    requires Inv(s) && id in s.invitations && s.invitations[id].inviteFor == ForSeller
    requires CustomerOf(s.contacts, s.invitations[id]) == Some(customer)
    requires Picks(s.contacts, s.invitations[id].sellerId, customer, pick)
    ensures Inv(SellerAccepts(s, id, customer, pick, now).store)
  {
    assert InvitationOk(s, id);
    var out := SellerAccepts(s, id, customer, pick, now);
    if out.reply == Done {
      SellerAcceptsDoneKeepsInv(s, out.store, id, customer, pick, now);
    }
  }

  lemma SellerAcceptsDoneKeepsInv(s: Store, t: Store, id: InviteId, customer: UserId, pick: Option<ContactId>, now: Time)
    requires Inv(s) && id in s.invitations && s.invitations[id].inviteFor == ForSeller
    requires s.invitations[id].customerId == Some(customer)
    requires Picks(s.contacts, s.invitations[id].sellerId, customer, pick)
    requires SellerAccepts(s, id, customer, pick, now) == Outcome(t, Done)
    ensures Inv(t)
  {
    var row := s.invitations[id];
    var k := if pick.Some? then pick.value else s.nextContact;
    var act := SellerAccepted(row.sellerId, customer, id, k);
    SellerAcceptsShape(s, t, act, id, customer, pick, k, now);
    SellerAcceptsRows(s, t, id, customer, pick, k, now);
    assert InvitationOk(s, id);
    ConsentGiven(s.history, CustomerRequested(customer, row.sellerId, id), act, k, row.sellerId, customer);
    ContactMoveKeepsInv(s, t, act, id, k);
  }

  lemma AcceptForContactShape(s: Store, t: Store, act: Act, id: InviteId, customer: UserId, k: ContactId, now: Time)
    requires id in s.invitations
    requires s.invitations[id].contactId == Some(k) && k in s.contacts
    requires s.invitations[id].status == InviteStatus.PENDING
    requires act == CustomerAccepted(customer, k, id)
    requires t == AcceptForContact(s, id, customer, now).store
    ensures ContactMove(s, t, act, id, k) && t.history == s.history + [act]
    ensures t.contacts[k] == s.contacts[k].(invitedUserId := Some(customer), status := ContactStatus.ACCEPTED)
    ensures t.invitations[id] == Answered(s.invitations[id], InviteStatus.ACCEPTED, now).(customerId := t.invitations[id].customerId)
    ensures t.invitations[id].customerId == s.invitations[id].customerId || t.invitations[id].customerId == Some(customer)
  {
  }

  /** Another row next to a contact's pending invitation that becomes accepted. */
  lemma NeighbourSettles(s: Store, t: Store, id: InviteId, k: ContactId, i: InviteId)
    requires id in s.invitations && k in s.contacts && i in s.invitations && i != id
    requires InvitationOk(s, id) && InvitationOk(s, i) && Fit(s.invitations[id], s.invitations[i])
    requires PendingFor(s.invitations[id], k) && s.invitations[id].inviteFor == ForCustomer
    requires id in t.invitations && t.invitations[id].inviteFor == ForCustomer
    requires t.invitations[id].status == InviteStatus.ACCEPTED && t.invitations[id].contactId == Some(k)
    requires i in t.invitations && t.invitations[i] == s.invitations[i] && !Clash(t.invitations[id], s.invitations[i])
    requires k in t.contacts && t.contacts[k].sellerId == s.contacts[k].sellerId
    ensures SettledRow(s, t, id, k, i)
  {
  }

  /** The accepted row clashes with no other: either it names the same customer as before, or the index let it through. */
  lemma AcceptedRowIsClear(s: Store, t: Store, id: InviteId, customer: UserId, k: ContactId, now: Time, i: InviteId)
    requires id in s.invitations && i in s.invitations && i != id && !Clash(s.invitations[id], s.invitations[i])
    requires PendingFor(s.invitations[id], k) && k in s.contacts
    requires t == AcceptForContact(s, id, customer, now).store
    ensures !Clash(t.invitations[id], s.invitations[i])
  {
  }

  lemma AcceptForContactRows(s: Store, t: Store, id: InviteId, customer: UserId, k: ContactId, now: Time)
    requires InvitationsOk(s) && PairsOk(s.invitations) && id in s.invitations && s.invitations[id].inviteFor == ForCustomer
    requires PendingFor(s.invitations[id], k) && k in s.contacts
    requires t == AcceptForContact(s, id, customer, now).store
    ensures k in t.contacts && id in t.invitations && Settled(s, t, id, k)
  {
    AcceptForContactShape(s, t, CustomerAccepted(customer, k, id), id, customer, k, now);
    assert InvitationOk(s, id);
    forall i | i in t.invitations && i != id ensures SettledRow(s, t, id, k, i) {
      assert InvitationOk(s, i) && Fit(s.invitations[id], s.invitations[i]);
      AcceptedRowIsClear(s, t, id, customer, k, now, i);
      NeighbourSettles(s, t, id, k, i);
    }
  }

  lemma AcceptForContactDoneKeepsInv(s: Store, t: Store, id: InviteId, customer: UserId, k: ContactId, now: Time)
    requires Inv(s) && id in s.invitations && s.invitations[id].inviteFor == ForCustomer
    requires s.invitations[id].contactId == Some(k) && k in s.contacts
    requires s.invitations[id].status == InviteStatus.PENDING
    requires customer in s.users
    requires CustomerOf(s.contacts, s.invitations[id]).Some? ==> CustomerOf(s.contacts, s.invitations[id]) == Some(customer)
    requires t == AcceptForContact(s, id, customer, now).store
    ensures Inv(t)
  {
    var act := CustomerAccepted(customer, k, id);
    AcceptForContactShape(s, t, act, id, customer, k, now);
    AcceptForContactRows(s, t, id, customer, k, now);
    assert InvitationOk(s, id) && ContactOk(s, k);
    ConsentGiven(s.history, SellerInvited(s.invitations[id].sellerId, k, id), act, k, s.invitations[id].sellerId, customer);
    ContactMoveKeepsInv(s, t, act, id, k);
  }

  lemma AcceptForContactKeepsInv(s: Store, id: InviteId, customer: UserId, now: Time)
    requires Inv(s) && id in s.invitations && s.invitations[id].inviteFor == ForCustomer
    requires s.invitations[id].contactId.Some? && s.invitations[id].contactId.value in s.contacts
    requires customer in s.users
    requires CustomerOf(s.contacts, s.invitations[id]).Some? ==> CustomerOf(s.contacts, s.invitations[id]) == Some(customer)
    ensures Inv(AcceptForContact(s, id, customer, now).store)
  {
    if s.invitations[id].status == InviteStatus.PENDING {
      AcceptForContactDoneKeepsInv(s, AcceptForContact(s, id, customer, now).store, id, customer,
                                   s.invitations[id].contactId.value, now);
    }
  }

  // ---------------------------------------------------------------------------------------
  // A contact starts over, or is invited
  // ---------------------------------------------------------------------------------------

  /** The pending invitation of a contact is closed and the contact is NEW again. */
  predicate Closes(s: Store, t: Store, id: InviteId, k: ContactId) {
    && id in s.invitations && PendingFor(s.invitations[id], k) && k in s.contacts
    && id in t.invitations && k in t.contacts
    && t == s.(invitations := s.invitations[id := t.invitations[id]], contacts := s.contacts[k := t.contacts[k]])
    && t.contacts[k] == s.contacts[k].(status := ContactStatus.NEW, invitedUserId := t.contacts[k].invitedUserId)
    && (t.contacts[k].invitedUserId.None? || t.contacts[k].invitedUserId == s.contacts[k].invitedUserId)
    && (t.invitations[id].status == InviteStatus.CANCELLED || t.invitations[id].status == InviteStatus.REJECTED)
    && t.invitations[id] == s.invitations[id].(status := t.invitations[id].status, cancelledAt := t.invitations[id].cancelledAt)
  }

  lemma CloseKeepsInv(s: Store, t: Store, id: InviteId, k: ContactId)
    requires Inv(s) && Closes(s, t, id, k)
    ensures Inv(t)
  {
    assert InvitationOk(s, id) && ContactOk(s, k);
    forall i | i in t.invitations && i != id ensures SettledRow(s, t, id, k, i) {
      assert InvitationOk(s, i);
      assert Fit(s.invitations[i], s.invitations[id]) && Fit(s.invitations[id], s.invitations[i]);
    }
    ContactMoveKeepsInv(s, t, NoAct, id, k);
  }

  /** A NEW contact is invited. */
  lemma InviteContactKeepsInv(s: Store, k: ContactId, now: Time)
    requires Inv(s) && k in s.contacts && s.contacts[k].status == ContactStatus.NEW
    requires !Conflicts(s.invitations, s.nextInvitation, ContactInvite(k, s.contacts[k], now))
    ensures Inv(SetContactStatus(Perform(Insert(s, ContactInvite(k, s.contacts[k], now)),
                                         SellerInvited(s.contacts[k].sellerId, k, s.nextInvitation)),
                                 k, ContactStatus.INVITED))
  {
    var id := s.nextInvitation;
    var row := ContactInvite(k, s.contacts[k], now);
    var act := SellerInvited(s.contacts[k].sellerId, k, id);
    var t := SetContactStatus(Perform(Insert(s, row), act), k, ContactStatus.INVITED);
    assert ContactOk(s, k);
    assert act == t.history[|s.history|];
    assert PendingFor(t.invitations[id], k);
    forall i | i in s.invitations ensures i < id { assert InvitationOk(s, i); }
    forall i | i in t.invitations && i != id ensures SettledRow(s, t, id, k, i) {
      assert InvitationOk(s, i);
      assert !Clash(row, s.invitations[i]);
    }
    ContactMoveKeepsInv(s, t, act, id, k);
  }

  // ---------------------------------------------------------------------------------------
  // Whole calls
  // ---------------------------------------------------------------------------------------

  lemma EnsureLinkKeepsInv(s: Store, seller: UserId, customer: UserId, phone: string, now: Time)
    requires Inv(s) && customer in s.users
    ensures Inv(EnsureLink(s, seller, customer, phone, now).store)
  {
    if !HasContact(s.contacts, seller, customer) { OpenLinkKeepsInv(s, seller, customer, now); }
  }

  lemma LoginKeepsInv(s: Store, phone: string, seller: Option<UserId>, now: Time)
    requires Inv(s)
    ensures Inv(Login(s, phone, seller, now).store)
  {
    match UserWithPhone(s.users, phone)
    case Some(u) =>
      if seller.Some? { EnsureLinkKeepsInv(s, seller.value, u, phone, now); }
    case None =>
      var s1 := AddUser(s, User(CUSTOMER, phone, None, false));
      UsersKeepInv(s, s1);
      if seller.Some? { EnsureLinkKeepsInv(s1, seller.value, s.nextUser, phone, now); }
  }

  lemma DeclineKeepsInv(s: Store, id: InviteId, verb: InviteStatus, now: Time)
    requires Inv(s) && id in s.invitations && s.invitations[id].inviteFor == ForCustomer
    requires s.invitations[id].contactId.Some? && s.invitations[id].contactId.value in s.contacts
    requires s.invitations[id].status == InviteStatus.PENDING && Withdraws(verb)
    ensures Inv(DeclineForContact(s, id, verb, now))
  {
    assert InvitationOk(s, id);
    CloseKeepsInv(s, DeclineForContact(s, id, verb, now), id, s.invitations[id].contactId.value);
  }

  lemma ContactInviteAnswerKeepsInv(s: Store, id: InviteId, verb: InviteStatus, customer: UserId, now: Time)
    requires Inv(s) && id in s.invitations && s.invitations[id].inviteFor == ForCustomer
    requires s.invitations[id].contactId.Some? && s.invitations[id].contactId.value in s.contacts
    requires customer in s.users
    requires CustomerOf(s.contacts, s.invitations[id]).Some? ==> CustomerOf(s.contacts, s.invitations[id]) == Some(customer)
    ensures Inv(AnswerContactInvite(s, id, verb, customer, now).store)
  {
    if verb == InviteStatus.ACCEPTED {
      AcceptForContactKeepsInv(s, id, customer, now);
    } else if Withdraws(verb) && s.invitations[id].status == InviteStatus.PENDING {
      DeclineKeepsInv(s, id, verb, now);
    } else if Withdraws(verb) {
      assert InvitationOk(s, id);
      var t := s.(invitations := s.invitations - {id});
      assert AnswerContactInvite(s, id, verb, customer, now).store == t;
      RemovalKeepsInv(s, t);
    }
  }

  lemma ColdAnswerKeepsInv(s: Store, id: InviteId, verb: InviteStatus, customer: UserId, now: Time)
    requires Inv(s) && id in s.invitations && s.invitations[id].inviteFor == ForCustomer
    requires s.invitations[id].contactId.Some? && s.invitations[id].contactId.value in s.contacts
    requires customer in s.users && CustomerOf(s.contacts, s.invitations[id]).None?
    ensures Inv(AnswerCold(s, id, verb, customer, now).store)
  {
    if verb == InviteStatus.ACCEPTED {
      AcceptForContactKeepsInv(s, id, customer, now);
    } else if Withdraws(verb) && s.invitations[id].status == InviteStatus.PENDING {
      DeclineKeepsInv(s, id, verb, now);
    }
  }

  lemma SellerInviteAnswersKeepInv(s: Store, id: InviteId, verb: InviteStatus, bySeller: bool, customer: UserId,
                                   pick: Option<ContactId>, now: Time)
    requires Inv(s) && id in s.invitations && s.invitations[id].inviteFor == ForSeller
    requires CustomerOf(s.contacts, s.invitations[id]) == Some(customer)
    requires pick.Some? ==> pick.value in s.contacts
    requires bySeller && verb == InviteStatus.ACCEPTED ==> Picks(s.contacts, s.invitations[id].sellerId, customer, pick)
    ensures Inv(AnswerSellerInvite(s, id, verb, bySeller, customer, pick, now).store)
  {
    if Withdraws(verb) {
      WithdrawSellerInviteKeepsInv(s, id, verb, bySeller, customer);
    } else if bySeller && verb == InviteStatus.ACCEPTED {
      SellerAcceptsKeepsInv(s, id, customer, pick, now);
    }
  }

  /** Which part of acceptInvite a call by a live user comes down to. */
  lemma AcceptInviteParts(s: Store, id: InviteId, verb: InviteStatus, actor: UserId, pick: Option<ContactId>, now: Time)
    requires LookupOk(s, id, verb, actor, pick) && id in s.invitations && LiveUser(s, actor)
    ensures var row := s.invitations[id];
            var customer := CustomerOf(s.contacts, row);
            var out := AcceptInvite(s, id, verb, actor, pick, now);
            || out.store == s
            || (row.inviteFor == ForSeller && customer.Some?
                && out == AnswerSellerInvite(s, id, verb, actor == row.sellerId, customer.value, pick, now))
            || (row.inviteFor == ForCustomer && row.contactId.None? && customer == Some(actor)
                && out.store == AnswerLink(s, id, verb, actor, now))
            || (row.inviteFor == ForCustomer && row.contactId.Some? && customer == Some(actor)
                && out == AnswerContactInvite(s, id, verb, actor, now))
            || (row.inviteFor == ForCustomer && row.contactId.Some? && customer == None
                && out == AnswerCold(s, id, verb, actor, now))
  {
  }

  lemma AcceptInviteKeepsInv(s: Store, id: InviteId, verb: InviteStatus, actor: UserId, pick: Option<ContactId>, now: Time)
    requires Inv(s) && LookupOk(s, id, verb, actor, pick)
    ensures Inv(AcceptInvite(s, id, verb, actor, pick, now).store)
  {
    var t := AcceptInvite(s, id, verb, actor, pick, now).store;
    if t != s {
      var row := s.invitations[id];
      var customer := CustomerOf(s.contacts, row);
      AcceptInviteParts(s, id, verb, actor, pick, now);
      if row.inviteFor == ForSeller {
        SellerInviteAnswersKeepInv(s, id, verb, actor == row.sellerId, customer.value, pick, now);
      } else if row.contactId.None? {
        AnswerLinkKeepsInv(s, id, verb, now);
      } else {
        if customer.None? { ColdAnswerKeepsInv(s, id, verb, actor, now); }
        if customer == Some(actor) { ContactInviteAnswerKeepsInv(s, id, verb, actor, now); }
      }
    }
  }

  lemma EditContactKeepsInv(s: Store, k: ContactId, status: ContactStatus, sent: bool, now: Time)
    requires Inv(s)
    requires k in s.contacts ==> HandshakeEdit(s.contacts[k].status, status)
    ensures Inv(EditContact(s, k, status, sent, now).store)
  {
    if k in s.contacts {
      var contact := s.contacts[k];
      var t := EditContact(s, k, status, sent, now).store;
      if status == ContactStatus.INVITED && contact.status == ContactStatus.NEW {
        if t != s { InviteContactKeepsInv(s, k, now); }
      } else if status == ContactStatus.CANCELLED && contact.status == ContactStatus.INVITED {
        var pending := PendingInviteOf(s, k);
        if pending.Some? { CloseKeepsInv(s, t, pending.value, k); }
      } else {
        assert t.contacts == s.contacts;
      }
    }
  }

  /** Every legal call keeps the invariant, whether it completes or is refused part way. */
  lemma StepKeepsInv(s: Store, call: Call)
    requires Inv(s) && Legal(s, call)
    ensures Inv(Step(s, call).store)
  {
    match call
    case SignUpCall(role, phone, email) =>
      var t := SignUp(s, role, phone, email).store;
      if t != s { UsersKeepInv(s, t); }
    case MarkUserCall(u, deleted) => UsersKeepInv(s, MarkUser(s, u, deleted));
    case LoginCall(phone, seller, now) => LoginKeepsInv(s, phone, seller, now);
    case InviteSellerCall(customer, seller, now) =>
      if LiveUser(s, customer) && !HasContact(s.contacts, seller, customer) {
        OpenLinkKeepsInv(s, seller, customer, now);
      }
    case AcceptInviteCall(id, verb, actor, pick, now) => AcceptInviteKeepsInv(s, id, verb, actor, pick, now);
    case CreateContactCall(seller, phone, email, user) => CreateContactKeepsInv(s, seller, phone, email, user);
    case EditContactCall(k, status, sent, now) => EditContactKeepsInv(s, k, status, sent, now);
    case DeleteContactCall(k) => DeleteContactKeepsInv(s, k);
  }

  lemma {:induction false} RunsKeepInv(states: seq<Store>, calls: seq<Call>, n: nat)
    requires IsRun(states, calls) && n < |states|
    ensures Inv(states[n])
  {
    if n == 0 {
      EmptyInv();
    } else {
      RunsKeepInv(states, calls, n - 1);
      StepKeepsInv(states[n - 1], calls[n - 1]);
    }
  }
}
