/**
 The tables as one mutable object.  Every write is a single method here, so that the calls of
 the services can stop after any of them: `trail` keeps a copy of the tables after each write,
 and `Valid` says that each of those copies is in good standing.
 */
module Database {
  import opened Wrappers
  import opened Schema
  import opened Protocol
  import opened Invariant

  // ---------------------------------------------------------------------------------------
  // Good standing: what holds between any two writes
  // ---------------------------------------------------------------------------------------

  /** The act without which the row could not have been written is in the history. */
  predicate Backed(history: seq<Act>, id: InviteId, row: Invitation) {
    && (row.inviteFor == ForSeller ==>
          row.customerId.Some? && CustomerRequested(row.customerId.value, row.sellerId, id) in history)
    && (row.inviteFor == ForCustomer && row.contactId.Some? ==>
          SellerInvited(row.sellerId, row.contactId.value, id) in history)
  }

  /** A row the database accepts, and that is backed by an act. */
  predicate InvitationStands(s: Store, id: InviteId, row: Invitation) {
    && row.sellerId in s.users && KnownUser(s.users, row.customerId)
    && LinkedTo(s.contacts, row)
    && Backed(s.history, id, row)
  }

  /** A contact is tied to a user only by an acceptance to which both sides consented. */
  ghost predicate ContactStands(s: Store, k: ContactId, row: Contact) {
    && row.sellerId in s.users && KnownUser(s.users, row.invitedUserId)
    && (row.invitedUserId.Some? <==> row.status == ContactStatus.ACCEPTED)
    && (row.status == ContactStatus.ACCEPTED ==> Consented(s.history, k, row.sellerId, row.invitedUserId.value))
  }

  ghost predicate Standing(s: Store) {
    && UsersOk(s)
    && UniqueActivePairs(s.invitations)
    && (forall i | i in s.invitations :: i < s.nextInvitation && InvitationStands(s, i, s.invitations[i]))
    && (forall k | k in s.contacts :: k < s.nextContact && ContactStands(s, k, s.contacts[k]))
  }

  /** Writing one invitation row, together with the act that led to it. */
  lemma WriteInvitationStands(s: Store, t: Store, id: InviteId, acts: seq<Act>)
    requires Standing(s)
    requires id in t.invitations && id < t.nextInvitation && s.nextInvitation <= t.nextInvitation
    requires t == s.(invitations := s.invitations[id := t.invitations[id]], nextInvitation := t.nextInvitation,
                     history := s.history + acts)
    requires InvitationStands(t, id, t.invitations[id])
    requires !Conflicts(s.invitations, id, t.invitations[id])
    ensures Standing(t)
  {
    forall i | i in t.invitations ensures i < t.nextInvitation && InvitationStands(t, i, t.invitations[i]) {
      if i != id { assert InvitationStands(s, i, s.invitations[i]); }
    }
    forall k | k in t.contacts ensures k < t.nextContact && ContactStands(t, k, t.contacts[k]) {
      ContactStandsLonger(s, t, acts, k);
    }
    forall i, j | i in t.invitations && j in t.invitations && i != j ensures !Clash(t.invitations[i], t.invitations[j]) {
      if i != id && j != id { assert !Clash(s.invitations[i], s.invitations[j]); }
      if i == id { assert !Clash(t.invitations[id], s.invitations[j]); }
      if j == id { assert !Clash(t.invitations[id], s.invitations[i]); }
    }
  }

  lemma ContactStandsLonger(s: Store, t: Store, acts: seq<Act>, k: ContactId)
    requires k in s.contacts && ContactStands(s, k, s.contacts[k])
    requires t.users == s.users && t.history == s.history + acts
    ensures ContactStands(t, k, s.contacts[k])
  {
    var row := s.contacts[k];
    if row.status == ContactStatus.ACCEPTED {
      var m, n :| 0 <= m < n < |s.history| && Agreement(s.history[m], s.history[n], k, row.sellerId, row.invitedUserId.value);
      assert t.history[m] == s.history[m] && t.history[n] == s.history[n];
    }
  }

  /** Writing one contact row of an unchanged seller, together with the act that led to it. */
  lemma WriteContactStands(s: Store, t: Store, k: ContactId, acts: seq<Act>)
    requires Standing(s)
    requires k in t.contacts && k < t.nextContact && s.nextContact <= t.nextContact
    requires t == s.(contacts := s.contacts[k := t.contacts[k]], nextContact := t.nextContact, history := s.history + acts)
    requires k in s.contacts ==> t.contacts[k].sellerId == s.contacts[k].sellerId
    requires ContactStands(t, k, t.contacts[k])
    ensures Standing(t)
  {
    forall i | i in t.invitations ensures i < t.nextInvitation && InvitationStands(t, i, t.invitations[i]) {
      assert InvitationStands(s, i, s.invitations[i]);
    }
    forall c | c in t.contacts ensures c < t.nextContact && ContactStands(t, c, t.contacts[c]) {
      if c != k { ContactStandsLonger(s, t, acts, c); }
    }
  }

  /** Every row is an old one, or an old REQUESTED one taken back to PENDING. */
  predicate Reduced(invs: Invitations, new': Invitations) {
    forall i | i in new' :: i in invs
      && (new'[i] == invs[i] || (invs[i].status == InviteStatus.REQUESTED && new'[i] == Restored(invs[i])))
  }

  lemma ReducedIsUnique(invs: Invitations, new': Invitations)
    requires UniqueActivePairs(invs) && Reduced(invs, new')
    ensures UniqueActivePairs(new')
  {
    forall i, j | i in new' && j in new' && i != j ensures !Clash(new'[i], new'[j]) {
      assert !Clash(invs[i], invs[j]);
    }
  }

  lemma ReducedRowsStand(s: Store, t: Store)
    requires Standing(s) && t == s.(invitations := t.invitations) && Reduced(s.invitations, t.invitations)
    ensures forall i | i in t.invitations :: i < t.nextInvitation && InvitationStands(t, i, t.invitations[i])
  {
    forall i | i in t.invitations ensures i < t.nextInvitation && InvitationStands(t, i, t.invitations[i]) {
      assert InvitationStands(s, i, s.invitations[i]);
    }
  }

  /** Removing invitations, or taking some of them back to PENDING without giving up the pair. */
  lemma BulkWriteStands(s: Store, t: Store)
    requires Standing(s) && t == s.(invitations := t.invitations) && Reduced(s.invitations, t.invitations)
    ensures Standing(t)
  {
    ReducedRowsStand(s, t);
    ReducedIsUnique(s.invitations, t.invitations);
    forall k | k in t.contacts ensures k < t.nextContact && ContactStands(t, k, t.contacts[k]) {
      ContactStandsLonger(s, t, [], k);
    }
  }

  lemma RestoreStands(s: Store, seller: UserId, customer: UserId)
    requires Standing(s)
    ensures Standing(s.(invitations := RestoreRequested(s.invitations, seller, customer)))
  {
    BulkWriteStands(s, s.(invitations := RestoreRequested(s.invitations, seller, customer)));
  }

  class Tables {
    var users: map<UserId, User>
    var contacts: map<ContactId, Contact>
    var invitations: Invitations
    var nextUser: UserId
    var nextContact: ContactId
    var nextInvitation: InviteId
    ghost var history: seq<Act>
    ghost var trail: seq<Store>

    ghost function Now(): Store
      reads this
    {
      Store(users, contacts, invitations, nextUser, nextContact, nextInvitation, history)
    }

    /** The tables stand, and so they did after every single write so far. */
    ghost predicate Valid()
      reads this
    {
      && |trail| > 0 && trail[|trail| - 1] == Now()
      && forall n | 0 <= n < |trail| :: Standing(trail[n])
    }

    constructor ()
      ensures Valid() && Now() == EmptyStore && trail == [EmptyStore]
    {
      users, contacts, invitations := map[], map[], map[];
      nextUser, nextContact, nextInvitation := 0, 0, 0;
      history, trail := [], [EmptyStore];
    }

    method InsertUser(user: User) returns (id: UserId)
      requires Valid()
      requires forall u | u in users :: users[u].phone != user.phone
      modifies this
      ensures Valid() && trail == old(trail) + [Now()]
      ensures id == old(nextUser) && Now() == AddUser(old(Now()), user)
    {
      id := nextUser;
      users, nextUser := users[id := user], nextUser + 1;
      StandsWithMoreUsers(old(Now()), Now());
      trail := trail + [Now()];
    }

    method SetDeleted(u: UserId, deleted: bool)
      requires Valid() && u in users
      modifies this
      ensures Valid() && trail == old(trail) + [Now()]
      ensures Now() == MarkUser(old(Now()), u, deleted)
    {
      users := users[u := users[u].(deleted := deleted)];
      StandsWithMoreUsers(old(Now()), Now());
      trail := trail + [Now()];
    }

    /** INSERT of an invitation; refused by the seller's foreign key or by the pair index. */
    method InsertInvitation(row: Invitation, ghost acts: seq<Act>) returns (r: Reply, id: InviteId)
      requires Valid()
      requires KnownUser(users, row.customerId) && LinkedTo(contacts, row)
      requires Backed(history + acts, nextInvitation, row)
      modifies this
      ensures Valid() && old(trail) <= trail
      ensures row.sellerId !in users ==> r == Refused(ForeignKeyViolation)
      ensures row.sellerId in users && Conflicts(old(invitations), old(nextInvitation), row) ==> r == Refused(PairIndexViolation)
      ensures row.sellerId in users && !Conflicts(old(invitations), old(nextInvitation), row) ==> r == Done
      ensures r != Done ==> Now() == old(Now()) && trail == old(trail)
      ensures r == Done ==>
                && trail == old(trail) + [Now()] && id == old(nextInvitation) && id !in old(invitations)
                && Now() == Insert(old(Now()), row).(history := old(history) + acts)
    {
      id := nextInvitation;
      if row.sellerId !in users {
        r := Refused(ForeignKeyViolation);
      } else if Conflicts(invitations, id, row) {
        r := Refused(PairIndexViolation);
      } else {
        invitations, nextInvitation := invitations[id := row], nextInvitation + 1;
        history := history + acts;
        WriteInvitationStands(old(Now()), Now(), id, acts);
        trail := trail + [Now()];
        r := Done;
      }
    }

    /** UPDATE of one invitation by id; refused by the pair index. */
    method SaveInvitation(id: InviteId, row: Invitation) returns (r: Reply)
      requires Valid() && id in invitations
      requires row.sellerId == invitations[id].sellerId && KnownUser(users, row.customerId) && LinkedTo(contacts, row)
      requires Backed(history, id, row)
      modifies this
      ensures Valid() && old(trail) <= trail
      ensures r == if Conflicts(old(invitations), id, row) then Refused(PairIndexViolation) else Done
      ensures r != Done ==> Now() == old(Now()) && trail == old(trail)
      ensures r == Done ==>
                trail == old(trail) + [Now()] && Now() == old(Now()).(invitations := old(invitations)[id := row])
    {
      if Conflicts(invitations, id, row) {
        r := Refused(PairIndexViolation);
      } else {
        assert InvitationStands(Now(), id, invitations[id]);
        invitations := invitations[id := row];
        WriteInvitationStands(old(Now()), Now(), id, []);
        trail := trail + [Now()];
        r := Done;
      }
    }

    /** DELETE of the given invitations. */
    method DeleteInvitations(ids: set<InviteId>)
      requires Valid()
      modifies this
      ensures Valid() && trail == old(trail) + [Now()]
      ensures Now() == old(Now()).(invitations := old(invitations) - ids)
    {
      invitations := invitations - ids;
      BulkWriteStands(old(Now()), Now());
      trail := trail + [Now()];
    }

    /** DELETE of all invitations of a pair for one recipient. */
    method DeletePair(seller: UserId, customer: UserId, recipient: Recipient)
      requires Valid()
      modifies this
      ensures Valid() && trail == old(trail) + [Now()]
      ensures Now() == old(Now()).(invitations := WithoutPair(old(invitations), seller, customer, recipient))
    {
      DeleteInvitations(set i | i in invitations && IsPairRow(invitations[i], seller, customer, recipient));
      assert invitations == WithoutPair(old(invitations), seller, customer, recipient);
    }

    /** UPDATE of a pair's REQUESTED customer-invites back to PENDING. */
    method RestorePair(seller: UserId, customer: UserId)
      requires Valid()
      modifies this
      ensures Valid() && trail == old(trail) + [Now()]
      ensures Now() == old(Now()).(invitations := RestoreRequested(old(invitations), seller, customer))
    {
      invitations := map i | i in invitations ::
        if IsPairRow(invitations[i], seller, customer, ForCustomer) && invitations[i].status == InviteStatus.REQUESTED
        then Restored(invitations[i]) else invitations[i];
      RestoreStands(old(Now()), seller, customer);
      trail := trail + [Now()];
    }

    /** INSERT of a contact; refused when the seller has a contact with that phone or e-mail. */
    method InsertContact(row: Contact, ghost acts: seq<Act>) returns (r: Reply, k: ContactId)
      requires Valid()
      requires row.sellerId in users && KnownUser(users, row.invitedUserId)
      requires row.invitedUserId.Some? <==> row.status == ContactStatus.ACCEPTED
      requires row.status == ContactStatus.ACCEPTED ==>
                 Consented(history + acts, nextContact, row.sellerId, row.invitedUserId.value)
      modifies this
      ensures Valid() && old(trail) <= trail
      ensures r == if ContactConflicts(old(contacts), row) then Refused(ContactNotUnique) else Done
      ensures r != Done ==> Now() == old(Now()) && trail == old(trail)
      ensures r == Done ==>
                && trail == old(trail) + [Now()] && k == old(nextContact) && k !in old(contacts)
                && Now() == old(Now()).(contacts := old(contacts)[k := row], nextContact := k + 1, history := old(history) + acts)
    {
      k := nextContact;
      if ContactConflicts(contacts, row) {
        r := Refused(ContactNotUnique);
      } else {
        contacts, nextContact := contacts[k := row], nextContact + 1;
        history := history + acts;
        WriteContactStands(old(Now()), Now(), k, acts);
        trail := trail + [Now()];
        r := Done;
      }
    }

    /** UPDATE of one contact's user and status. */
    method SaveContact(k: ContactId, user: Option<UserId>, status: ContactStatus, ghost acts: seq<Act>)
      requires Valid() && k in contacts
      requires KnownUser(users, user)
      requires user.Some? <==> status == ContactStatus.ACCEPTED
      requires status == ContactStatus.ACCEPTED ==> Consented(history + acts, k, contacts[k].sellerId, user.value)
      modifies this
      ensures Valid() && trail == old(trail) + [Now()]
      ensures Now() == old(Now()).(
                contacts := old(contacts)[k := old(contacts)[k].(invitedUserId := user, status := status)],
                history := old(history) + acts)
    {
      contacts := contacts[k := contacts[k].(invitedUserId := user, status := status)];
      history := history + acts;
      assert ContactStands(old(Now()), k, old(contacts)[k]);
      WriteContactStands(old(Now()), Now(), k, acts);
      trail := trail + [Now()];
    }

    /** DELETE of a contact that no invitation points at. */
    method RemoveContact(k: ContactId)
      requires Valid() && k in contacts
      requires forall i | i in invitations :: invitations[i].contactId != Some(k)
      modifies this
      ensures Valid() && trail == old(trail) + [Now()]
      ensures Now() == old(Now()).(contacts := old(contacts) - {k})
    {
      contacts := contacts - {k};
      forall i | i in invitations ensures i < nextInvitation && InvitationStands(Now(), i, invitations[i]) {
        assert InvitationStands(old(Now()), i, invitations[i]);
      }
      forall c | c in contacts ensures c < nextContact && ContactStands(Now(), c, contacts[c]) {
        assert ContactStands(old(Now()), c, contacts[c]);
      }
      trail := trail + [Now()];
    }
  }

  lemma StandsWithMoreUsers(s: Store, t: Store)
    requires Standing(s) && UsersOk(t)
    requires t == s.(users := t.users, nextUser := t.nextUser) && s.users.Keys <= t.users.Keys
    ensures Standing(t)
  {
    forall i | i in t.invitations ensures i < t.nextInvitation && InvitationStands(t, i, t.invitations[i]) {
      assert InvitationStands(s, i, s.invitations[i]);
    }
    forall k | k in t.contacts ensures k < t.nextContact && ContactStands(t, k, t.contacts[k]) {
      assert ContactStands(s, k, s.contacts[k]);
    }
  }
}
