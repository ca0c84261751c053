/**
 The two rows of a requested handshake move together: a pair has a REQUESTED customer-invite
 exactly when it has a PENDING seller-invite.  The one answer that separates them is a
 customer's REJECTED; these lemmas say so in both directions.
 */
module Lockstep {
  import opened Wrappers
  import opened Schema
  import opened Protocol
  import opened Invariant
  import opened Theorems

  predicate HasRequest(invs: Invitations, seller: UserId, customer: UserId) {
    HasWithStatus(invs, seller, customer, ForCustomer, InviteStatus.REQUESTED)
  }

  predicate HasOffer(invs: Invitations, seller: UserId, customer: UserId) {
    HasWithStatus(invs, seller, customer, ForSeller, InviteStatus.PENDING)
  }

  ghost predicate InLockstep(invs: Invitations) {
    forall seller, customer :: HasRequest(invs, seller, customer) <==> HasOffer(invs, seller, customer)
  }

  /** An accepted seller-invite leaves no link invitation of its pair, on every run. */
  lemma AcceptedLeavesNoLink(states: seq<Store>, calls: seq<Call>, n: nat, i: InviteId, j: InviteId)
    requires IsRun(states, calls) && n < |states|
    requires i in states[n].invitations && j in states[n].invitations
    requires states[n].invitations[i].inviteFor == ForSeller && states[n].invitations[i].status == InviteStatus.ACCEPTED
    requires states[n].invitations[j].inviteFor == ForCustomer && states[n].invitations[j].contactId.None?
    ensures !(states[n].invitations[i].sellerId == states[n].invitations[j].sellerId
              && states[n].invitations[i].customerId == states[n].invitations[j].customerId)
  {
    RunsKeepInv(states, calls, n);
    assert i != j;
    assert Fit(states[n].invitations[i], states[n].invitations[j]);
  }

  // ---------------------------------------------------------------------------------------
  // Which rows matter
  // ---------------------------------------------------------------------------------------

  /** The rows that the two sides of lockstep look at. */
  predicate Engaged(row: Invitation) {
    || (row.inviteFor == ForCustomer && row.status == InviteStatus.REQUESTED)
    || (row.inviteFor == ForSeller && row.status == InviteStatus.PENDING)
  }

  predicate OfPair(row: Invitation, seller: UserId, customer: UserId) {
    row.sellerId == seller && row.customerId == Some(customer)
  }

  /** Every engaged row outside the pair is the same before and after. */
  ghost predicate OnlyPairChanges(old': Invitations, new': Invitations, seller: UserId, customer: UserId) {
    && (forall i | i in old' && Engaged(old'[i]) && !OfPair(old'[i], seller, customer) :: i in new' && new'[i] == old'[i])
    && (forall i | i in new' && Engaged(new'[i]) && !OfPair(new'[i], seller, customer) :: i in old' && new'[i] == old'[i])
  }

  ghost predicate NothingChanges(old': Invitations, new': Invitations) {
    && (forall i | i in old' && Engaged(old'[i]) :: i in new' && new'[i] == old'[i])
    && (forall i | i in new' && Engaged(new'[i]) :: i in old' && new'[i] == old'[i])
  }

  lemma NothingChangesKeeps(old': Invitations, new': Invitations)
    requires NothingChanges(old', new')
    ensures InLockstep(new') <==> InLockstep(old')
  {
    forall seller, customer
      ensures HasRequest(old', seller, customer) <==> HasRequest(new', seller, customer)
      ensures HasOffer(old', seller, customer) <==> HasOffer(new', seller, customer)
    {
      SameRows(old', new', seller, customer, ForCustomer, InviteStatus.REQUESTED);
      SameRows(old', new', seller, customer, ForSeller, InviteStatus.PENDING);
    }
    if InLockstep(old') { LockstepTransfers(old', new'); }
    if InLockstep(new') { LockstepTransfers(new', old'); }
  }

  lemma SameRows(old': Invitations, new': Invitations, seller: UserId, customer: UserId, recipient: Recipient, status: InviteStatus)
    requires forall i | i in old' && IsPairRow(old'[i], seller, customer, recipient) && old'[i].status == status :: i in new' && new'[i] == old'[i]
    requires forall i | i in new' && IsPairRow(new'[i], seller, customer, recipient) && new'[i].status == status :: i in old' && new'[i] == old'[i]
    ensures HasWithStatus(old', seller, customer, recipient, status) <==> HasWithStatus(new', seller, customer, recipient, status)
  {
    if HasWithStatus(old', seller, customer, recipient, status) {
      var i :| i in old' && IsPairRow(old'[i], seller, customer, recipient) && old'[i].status == status;
      assert i in new' && IsPairRow(new'[i], seller, customer, recipient);
    }
    if HasWithStatus(new', seller, customer, recipient, status) {
      var i :| i in new' && IsPairRow(new'[i], seller, customer, recipient) && new'[i].status == status;
      assert i in old' && IsPairRow(old'[i], seller, customer, recipient);
    }
  }

  lemma LockstepTransfers(old': Invitations, new': Invitations)
    requires forall seller, customer :: HasRequest(old', seller, customer) <==> HasRequest(new', seller, customer)
    requires forall seller, customer :: HasOffer(old', seller, customer) <==> HasOffer(new', seller, customer)
    requires InLockstep(old')
    ensures InLockstep(new')
  {
    forall seller, customer ensures HasRequest(new', seller, customer) <==> HasOffer(new', seller, customer) {
      assert HasRequest(old', seller, customer) <==> HasOffer(old', seller, customer);
    }
  }

  /** When only one pair changes, lockstep afterwards is lockstep of that pair. */
  lemma OnePairDecides(old': Invitations, new': Invitations, seller: UserId, customer: UserId)
    requires InLockstep(old') && OnlyPairChanges(old', new', seller, customer)
    ensures InLockstep(new') <==> (HasRequest(new', seller, customer) <==> HasOffer(new', seller, customer))
  {
    forall sel, cus | !(sel == seller && cus == customer)
      ensures HasRequest(new', sel, cus) <==> HasOffer(new', sel, cus)
    {
      SameRows(old', new', sel, cus, ForCustomer, InviteStatus.REQUESTED);
      SameRows(old', new', sel, cus, ForSeller, InviteStatus.PENDING);
      assert HasRequest(old', sel, cus) <==> HasOffer(old', sel, cus);
    }
  }

  // ---------------------------------------------------------------------------------------
  // The answers, seen on the invitations alone
  // ---------------------------------------------------------------------------------------

  /** What the invariant says about the invitations of one pair around row `id`. */
  ghost predicate PairAround(invs: Invitations, id: InviteId, seller: UserId, customer: UserId) {
    && id in invs && OfPair(invs[id], seller, customer)
    && (forall i | i in invs && i != id && IsPairRow(invs[i], seller, customer, ForCustomer) :: Fit(invs[i], invs[id]) && Fit(invs[id], invs[i]))
    && (forall i | i in invs && i != id && IsPairRow(invs[i], seller, customer, ForSeller) ::
          && Fit(invs[i], invs[id]) && Fit(invs[id], invs[i])
          && (invs[i].status == InviteStatus.PENDING || invs[i].status == InviteStatus.ACCEPTED))
  }

  lemma PairAroundHolds(s: Store, id: InviteId, customer: UserId)
    requires Inv(s) && id in s.invitations && s.invitations[id].customerId == Some(customer)
    ensures PairAround(s.invitations, id, s.invitations[id].sellerId, customer)
  {
    forall i | i in s.invitations && i != id
      ensures Fit(s.invitations[i], s.invitations[id]) && Fit(s.invitations[id], s.invitations[i])
      ensures s.invitations[i].inviteFor == ForSeller ==>
                s.invitations[i].status == InviteStatus.PENDING || s.invitations[i].status == InviteStatus.ACCEPTED
    {
      assert InvitationOk(s, i);
    }
  }

  predicate IsLink(row: Invitation) {
    row.inviteFor == ForCustomer && row.contactId.None? && LinkInviteOk(row)
  }

  lemma RequestRows(invs: Invitations, new': Invitations, id: InviteId, next: InviteId, seller: UserId, customer: UserId, spawned: Invitation)
    requires InLockstep(invs) && PairAround(invs, id, seller, customer) && IsLink(invs[id]) && next !in invs
    requires IsPairRow(spawned, seller, customer, ForSeller) && spawned.status == InviteStatus.PENDING
    requires var requested := invs[id := invs[id].(status := InviteStatus.REQUESTED)];
             new' == if HasActive(requested, seller, customer, ForSeller) then requested else requested[next := spawned]
    ensures InLockstep(new')
  {
    var requested := invs[id := invs[id].(status := InviteStatus.REQUESTED)];
    assert IsPairRow(new'[id], seller, customer, ForCustomer);
    if HasActive(requested, seller, customer, ForSeller) {
      var j :| j in requested && IsPairRow(requested[j], seller, customer, ForSeller) && Active(requested[j]);
      assert j != id && Fit(invs[j], invs[id]);
      assert new'[j].status == InviteStatus.PENDING;
    } else {
      assert IsPairRow(new'[next], seller, customer, ForSeller);
    }
    OnePairDecides(invs, new', seller, customer);
  }

  /** The pair's only request is row `id`. */
  lemma OnlyRequest(invs: Invitations, id: InviteId, seller: UserId, customer: UserId)
    requires PairAround(invs, id, seller, customer) && IsLink(invs[id])
    ensures forall i | i in invs && i != id && IsPairRow(invs[i], seller, customer, ForCustomer) :: invs[i].status != InviteStatus.REQUESTED
  {
    forall i | i in invs && i != id && IsPairRow(invs[i], seller, customer, ForCustomer)
      ensures invs[i].status != InviteStatus.REQUESTED
    {
      assert !Clash(invs[i], invs[id]);
    }
  }

  lemma CancelRequestRows(invs: Invitations, id: InviteId, seller: UserId, customer: UserId)
    requires InLockstep(invs) && PairAround(invs, id, seller, customer) && IsLink(invs[id])
    ensures InLockstep(WithoutPair(invs[id := Restored(invs[id])], seller, customer, ForSeller))
  {
    OnlyRequest(invs, id, seller, customer);
    OnePairDecides(invs, WithoutPair(invs[id := Restored(invs[id])], seller, customer, ForSeller), seller, customer);
  }

  lemma RejectRequestRows(invs: Invitations, id: InviteId, seller: UserId, customer: UserId)
    requires InLockstep(invs) && PairAround(invs, id, seller, customer) && IsLink(invs[id])
    ensures InLockstep(invs - {id}) <==> invs[id].status != InviteStatus.REQUESTED
  {
    var new' := invs - {id};
    if invs[id].status != InviteStatus.REQUESTED {
      NothingChangesKeeps(invs, new');
    } else {
      OnlyRequest(invs, id, seller, customer);
      OnePairDecides(invs, new', seller, customer);
      assert IsPairRow(invs[id], seller, customer, ForCustomer) && HasRequest(invs, seller, customer);
      assert HasOffer(invs, seller, customer);
      var j :| j in invs && IsPairRow(invs[j], seller, customer, ForSeller) && invs[j].status == InviteStatus.PENDING;
      assert j in new' && new'[j] == invs[j];
    }
  }

  /** The pair's only offer is row `id`, and it stands exactly when the pair has a request. */
  lemma OnlyOffer(invs: Invitations, id: InviteId, seller: UserId, customer: UserId)
    requires InLockstep(invs) && PairAround(invs, id, seller, customer) && invs[id].inviteFor == ForSeller
    requires invs[id].status == InviteStatus.PENDING || invs[id].status == InviteStatus.ACCEPTED
    ensures forall i | i in invs && i != id && IsPairRow(invs[i], seller, customer, ForSeller) :: invs[i].status != InviteStatus.PENDING
    ensures invs[id].status == InviteStatus.PENDING <==> HasRequest(invs, seller, customer)
  {
    assert IsPairRow(invs[id], seller, customer, ForSeller);
    forall i | i in invs && i != id && IsPairRow(invs[i], seller, customer, ForSeller)
      ensures invs[i].status != InviteStatus.PENDING
    {
      assert !Clash(invs[i], invs[id]);
    }
    assert HasRequest(invs, seller, customer) <==> HasOffer(invs, seller, customer);
  }

  lemma WithdrawRows(invs: Invitations, id: InviteId, seller: UserId, customer: UserId)
    requires InLockstep(invs) && PairAround(invs, id, seller, customer) && invs[id].inviteFor == ForSeller
    requires invs[id].status == InviteStatus.PENDING || invs[id].status == InviteStatus.ACCEPTED
    ensures InLockstep(RestoreRequested(invs - {id}, seller, customer))
    ensures InLockstep(invs - {id}) <==> invs[id].status == InviteStatus.ACCEPTED
  {
    var left := invs - {id};
    var restored := RestoreRequested(left, seller, customer);
    OnlyOffer(invs, id, seller, customer);
    OnePairDecides(invs, left, seller, customer);
    OnePairDecides(invs, restored, seller, customer);
    assert !HasRequest(restored, seller, customer);
    if invs[id].status == InviteStatus.PENDING {
      var j :| j in invs && IsPairRow(invs[j], seller, customer, ForCustomer) && invs[j].status == InviteStatus.REQUESTED;
      assert j in left && left[j] == invs[j];
    }
  }

  lemma SellerAcceptRows(invs: Invitations, id: InviteId, seller: UserId, customer: UserId, accepted: Invitation)
    requires InLockstep(invs) && PairAround(invs, id, seller, customer) && invs[id].inviteFor == ForSeller
    requires invs[id].status == InviteStatus.PENDING || invs[id].status == InviteStatus.ACCEPTED
    requires IsPairRow(accepted, seller, customer, ForSeller) && accepted.status == InviteStatus.ACCEPTED
    ensures InLockstep(WithoutPair(invs[id := accepted], seller, customer, ForCustomer))
  {
    OnlyOffer(invs, id, seller, customer);
    OnePairDecides(invs, WithoutPair(invs[id := accepted], seller, customer, ForCustomer), seller, customer);
  }

  // ---------------------------------------------------------------------------------------
  // All calls
  // ---------------------------------------------------------------------------------------

  /** The call by which a customer leaves a requested handshake with REJECTED. */
  predicate Separates(s: Store, call: Call) {
    && call.AcceptInviteCall?
    && call.verb == InviteStatus.REJECTED
    && LiveUser(s, call.actor)
    && call.id in s.invitations
    && var row := s.invitations[call.id];
    && row.customerId == Some(call.actor)
    && Engaged(row)
    && !(row.inviteFor == ForSeller && call.actor == row.sellerId)
  }

  lemma LinkAnswerLockstep(s: Store, id: InviteId, verb: InviteStatus, customer: UserId, now: Time)
    requires Inv(s) && InLockstep(s.invitations) && id in s.invitations
    requires s.invitations[id].inviteFor == ForCustomer && s.invitations[id].contactId.None?
    requires s.invitations[id].customerId == Some(customer)
    ensures InLockstep(AnswerLink(s, id, verb, customer, now).invitations) <==>
            !(verb == InviteStatus.REJECTED && s.invitations[id].status == InviteStatus.REQUESTED)
  {
    var row := s.invitations[id];
    assert InvitationOk(s, id);
    PairAroundHolds(s, id, customer);
    FreshInvitationId(s);
    if verb == InviteStatus.ACCEPTED {
      RequestRows(s.invitations, Request(s, id, customer, now).invitations, id, s.nextInvitation, row.sellerId, customer,
                  PairInvite(row.sellerId, customer, row.inviteType, ForSeller, now));
    } else {
      CancelRequestRows(s.invitations, id, row.sellerId, customer);
      RejectRequestRows(s.invitations, id, row.sellerId, customer);
    }
  }

  lemma SellerInviteLockstep(s: Store, id: InviteId, verb: InviteStatus, bySeller: bool, customer: UserId,
                             pick: Option<ContactId>, now: Time)
    requires Inv(s) && InLockstep(s.invitations) && id in s.invitations
    requires s.invitations[id].inviteFor == ForSeller && s.invitations[id].customerId == Some(customer)
    requires pick.Some? ==> pick.value in s.contacts
    ensures InLockstep(AnswerSellerInvite(s, id, verb, bySeller, customer, pick, now).store.invitations) <==>
            !(!bySeller && verb == InviteStatus.REJECTED && s.invitations[id].status == InviteStatus.PENDING)
  {
    var row := s.invitations[id];
    assert InvitationOk(s, id);
    PairAroundHolds(s, id, customer);
    if Withdraws(verb) {
      WithdrawRows(s.invitations, id, row.sellerId, customer);
    } else {
      var k := if pick.Some? then pick.value else s.nextContact;
      SellerAcceptRows(s.invitations, id, row.sellerId, customer,
                       row.(status := InviteStatus.ACCEPTED, contactId := Some(k), acceptedAt := Some(now)));
    }
  }

  /** Changing or removing a row that is not engaged, before or after. */
  predicate TouchesIdleRow(invs: Invitations, new': Invitations, id: InviteId) {
    && id in invs && !Engaged(invs[id])
    && (new' == invs || new' == invs - {id} || (id in new' && new' == invs[id := new'[id]] && !Engaged(new'[id])))
  }

  lemma AcceptTouchesIdleRow(s: Store, id: InviteId, customer: UserId, now: Time)
    requires id in s.invitations && s.invitations[id].inviteFor == ForCustomer && s.invitations[id].status != InviteStatus.REQUESTED
    requires s.invitations[id].contactId.Some? && s.invitations[id].contactId.value in s.contacts
    ensures TouchesIdleRow(s.invitations, AcceptForContact(s, id, customer, now).store.invitations, id)
  {
  }

  lemma ContactAnswersTouchIdleRow(s: Store, id: InviteId, verb: InviteStatus, customer: UserId, now: Time)
    requires id in s.invitations && s.invitations[id].inviteFor == ForCustomer && s.invitations[id].status != InviteStatus.REQUESTED
    requires s.invitations[id].contactId.Some? && s.invitations[id].contactId.value in s.contacts
    ensures TouchesIdleRow(s.invitations, AnswerContactInvite(s, id, verb, customer, now).store.invitations, id)
    ensures TouchesIdleRow(s.invitations, AnswerCold(s, id, verb, customer, now).store.invitations, id)
  {
    AcceptTouchesIdleRow(s, id, customer, now);
    if Withdraws(verb) {
      assert DeclineForContact(s, id, verb, now).invitations == s.invitations[id := Answered(s.invitations[id], verb, now)];
    }
  }

  /** An answer to a seller-invite by one of its two parties, or by somebody else. */
  lemma SellerInviteAnswered(s: Store, id: InviteId, verb: InviteStatus, actor: UserId, customer: UserId, pick: Option<ContactId>, now: Time)
    requires LookupOk(s, id, verb, actor, pick) && id in s.invitations && LiveUser(s, actor)
    requires s.invitations[id].inviteFor == ForSeller && CustomerOf(s.contacts, s.invitations[id]) == Some(customer)
    ensures AcceptInvite(s, id, verb, actor, pick, now).store.invitations
            == if actor == s.invitations[id].sellerId || actor == customer
               then AnswerSellerInvite(s, id, verb, actor == s.invitations[id].sellerId, customer, pick, now).store.invitations
               else s.invitations
  {
  }

  lemma AcceptSellerInviteLockstep(s: Store, id: InviteId, verb: InviteStatus, actor: UserId, pick: Option<ContactId>, now: Time)
    requires Inv(s) && InLockstep(s.invitations) && LookupOk(s, id, verb, actor, pick) && id in s.invitations && LiveUser(s, actor)
    requires s.invitations[id].inviteFor == ForSeller
    ensures InLockstep(AcceptInvite(s, id, verb, actor, pick, now).store.invitations) <==>
            !Separates(s, AcceptInviteCall(id, verb, actor, pick, now))
  {
    var row := s.invitations[id];
    OwnCustomer(s, id);
    var customer := row.customerId.value;
    SellerInviteAnswered(s, id, verb, actor, customer, pick, now);
    SellerInviteLockstep(s, id, verb, actor == row.sellerId, customer, pick, now);
  }

  lemma AcceptLinkLockstep(s: Store, id: InviteId, verb: InviteStatus, actor: UserId, pick: Option<ContactId>, now: Time)
    requires Inv(s) && InLockstep(s.invitations) && LookupOk(s, id, verb, actor, pick) && id in s.invitations && LiveUser(s, actor)
    requires s.invitations[id].inviteFor == ForCustomer && s.invitations[id].contactId.None?
    ensures InLockstep(AcceptInvite(s, id, verb, actor, pick, now).store.invitations) <==>
            !Separates(s, AcceptInviteCall(id, verb, actor, pick, now))
  {
    OwnCustomer(s, id);
    if s.invitations[id].customerId == Some(actor) {
      assert AcceptInvite(s, id, verb, actor, pick, now).store == AnswerLink(s, id, verb, actor, now);
      LinkAnswerLockstep(s, id, verb, actor, now);
    } else {
      assert AcceptInvite(s, id, verb, actor, pick, now).store == s;
    }
  }

  lemma AcceptContactInviteTouchesIdleRow(s: Store, id: InviteId, verb: InviteStatus, actor: UserId, pick: Option<ContactId>, now: Time)
    requires Inv(s) && LookupOk(s, id, verb, actor, pick) && id in s.invitations && LiveUser(s, actor)
    requires s.invitations[id].inviteFor == ForCustomer && s.invitations[id].contactId.Some?
    ensures !Engaged(s.invitations[id])
    ensures TouchesIdleRow(s.invitations, AcceptInvite(s, id, verb, actor, pick, now).store.invitations, id)
  {
    assert InvitationOk(s, id);
    AcceptInviteParts(s, id, verb, actor, pick, now);
    ContactAnswersTouchIdleRow(s, id, verb, actor, now);
  }

  lemma AcceptContactInviteLockstep(s: Store, id: InviteId, verb: InviteStatus, actor: UserId, pick: Option<ContactId>, now: Time)
    requires Inv(s) && InLockstep(s.invitations) && LookupOk(s, id, verb, actor, pick) && id in s.invitations && LiveUser(s, actor)
    requires s.invitations[id].inviteFor == ForCustomer && s.invitations[id].contactId.Some?
    ensures InLockstep(AcceptInvite(s, id, verb, actor, pick, now).store.invitations)
    ensures !Separates(s, AcceptInviteCall(id, verb, actor, pick, now))
  {
    AcceptContactInviteTouchesIdleRow(s, id, verb, actor, pick, now);
    NothingChangesKeeps(s.invitations, AcceptInvite(s, id, verb, actor, pick, now).store.invitations);
  }

  lemma AcceptInviteLockstep(s: Store, id: InviteId, verb: InviteStatus, actor: UserId, pick: Option<ContactId>, now: Time)
    requires Inv(s) && InLockstep(s.invitations) && LookupOk(s, id, verb, actor, pick) && id in s.invitations && LiveUser(s, actor)
    ensures InLockstep(AcceptInvite(s, id, verb, actor, pick, now).store.invitations) <==>
            !Separates(s, AcceptInviteCall(id, verb, actor, pick, now))
  {
    if s.invitations[id].inviteFor == ForSeller {
      AcceptSellerInviteLockstep(s, id, verb, actor, pick, now);
    } else if s.invitations[id].contactId.None? {
      AcceptLinkLockstep(s, id, verb, actor, pick, now);
    } else {
      AcceptContactInviteLockstep(s, id, verb, actor, pick, now);
    }
  }

  /** Nothing, or one row that is not engaged, is added. */
  predicate AddsIdleRow(old': Invitations, new': Invitations, id: InviteId) {
    new' == old' || (id !in old' && id in new' && new' == old'[id := new'[id]] && !Engaged(new'[id]))
  }

  lemma AddedRowIsIdle(old': Invitations, new': Invitations, id: InviteId)
    requires AddsIdleRow(old', new', id)
    ensures NothingChanges(old', new')
  {
  }

  lemma TouchedRowIsIdle(old': Invitations, new': Invitations, id: InviteId)
    requires TouchesIdleRow(old', new', id)
    ensures NothingChanges(old', new')
  {
  }

  lemma OpenLinkAddsIdleRow(s: Store, seller: UserId, customer: UserId, now: Time)
    requires s.nextInvitation !in s.invitations
    ensures AddsIdleRow(s.invitations, OpenLink(s, seller, customer, now).store.invitations, s.nextInvitation)
  {
  }

  lemma LoginChangesNothing(s: Store, phone: string, seller: Option<UserId>, now: Time)
    requires s.nextInvitation !in s.invitations
    ensures NothingChanges(s.invitations, Login(s, phone, seller, now).store.invitations)
  {
    if seller.Some? {
      match UserWithPhone(s.users, phone)
      case Some(u) => OpenLinkAddsIdleRow(s, seller.value, u, now);
      case None => OpenLinkAddsIdleRow(AddUser(s, User(CUSTOMER, phone, None, false)), seller.value, s.nextUser, now);
    }
    AddedRowIsIdle(s.invitations, Login(s, phone, seller, now).store.invitations, s.nextInvitation);
  }

  lemma InviteSellerChangesNothing(s: Store, customer: UserId, seller: UserId, now: Time)
    requires s.nextInvitation !in s.invitations
    ensures NothingChanges(s.invitations, InviteSeller(s, customer, seller, now).store.invitations)
  {
    OpenLinkAddsIdleRow(s, seller, customer, now);
    AddedRowIsIdle(s.invitations, InviteSeller(s, customer, seller, now).store.invitations, s.nextInvitation);
  }

  lemma InvitingChangesNothing(s: Store, k: ContactId, sent: bool, now: Time)
    requires s.nextInvitation !in s.invitations && k in s.contacts && s.contacts[k].status == ContactStatus.NEW
    ensures NothingChanges(s.invitations, EditContact(s, k, ContactStatus.INVITED, sent, now).store.invitations)
  {
    AddedRowIsIdle(s.invitations, EditContact(s, k, ContactStatus.INVITED, sent, now).store.invitations, s.nextInvitation);
  }

  lemma CancellingChangesNothing(s: Store, k: ContactId, sent: bool, now: Time)
    requires InvitationsOk(s) && k in s.contacts && s.contacts[k].status == ContactStatus.INVITED
    ensures NothingChanges(s.invitations, EditContact(s, k, ContactStatus.CANCELLED, sent, now).store.invitations)
  {
    if PendingInviteOf(s, k).Some? {
      var i := PendingInviteOf(s, k).value;
      assert InvitationOk(s, i);
      TouchedRowIsIdle(s.invitations, EditContact(s, k, ContactStatus.CANCELLED, sent, now).store.invitations, i);
    }
  }

  lemma EditChangesNothing(s: Store, k: ContactId, status: ContactStatus, sent: bool, now: Time)
    requires InvitationsOk(s) && s.nextInvitation !in s.invitations
    ensures NothingChanges(s.invitations, EditContact(s, k, status, sent, now).store.invitations)
  {
    if k in s.contacts && status == ContactStatus.INVITED && s.contacts[k].status == ContactStatus.NEW {
      InvitingChangesNothing(s, k, sent, now);
    } else if k in s.contacts && status == ContactStatus.CANCELLED && s.contacts[k].status == ContactStatus.INVITED {
      CancellingChangesNothing(s, k, sent, now);
    } else {
      assert EditContact(s, k, status, sent, now).store.invitations == s.invitations;
    }
  }

  lemma OtherCallsChangeNothing(s: Store, call: Call)
    requires Inv(s) && Legal(s, call) && !call.AcceptInviteCall?
    ensures NothingChanges(s.invitations, Step(s, call).store.invitations)
  {
    FreshInvitationId(s);
    match call
    case LoginCall(phone, seller, now) => LoginChangesNothing(s, phone, seller, now);
    case InviteSellerCall(customer, seller, now) => InviteSellerChangesNothing(s, customer, seller, now);
    case EditContactCall(k, status, sent, now) => EditChangesNothing(s, k, status, sent, now);
    case DeleteContactCall(k) => DeleteChangesNothing(s, k);
    case SignUpCall(role, phone, email) => assert SignUp(s, role, phone, email).store.invitations == s.invitations;
    case MarkUserCall(u, deleted) => assert MarkUser(s, u, deleted).invitations == s.invitations;
    case CreateContactCall(seller, phone, email, user) =>
      assert CreateContact(s, seller, phone, email, user).store.invitations == s.invitations;
  }

  lemma DeleteChangesNothing(s: Store, k: ContactId)
    requires Inv(s)
    ensures NothingChanges(s.invitations, DeleteContact(s, k).store.invitations)
  {
    forall i | i in s.invitations && Engaged(s.invitations[i]) ensures s.invitations[i].contactId.None? {
      assert InvitationOk(s, i);
    }
  }

  /** One legal call keeps lockstep exactly unless it is a customer's REJECTED on a requested handshake. */
  lemma StepKeepsLockstepIff(s: Store, call: Call)
    requires Inv(s) && InLockstep(s.invitations) && Legal(s, call)
    ensures InLockstep(Step(s, call).store.invitations) <==> !Separates(s, call)
  {
    if call.AcceptInviteCall? {
      if call.id in s.invitations && LiveUser(s, call.actor) {
        AcceptInviteLockstep(s, call.id, call.verb, call.actor, call.pick, call.now);
      }
    } else {
      OtherCallsChangeNothing(s, call);
      NothingChangesKeeps(s.invitations, Step(s, call).store.invitations);
    }
  }

  /** On a run in which customers leave requests with CANCELLED, the two rows are always in step. */
  lemma {:induction false} RunsKeepLockstep(states: seq<Store>, calls: seq<Call>, n: nat)
    requires IsRun(states, calls) && n < |states|
    requires forall m | 0 <= m < n :: !Separates(states[m], calls[m])
    ensures InLockstep(states[n].invitations)
  {
    if n > 0 {
      RunsKeepLockstep(states, calls, n - 1);
      RunsKeepInv(states, calls, n - 1);
      StepKeepsLockstepIff(states[n - 1], calls[n - 1]);
    }
  }
}
