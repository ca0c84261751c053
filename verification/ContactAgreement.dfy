/**
 Contacts and their invitations agree: a contact is INVITED exactly when one pending invitation points
 at it.  One kind of call can end that, an acceptance by the seller that takes over one contact of a
 pair while another contact of the same pair is still INVITED; these lemmas say so in both directions.
 */
module ContactAgreement {
  import opened Wrappers
  import opened Schema
  import opened Protocol
  import opened Invariant
  import opened Theorems

  ghost predicate HasPending(invs: Invitations, k: ContactId) {
    exists i | i in invs :: PendingFor(invs[i], k)
  }

  /** Every INVITED contact has a pending invitation. */
  ghost predicate Agreed(s: Store) {
    forall k | k in s.contacts && s.contacts[k].status == ContactStatus.INVITED :: HasPending(s.invitations, k)
  }

  /** In every run, presets or not: at most one pending invitation points at a contact, it is addressed to the
      customer, and none points at a contact that is not INVITED. */
  lemma AtMostOnePending(s: Store, k: ContactId)
    requires Inv(s) && k in s.contacts
    ensures |PendingInvites(s, k)| <= 1
    ensures s.contacts[k].status != ContactStatus.INVITED ==> PendingInvites(s, k) == {}
    ensures forall i | i in PendingInvites(s, k) :: s.invitations[i].inviteFor == ForCustomer
    ensures HasPending(s.invitations, k) <==> |PendingInvites(s, k)| == 1
  {
    forall i | i in PendingInvites(s, k)
      ensures s.contacts[k].status == ContactStatus.INVITED && s.invitations[i].inviteFor == ForCustomer
      ensures PendingInvites(s, k) == {i}
    {
      assert InvitationOk(s, i);
      forall j | j in PendingInvites(s, k) ensures j == i {
        assert i != j ==> Fit(s.invitations[i], s.invitations[j]);
      }
    }
    if HasPending(s.invitations, k) {
      var i :| i in s.invitations && PendingFor(s.invitations[i], k);
      assert i in PendingInvites(s, k);
    } else {
      assert PendingInvites(s, k) == {};
    }
  }

  // ---------------------------------------------------------------------------------------
  // Calls that keep the pending invitations of INVITED contacts
  // ---------------------------------------------------------------------------------------

  /** Nothing pending is lost. */
  ghost predicate KeepsPending(old': Invitations, new': Invitations) {
    forall i, k | i in old' && PendingFor(old'[i], k) :: i in new' && PendingFor(new'[i], k)
  }

  /** Nothing pending is lost but, perhaps, that of contact `c`. */
  ghost predicate KeepsPendingBut(old': Invitations, new': Invitations, c: ContactId) {
    forall i, k | i in old' && PendingFor(old'[i], k) && k != c :: i in new' && PendingFor(new'[i], k)
  }

  lemma PendingKept(old': Invitations, new': Invitations, k: ContactId)
    requires HasPending(old', k)
    requires forall i | i in old' && PendingFor(old'[i], k) :: i in new' && PendingFor(new'[i], k)
    ensures HasPending(new', k)
  {
    var i :| i in old' && PendingFor(old'[i], k);
    assert PendingFor(new'[i], k);
  }

  lemma AgreementLasts(s: Store, t: Store)
    requires Agreed(s) && t.contacts == s.contacts && KeepsPending(s.invitations, t.invitations)
    ensures Agreed(t)
  {
    forall k | k in t.contacts && t.contacts[k].status == ContactStatus.INVITED ensures HasPending(t.invitations, k) {
      PendingKept(s.invitations, t.invitations, k);
    }
  }

  /** One contact changed or went; it has what it needs, and the pending invitations of the others are kept. */
  lemma AgreementLastsBut(s: Store, t: Store, c: ContactId)
    requires Agreed(s) && KeepsPendingBut(s.invitations, t.invitations, c)
    requires forall k | k in t.contacts && k != c :: k in s.contacts && t.contacts[k] == s.contacts[k]
    requires c in t.contacts && t.contacts[c].status == ContactStatus.INVITED ==> HasPending(t.invitations, c)
    ensures Agreed(t)
  {
    forall k | k in t.contacts && t.contacts[k].status == ContactStatus.INVITED ensures HasPending(t.invitations, k) {
      if k != c { PendingKept(s.invitations, t.invitations, k); }
    }
  }

  lemma OpenLinkAgrees(s: Store, seller: UserId, customer: UserId, now: Time)
    requires Agreed(s) && s.nextInvitation !in s.invitations
    ensures Agreed(OpenLink(s, seller, customer, now).store)
  {
    AgreementLasts(s, OpenLink(s, seller, customer, now).store);
  }

  lemma LoginAgrees(s: Store, phone: string, seller: Option<UserId>, now: Time)
    requires Agreed(s) && s.nextInvitation !in s.invitations
    ensures Agreed(Login(s, phone, seller, now).store)
  {
    match UserWithPhone(s.users, phone)
    case Some(u) => if seller.Some? { OpenLinkAgrees(s, seller.value, u, now); }
    case None =>
      var s1 := AddUser(s, User(CUSTOMER, phone, None, false));
      assert Agreed(s1);
      if seller.Some? { OpenLinkAgrees(s1, seller.value, s.nextUser, now); }
  }

  /** Invitations that no contact waits for: link invitations and seller-invites. */
  lemma NotPendingForContact(s: Store, i: InviteId, k: ContactId)
    requires InvitationsOk(s) && i in s.invitations
    requires s.invitations[i].inviteFor == ForSeller || s.invitations[i].contactId.None?
    ensures !PendingFor(s.invitations[i], k)
  {
    assert InvitationOk(s, i);
  }

  lemma RequestAgrees(s: Store, id: InviteId, customer: UserId, now: Time)
    requires Agreed(s) && id in s.invitations && s.invitations[id].contactId.None? && s.nextInvitation !in s.invitations
    ensures Agreed(Request(s, id, customer, now))
  {
    AgreementLasts(s, Request(s, id, customer, now));
  }

  lemma RollBackAgrees(s: Store, id: InviteId, seller: UserId, customer: UserId)
    requires InvitationsOk(s) && Agreed(s) && id in s.invitations && s.invitations[id].contactId.None?
    ensures Agreed(s.(invitations := WithoutPair(s.invitations[id := Restored(s.invitations[id])], seller, customer, ForSeller)))
  {
    var t := s.(invitations := WithoutPair(s.invitations[id := Restored(s.invitations[id])], seller, customer, ForSeller));
    forall i, k | i in s.invitations && PendingFor(s.invitations[i], k) ensures i in t.invitations && PendingFor(t.invitations[i], k) {
      if s.invitations[i].inviteFor == ForSeller { NotPendingForContact(s, i, k); }
    }
    AgreementLasts(s, t);
  }

  lemma LinkAnswerAgrees(s: Store, id: InviteId, verb: InviteStatus, customer: UserId, now: Time)
    requires InvitationsOk(s) && Agreed(s) && id in s.invitations && s.invitations[id].contactId.None?
    requires s.nextInvitation !in s.invitations
    ensures Agreed(AnswerLink(s, id, verb, customer, now))
  {
    if verb == InviteStatus.ACCEPTED {
      RequestAgrees(s, id, customer, now);
    } else if Withdraws(verb) {
      RollBackAgrees(s, id, s.invitations[id].sellerId, customer);
      AgreementLasts(s, s.(invitations := s.invitations - {id}));
    }
  }

  lemma WithdrawalAgrees(s: Store, id: InviteId, verb: InviteStatus, bySeller: bool, customer: UserId)
    requires InvitationsOk(s) && Agreed(s) && id in s.invitations && s.invitations[id].inviteFor == ForSeller
    ensures Agreed(WithdrawSellerInvite(s, id, verb, bySeller, customer))
  {
    var t := WithdrawSellerInvite(s, id, verb, bySeller, customer);
    forall i, k | i in s.invitations && PendingFor(s.invitations[i], k) ensures i in t.invitations && PendingFor(t.invitations[i], k) {
      NotPendingForContact(s, id, k);
    }
    AgreementLasts(s, t);
  }

  lemma ContactAnswerAgrees(s: Store, id: InviteId, verb: InviteStatus, customer: UserId, now: Time)
    requires Agreed(s) && id in s.invitations && s.invitations[id].status != InviteStatus.REQUESTED
    requires s.invitations[id].contactId.Some? && s.invitations[id].contactId.value in s.contacts
    ensures Agreed(AnswerContactInvite(s, id, verb, customer, now).store)
    ensures Agreed(AnswerCold(s, id, verb, customer, now).store)
  {
    var k := s.invitations[id].contactId.value;
    if verb == InviteStatus.ACCEPTED {
      AgreementLastsBut(s, AcceptForContact(s, id, customer, now).store, k);
    } else if Withdraws(verb) && s.invitations[id].status == InviteStatus.PENDING {
      AgreementLastsBut(s, DeclineForContact(s, id, verb, now), k);
    } else if Withdraws(verb) {
      AgreementLasts(s, s.(invitations := s.invitations - {id}));
    }
  }

  lemma EditAgrees(s: Store, k: ContactId, status: ContactStatus, sent: bool, now: Time)
    requires Agreed(s) && s.nextInvitation !in s.invitations
    requires k in s.contacts ==> HandshakeEdit(s.contacts[k].status, status)
    ensures Agreed(EditContact(s, k, status, sent, now).store)
  {
    if k in s.contacts {
      var t := EditContact(s, k, status, sent, now).store;
      if status == ContactStatus.INVITED && s.contacts[k].status == ContactStatus.NEW {
        if t != s {
          assert PendingFor(t.invitations[s.nextInvitation], k);
          AgreementLastsBut(s, t, k);
        }
      } else {
        AgreementLastsBut(s, t, k);
      }
    }
  }

  // ---------------------------------------------------------------------------------------
  // The seller's acceptance
  // ---------------------------------------------------------------------------------------

  /** An INVITED contact of the pair that the seller's acceptance would not take over. */
  predicate LeftBehind(s: Store, k: ContactId, seller: UserId, customer: UserId, pick: Option<ContactId>) {
    && k in s.contacts && s.contacts[k].status == ContactStatus.INVITED
    && ContactOf(s.contacts[k], seller, customer) && pick != Some(k)
  }

  /** The pending invitations that the acceptance removes are those of the pair's INVITED contacts. */
  lemma RemovedIffOfPair(s: Store, i: InviteId, k: ContactId, seller: UserId, customer: UserId)
    requires InvitationsOk(s) && i in s.invitations && PendingFor(s.invitations[i], k)
    ensures k in s.contacts && s.contacts[k].status == ContactStatus.INVITED && s.invitations[i].inviteFor == ForCustomer
    ensures IsPairRow(s.invitations[i], seller, customer, ForCustomer) <==> ContactOf(s.contacts[k], seller, customer)
  {
    assert InvitationOk(s, i);
  }

  lemma AcceptanceAgreesUnlessLeftBehind(s: Store, id: InviteId, customer: UserId, pick: Option<ContactId>, now: Time)
    requires InvitationsOk(s) && Agreed(s) && id in s.invitations && s.invitations[id].inviteFor == ForSeller
    requires Picks(s.contacts, s.invitations[id].sellerId, customer, pick)
    requires forall k :: !LeftBehind(s, k, s.invitations[id].sellerId, customer, pick)
    ensures Agreed(SellerAccepts(s, id, customer, pick, now).store)
  {
    var seller := s.invitations[id].sellerId;
    var out := SellerAccepts(s, id, customer, pick, now);
    if out.reply == Done {
      var t := out.store;
      var c := if pick.Some? then pick.value else s.nextContact;
      forall i, k | i in s.invitations && PendingFor(s.invitations[i], k) && k != c
        ensures i in t.invitations && PendingFor(t.invitations[i], k)
      {
        RemovedIffOfPair(s, i, k, seller, customer);
        assert !LeftBehind(s, k, seller, customer, pick);
      }
      AgreementLastsBut(s, t, c);
    }
  }

  lemma LeftBehindIsStranded(s: Store, id: InviteId, customer: UserId, pick: Option<ContactId>, now: Time, k: ContactId)
    requires InvitationsOk(s) && id in s.invitations && s.invitations[id].inviteFor == ForSeller
    requires Picks(s.contacts, s.invitations[id].sellerId, customer, pick)
    requires LeftBehind(s, k, s.invitations[id].sellerId, customer, pick)
    ensures var t := SellerAccepts(s, id, customer, pick, now).store;
            k in t.contacts && t.contacts[k].status == ContactStatus.INVITED && !HasPending(t.invitations, k)
  {
    var t := SellerAccepts(s, id, customer, pick, now).store;
    assert pick.Some?;
    forall i | i in t.invitations ensures !PendingFor(t.invitations[i], k) {
      if i != id && PendingFor(t.invitations[i], k) {
        RemovedIffOfPair(s, i, k, s.invitations[id].sellerId, customer);
      }
    }
  }

  // ---------------------------------------------------------------------------------------
  // All calls
  // ---------------------------------------------------------------------------------------

  /** The live seller accepts a seller-invite while an INVITED contact of the pair is not the one taken over. */
  predicate Strands(s: Store, call: Call) {
    && call.AcceptInviteCall? && call.verb == InviteStatus.ACCEPTED && call.id in s.invitations && LiveUser(s, call.actor)
    && var row := s.invitations[call.id];
    && row.inviteFor == ForSeller && call.actor == row.sellerId && row.customerId.Some?
    && exists k | k in s.contacts :: LeftBehind(s, k, row.sellerId, row.customerId.value, call.pick)
  }

  lemma SellerInviteAnswerAgreesIff(s: Store, id: InviteId, verb: InviteStatus, bySeller: bool, customer: UserId,
                                    pick: Option<ContactId>, now: Time)
    requires InvitationsOk(s) && Agreed(s) && id in s.invitations && s.invitations[id].inviteFor == ForSeller
    requires pick.Some? ==> pick.value in s.contacts
    requires bySeller && verb == InviteStatus.ACCEPTED ==> Picks(s.contacts, s.invitations[id].sellerId, customer, pick)
    ensures Agreed(AnswerSellerInvite(s, id, verb, bySeller, customer, pick, now).store) <==>
            !(bySeller && verb == InviteStatus.ACCEPTED
              && exists k | k in s.contacts :: LeftBehind(s, k, s.invitations[id].sellerId, customer, pick))
  {
    if Withdraws(verb) {
      WithdrawalAgrees(s, id, verb, bySeller, customer);
    } else if bySeller && verb == InviteStatus.ACCEPTED {
      if k :| k in s.contacts && LeftBehind(s, k, s.invitations[id].sellerId, customer, pick) {
        LeftBehindIsStranded(s, id, customer, pick, now, k);
      } else {
        AcceptanceAgreesUnlessLeftBehind(s, id, customer, pick, now);
      }
    }
  }

  /** An answer to a seller-invite by one of its two parties, or by somebody else. */
  lemma SellerInviteCallOutcome(s: Store, id: InviteId, verb: InviteStatus, actor: UserId, customer: UserId, pick: Option<ContactId>, now: Time)
    requires LookupOk(s, id, verb, actor, pick) && id in s.invitations && LiveUser(s, actor)
    requires s.invitations[id].inviteFor == ForSeller && CustomerOf(s.contacts, s.invitations[id]) == Some(customer)
    ensures AcceptInvite(s, id, verb, actor, pick, now).store
            == if actor == s.invitations[id].sellerId || actor == customer
               then AnswerSellerInvite(s, id, verb, actor == s.invitations[id].sellerId, customer, pick, now).store else s
  {
  }

  lemma SellerInviteCallAgreesIff(s: Store, id: InviteId, verb: InviteStatus, actor: UserId, pick: Option<ContactId>, now: Time)
    requires InvitationsOk(s) && Agreed(s) && LookupOk(s, id, verb, actor, pick) && id in s.invitations && LiveUser(s, actor)
    requires s.invitations[id].inviteFor == ForSeller
    requires s.invitations[id].customerId.Some? && CustomerOf(s.contacts, s.invitations[id]) == s.invitations[id].customerId
    ensures Agreed(AcceptInvite(s, id, verb, actor, pick, now).store) <==> !Strands(s, AcceptInviteCall(id, verb, actor, pick, now))
  {
    var customer := s.invitations[id].customerId.value;
    SellerInviteCallOutcome(s, id, verb, actor, customer, pick, now);
    if actor == s.invitations[id].sellerId || actor == customer {
      SellerInviteAnswerAgreesIff(s, id, verb, actor == s.invitations[id].sellerId, customer, pick, now);
    }
  }

  lemma CustomerInviteCallAgrees(s: Store, id: InviteId, verb: InviteStatus, actor: UserId, pick: Option<ContactId>, now: Time)
    requires Inv(s) && Agreed(s) && LookupOk(s, id, verb, actor, pick) && id in s.invitations && LiveUser(s, actor)
    requires s.invitations[id].inviteFor == ForCustomer
    ensures Agreed(AcceptInvite(s, id, verb, actor, pick, now).store)
  {
    AcceptInviteParts(s, id, verb, actor, pick, now);
    FreshInvitationId(s);
    if s.invitations[id].contactId.None? {
      LinkAnswerAgrees(s, id, verb, actor, now);
    } else {
      assert InvitationOk(s, id);
      ContactAnswerAgrees(s, id, verb, actor, now);
    }
  }

  lemma CreationAgrees(s: Store, seller: UserId, phone: Option<string>, email: Option<string>, user: Option<UserId>)
    requires Agreed(s)
    ensures Agreed(CreateContact(s, seller, phone, email, user).store)
  {
    AgreementLastsBut(s, CreateContact(s, seller, phone, email, user).store, s.nextContact);
  }

  lemma DeletionAgrees(s: Store, k: ContactId)
    requires Agreed(s)
    ensures Agreed(DeleteContact(s, k).store)
  {
    AgreementLastsBut(s, DeleteContact(s, k).store, k);
  }

  lemma UserCallsAgree(s: Store, t: Store)
    requires Agreed(s) && t.contacts == s.contacts && t.invitations == s.invitations
    ensures Agreed(t)
  {
  }

  lemma AcceptCallAgreesIff(s: Store, id: InviteId, verb: InviteStatus, actor: UserId, pick: Option<ContactId>, now: Time)
    requires Inv(s) && Agreed(s) && LookupOk(s, id, verb, actor, pick)
    ensures Agreed(AcceptInvite(s, id, verb, actor, pick, now).store) <==> !Strands(s, AcceptInviteCall(id, verb, actor, pick, now))
  {
    if id in s.invitations && LiveUser(s, actor) {
      if s.invitations[id].inviteFor == ForSeller {
        OwnCustomer(s, id);
        SellerInviteCallAgreesIff(s, id, verb, actor, pick, now);
      } else {
        CustomerInviteCallAgrees(s, id, verb, actor, pick, now);
      }
    }
  }

  lemma OtherCallsAgree(s: Store, call: Call)
    requires Agreed(s) && s.nextInvitation !in s.invitations && Legal(s, call) && !call.AcceptInviteCall?
    ensures Agreed(Step(s, call).store)
  {
    match call
    case LoginCall(phone, seller, now) => LoginAgrees(s, phone, seller, now);
    case InviteSellerCall(customer, seller, now) => OpenLinkAgrees(s, seller, customer, now);
    case EditContactCall(k, status, sent, now) => EditAgrees(s, k, status, sent, now);
    case CreateContactCall(seller, phone, email, user) => CreationAgrees(s, seller, phone, email, user);
    case DeleteContactCall(k) => DeletionAgrees(s, k);
    case SignUpCall(role, phone, email) => UserCallsAgree(s, SignUp(s, role, phone, email).store);
    case MarkUserCall(u, deleted) => UserCallsAgree(s, MarkUser(s, u, deleted));
  }

  /** One legal call keeps the agreement exactly unless it strands an INVITED contact. */
  lemma StepKeepsAgreementIff(s: Store, call: Call)
    requires Inv(s) && Agreed(s) && Legal(s, call)
    ensures Agreed(Step(s, call).store) <==> !Strands(s, call)
  {
    FreshInvitationId(s);
    if call.AcceptInviteCall? {
      AcceptCallAgreesIff(s, call.id, call.verb, call.actor, call.pick, call.now);
    } else {
      OtherCallsAgree(s, call);
    }
  }

  lemma NextStateAgreesIff(states: seq<Store>, calls: seq<Call>, n: nat)
    requires IsRun(states, calls) && n < |calls| && Agreed(states[n])
    ensures Agreed(states[n + 1]) <==> !Strands(states[n], calls[n])
  {
    RunsKeepInv(states, calls, n);
    StepKeepsAgreementIff(states[n], calls[n]);
  }

  lemma {:induction false} RunsKeepAgreement(states: seq<Store>, calls: seq<Call>, n: nat)
    requires IsRun(states, calls) && n < |states|
    requires forall m | 0 <= m < n :: !Strands(states[m], calls[m])
    ensures Agreed(states[n])
  {
    if n > 0 {
      RunsKeepAgreement(states, calls, n - 1);
      NextStateAgreesIff(states, calls, n - 1);
    }
  }

  /** Contacts and invitations agree in every state of a run exactly when no call of it strands a contact. */
  lemma RunsAgreeIff(states: seq<Store>, calls: seq<Call>, n: nat)
    requires IsRun(states, calls) && n < |states|
    ensures (forall m | 0 <= m <= n :: Agreed(states[m])) <==> (forall m | 0 <= m < n :: !Strands(states[m], calls[m]))
  {
    if forall m | 0 <= m < n :: !Strands(states[m], calls[m]) {
      forall m | 0 <= m <= n ensures Agreed(states[m]) {
        RunsKeepAgreement(states, calls, m);
      }
    } else {
      var m :| 0 <= m < n && Strands(states[m], calls[m]);
      if Agreed(states[m]) { NextStateAgreesIff(states, calls, m); }
    }
  }

  /** Through any number of rounds of a run that strands nobody, a contact is INVITED exactly when one pending
      customer-invite points at it, and otherwise none does. */
  lemma ContactInviteAgreement(states: seq<Store>, calls: seq<Call>, n: nat, k: ContactId)
    requires IsRun(states, calls) && n < |states| && k in states[n].contacts
    requires forall m | 0 <= m < n :: !Strands(states[m], calls[m])
    ensures states[n].contacts[k].status == ContactStatus.INVITED <==> |PendingInvites(states[n], k)| == 1
    ensures states[n].contacts[k].status != ContactStatus.INVITED ==> PendingInvites(states[n], k) == {}
    ensures forall i | i in PendingInvites(states[n], k) :: states[n].invitations[i].inviteFor == ForCustomer
  {
    RunsKeepInv(states, calls, n);
    RunsKeepAgreement(states, calls, n);
    AtMostOnePending(states[n], k);
  }

  /** A run in which no contact is created with its user strands nobody. */
  lemma PresetFreeRunsStrandNobody(states: seq<Store>, calls: seq<Call>, n: nat)
    requires IsRun(states, calls) && n < |calls|
    requires forall m | 0 <= m < n :: PresetFree(calls[m])
    ensures !Strands(states[n], calls[n])
  {
    RunsHaveNoPresets(states, calls, n);
  }
}
