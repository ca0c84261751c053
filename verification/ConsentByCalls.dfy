/**
 Whose calls stand behind an accepted contact.  The history of acts is written by the transition system;
 these lemmas show that each act in it is a call that the acting party itself made, and carry two-sided
 consent over from acts to calls.
 */
module ConsentByCalls {
  import opened Wrappers
  import opened Schema
  import opened Protocol
  import opened Invariant
  import opened Theorems

  /** The act is this call, made on these tables by the party that it is ascribed to. */
  ghost predicate IsCall(s: Store, call: Call, act: Act) {
    match act
    case CustomerRequested(customer, seller, invite) =>
      && call.AcceptInviteCall? && call.actor == customer && call.verb == InviteStatus.ACCEPTED && LiveUser(s, customer)
      && invite == s.nextInvitation && call.id in s.invitations
      && var row := s.invitations[call.id];
      && row.inviteFor == ForCustomer && row.contactId.None? && row.sellerId == seller && row.customerId == Some(customer)
    case SellerAccepted(seller, customer, invite, contact) =>
      && call.AcceptInviteCall? && call.actor == seller && call.verb == InviteStatus.ACCEPTED && LiveUser(s, seller)
      && invite == call.id && call.id in s.invitations
      && var row := s.invitations[call.id];
      && row.inviteFor == ForSeller && row.sellerId == seller && row.customerId == Some(customer)
    case SellerInvited(seller, contact, invite) =>
      && call.EditContactCall? && call.contact == contact && call.status == ContactStatus.INVITED && call.sent
      && invite == s.nextInvitation && contact in s.contacts
      && s.contacts[contact].sellerId == seller && s.contacts[contact].status == ContactStatus.NEW
    case CustomerAccepted(customer, contact, invite) =>
      && call.AcceptInviteCall? && call.actor == customer && call.verb == InviteStatus.ACCEPTED && LiveUser(s, customer)
      && invite == call.id && call.id in s.invitations
      && var row := s.invitations[call.id];
      && row.inviteFor == ForCustomer && row.contactId == Some(contact) && row.status == InviteStatus.PENDING
  }

  /** Nothing is added to the history, or one act, which the call is. */
  ghost predicate Records(s: Store, call: Call, t: Store) {
    || t.history == s.history
    || (|t.history| == |s.history| + 1 && s.history <= t.history && IsCall(s, call, t.history[|s.history|]))
  }

  lemma OfferAnswerRecords(s: Store, id: InviteId, verb: InviteStatus, actor: UserId, pick: Option<ContactId>, now: Time)
    requires LookupOk(s, id, verb, actor, pick) && id in s.invitations && LiveUser(s, actor)
    requires s.invitations[id].inviteFor == ForSeller
    requires s.invitations[id].customerId.Some? && CustomerOf(s.contacts, s.invitations[id]) == s.invitations[id].customerId
    ensures Records(s, AcceptInviteCall(id, verb, actor, pick, now), AcceptInvite(s, id, verb, actor, pick, now).store)
  {
    var customer := s.invitations[id].customerId.value;
    if verb == InviteStatus.ACCEPTED && actor == s.invitations[id].sellerId {
      assert AcceptInvite(s, id, verb, actor, pick, now) == SellerAccepts(s, id, customer, pick, now);
    } else {
      assert AcceptInvite(s, id, verb, actor, pick, now).store.history == s.history;
    }
  }

  lemma LinkAnswerRecords(s: Store, id: InviteId, verb: InviteStatus, actor: UserId, pick: Option<ContactId>, now: Time)
    requires LookupOk(s, id, verb, actor, pick) && id in s.invitations && LiveUser(s, actor)
    requires s.invitations[id].inviteFor == ForCustomer && s.invitations[id].contactId.None?
    ensures Records(s, AcceptInviteCall(id, verb, actor, pick, now), AcceptInvite(s, id, verb, actor, pick, now).store)
  {
    if s.invitations[id].customerId == Some(actor) {
      assert AcceptInvite(s, id, verb, actor, pick, now).store == AnswerLink(s, id, verb, actor, now);
    } else {
      assert AcceptInvite(s, id, verb, actor, pick, now).store == s;
    }
  }

  lemma ContactAnswerRecords(s: Store, id: InviteId, verb: InviteStatus, actor: UserId, pick: Option<ContactId>, now: Time)
    requires LookupOk(s, id, verb, actor, pick) && id in s.invitations && LiveUser(s, actor)
    requires s.invitations[id].inviteFor == ForCustomer && s.invitations[id].contactId.Some?
    ensures Records(s, AcceptInviteCall(id, verb, actor, pick, now), AcceptInvite(s, id, verb, actor, pick, now).store)
  {
    AcceptInviteParts(s, id, verb, actor, pick, now);
    if verb == InviteStatus.ACCEPTED {
      assert AnswerCold(s, id, verb, actor, now) == AnswerContactInvite(s, id, verb, actor, now) == AcceptForContact(s, id, actor, now);
    } else {
      assert AcceptInvite(s, id, verb, actor, pick, now).store.history == s.history;
    }
  }

  lemma AnswerRecords(s: Store, id: InviteId, verb: InviteStatus, actor: UserId, pick: Option<ContactId>, now: Time)
    requires Inv(s) && LookupOk(s, id, verb, actor, pick)
    ensures Records(s, AcceptInviteCall(id, verb, actor, pick, now), AcceptInvite(s, id, verb, actor, pick, now).store)
  {
    if id in s.invitations && LiveUser(s, actor) {
      if s.invitations[id].inviteFor == ForSeller {
        OwnCustomer(s, id);
        OfferAnswerRecords(s, id, verb, actor, pick, now);
      } else if s.invitations[id].contactId.None? {
        LinkAnswerRecords(s, id, verb, actor, pick, now);
      } else {
        ContactAnswerRecords(s, id, verb, actor, pick, now);
      }
    }
  }

  lemma EditRecords(s: Store, k: ContactId, status: ContactStatus, sent: bool, now: Time)
    ensures Records(s, EditContactCall(k, status, sent, now), EditContact(s, k, status, sent, now).store)
  {
  }

  lemma OtherCallsRecordNothing(s: Store, call: Call)
    requires Legal(s, call) && !call.AcceptInviteCall? && !call.EditContactCall?
    ensures Step(s, call).store.history == s.history
  {
  }

  /** Every call adds to the history at most the act that it is. */
  lemma StepRecords(s: Store, call: Call)
    requires Inv(s) && Legal(s, call)
    ensures Records(s, call, Step(s, call).store)
  {
    if call.AcceptInviteCall? {
      AnswerRecords(s, call.id, call.verb, call.actor, call.pick, call.now);
    } else if call.EditContactCall? {
      EditRecords(s, call.contact, call.status, call.sent, call.now);
    } else {
      OtherCallsRecordNothing(s, call);
    }
  }

  lemma {:induction false} HistoryGrows(states: seq<Store>, calls: seq<Call>, m: nat, n: nat)
    requires IsRun(states, calls) && m <= n < |states|
    ensures states[m].history <= states[n].history
  {
    if m < n {
      HistoryGrows(states, calls, m, n - 1);
      RunsKeepInv(states, calls, n - 1);
      StepRecords(states[n - 1], calls[n - 1]);
    }
  }

  /** Every act in the history of a run is a call made earlier in that run. */
  lemma {:induction false} ActIsEarlierCall(states: seq<Store>, calls: seq<Call>, n: nat, j: nat) returns (m: nat)
    requires IsRun(states, calls) && n < |states| && j < |states[n].history|
    ensures m < n && |states[m].history| == j && IsCall(states[m], calls[m], states[n].history[j])
  {
    m := 0;
    if n > 0 {
      RunsKeepInv(states, calls, n - 1);
      StepRecords(states[n - 1], calls[n - 1]);
      if j < |states[n - 1].history| {
        m := ActIsEarlierCall(states, calls, n - 1, j);
        HistoryGrows(states, calls, n - 1, n);
      } else {
        m := n - 1;
      }
    }
  }

  /** Behind an accepted contact stand two calls of the run in order: the customer's acceptance of the seller's link
      and then the seller's acceptance of the invitation it spawned, or the seller's invitation of the contact and
      then the customer's acceptance of that very invitation while it was pending. */
  lemma AcceptedContactHasTwoCalls(states: seq<Store>, calls: seq<Call>, n: nat, k: ContactId)
    requires IsRun(states, calls) && n < |states|
    requires k in states[n].contacts && states[n].contacts[k].status == ContactStatus.ACCEPTED
    ensures states[n].contacts[k].invitedUserId.Some?
    ensures var seller, customer := states[n].contacts[k].sellerId, states[n].contacts[k].invitedUserId.value;
            exists p, q, i: InviteId | 0 <= p < q < n ::
              || (IsCall(states[p], calls[p], CustomerRequested(customer, seller, i))
                  && IsCall(states[q], calls[q], SellerAccepted(seller, customer, i, k)))
              || (IsCall(states[p], calls[p], SellerInvited(seller, k, i))
                  && IsCall(states[q], calls[q], CustomerAccepted(customer, k, i)))
  {
    TwoSidedConsent(states, calls, n, k);
    var seller, customer := states[n].contacts[k].sellerId, states[n].contacts[k].invitedUserId.value;
    var h := states[n].history;
    var a, b :| 0 <= a < b < |h| && Agreement(h[a], h[b], k, seller, customer);
    var p := ActIsEarlierCall(states, calls, n, a);
    var q := ActIsEarlierCall(states, calls, n, b);
    if q <= p { HistoryGrows(states, calls, q, p); }
    var i := h[a].invite;
    assert IsCall(states[p], calls[p], h[a]) && IsCall(states[q], calls[q], h[b]);
  }
}
