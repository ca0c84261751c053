/**
 A concrete run from empty tables.  First a customer's REJECTED separates the two rows of a handshake;
 then a contact created with a user already filled in ends up INVITED with nothing pending, because
 the seller's acceptance takes over another contact of the same pair.
 */
module Witnesses {
  import opened Wrappers
  import opened Schema
  import opened Protocol
  import opened Invariant
  import opened Theorems
  import opened Lockstep
  import opened ContactAgreement

  // Seller 0 signs up; customer 1 logs in through the seller's link and accepts; then rejects.

  const CALLS: seq<Call> := [
    SignUpCall(SELLER, "s", None),
    LoginCall("c", Some(0), 0),
    AcceptInviteCall(0, InviteStatus.ACCEPTED, 1, None, 0),
    AcceptInviteCall(0, InviteStatus.REJECTED, 1, None, 0),
    CreateContactCall(0, Some("x"), None, Some(1)),
    CreateContactCall(0, Some("y"), None, Some(1)),
    EditContactCall(1, ContactStatus.INVITED, true, 0),
    AcceptInviteCall(1, InviteStatus.ACCEPTED, 0, Some(0), 0)]

  const SELLER_USER := User(SELLER, "s", None, false)
  const CUSTOMER_USER := User(CUSTOMER, "c", None, false)
  const LINK_ROW := PairInvite(0, 1, LINK, ForCustomer, 0)
  const OFFER_ROW := PairInvite(0, 1, LINK, ForSeller, 0)
  const REQUEST_ACT := CustomerRequested(1, 0, 1)
  const FIRST := Contact(0, Some(1), Some("x"), None, ContactStatus.NEW)
  const SECOND := Contact(0, Some(1), Some("y"), None, ContactStatus.NEW)

  const SIGNED := Store(map[0 := SELLER_USER], map[], map[], 1, 0, 0, [])
  const LOGGED := Store(map[0 := SELLER_USER, 1 := CUSTOMER_USER], map[], map[0 := LINK_ROW], 2, 0, 1, [])
  const ASKED := LOGGED.(invitations := map[0 := LINK_ROW.(status := InviteStatus.REQUESTED), 1 := OFFER_ROW],
                         nextInvitation := 2, history := [REQUEST_ACT])
  const DROPPED := ASKED.(invitations := map[1 := OFFER_ROW])
  const ONE := DROPPED.(contacts := map[0 := FIRST], nextContact := 1)
  const TWO := DROPPED.(contacts := map[0 := FIRST, 1 := SECOND], nextContact := 2)
  const SENT := TWO.(contacts := map[0 := FIRST, 1 := SECOND.(status := ContactStatus.INVITED)],
                     invitations := map[1 := OFFER_ROW, 2 := ContactInvite(1, SECOND, 0)], nextInvitation := 3,
                     history := [REQUEST_ACT, SellerInvited(0, 1, 2)])
  const TAKEN := SENT.(contacts := map[0 := FIRST.(status := ContactStatus.ACCEPTED), 1 := SECOND.(status := ContactStatus.INVITED)],
                       invitations := map[1 := OFFER_ROW.(status := InviteStatus.ACCEPTED, contactId := Some(0), acceptedAt := Some(0))],
                       history := [REQUEST_ACT, SellerInvited(0, 1, 2), SellerAccepted(0, 1, 1, 0)])

  const STATES: seq<Store> := [EmptyStore, SIGNED, LOGGED, ASKED, DROPPED, ONE, TWO, SENT, TAKEN]

  lemma LoginSteps()
    ensures Step(EmptyStore, CALLS[0]) == Outcome(SIGNED, Done)
    ensures Step(SIGNED, CALLS[1]) == Outcome(LOGGED, Done)
  {
    assert UserWithPhone(SIGNED.users, "c") == None by {
      assert "s"[0] != "c"[0];
    }
    var joined := AddUser(SIGNED, CUSTOMER_USER);
    assert joined.users == LOGGED.users;
    assert !HasContact(joined.contacts, 0, 1) && !HasOpenInvite(joined, 0, 1, "c");
    assert EnsureLink(joined, 0, 1, "c", 0).store.invitations == LOGGED.invitations;
  }

  lemma AskSteps()
    ensures Legal(LOGGED, CALLS[2]) && Step(LOGGED, CALLS[2]) == Outcome(ASKED, Done)
    ensures Legal(ASKED, CALLS[3]) && Step(ASKED, CALLS[3]) == Outcome(DROPPED, Done)
  {
    var requested := LOGGED.invitations[0 := LINK_ROW.(status := InviteStatus.REQUESTED)];
    assert !HasActive(requested, 0, 1, ForSeller);
    assert requested[1 := OFFER_ROW] == ASKED.invitations;
    assert Request(LOGGED, 0, 1, 0) == ASKED;
    assert ASKED.invitations - {0} == DROPPED.invitations;
  }

  lemma ContactSteps()
    ensures Step(DROPPED, CALLS[4]) == Outcome(ONE, Done)
    ensures Step(ONE, CALLS[5]) == Outcome(TWO, Done)
    ensures Legal(TWO, CALLS[6]) && Step(TWO, CALLS[6]) == Outcome(SENT, Done)
  {
    assert DROPPED.contacts[0 := FIRST] == ONE.contacts;
    assert "x"[0] != "y"[0];
    assert !ContactConflicts(ONE.contacts, SECOND);
    assert ONE.contacts[1 := SECOND] == TWO.contacts;
    var row := ContactInvite(1, SECOND, 0);
    assert !Conflicts(TWO.invitations, 2, row);
    assert TWO.invitations[2 := row] == SENT.invitations;
    assert TWO.contacts[1 := SECOND.(status := ContactStatus.INVITED)] == SENT.contacts;
  }

  lemma TakeStep()
    ensures Legal(SENT, CALLS[7]) && Step(SENT, CALLS[7]) == Outcome(TAKEN, Done)
  {
    assert CustomerOf(SENT.contacts, OFFER_ROW) == Some(1);
    assert Picks(SENT.contacts, 0, 1, Some(0));
    var accepted := OFFER_ROW.(status := InviteStatus.ACCEPTED, contactId := Some(0), acceptedAt := Some(0));
    assert WithoutPair(SENT.invitations[1 := accepted], 0, 1, ForCustomer) == TAKEN.invitations;
    assert SENT.contacts[0 := FIRST.(status := ContactStatus.ACCEPTED)] == TAKEN.contacts;
    assert SellerAccepts(SENT, 1, 1, Some(0), 0) == Outcome(TAKEN, Done);
  }

  lemma StepAt(n: nat)
    requires n < |CALLS|
    ensures Legal(STATES[n], CALLS[n]) && STATES[n + 1] == Step(STATES[n], CALLS[n]).store
  {
    if n < 2 {
      LoginSteps();
    } else if n < 4 {
      AskSteps();
    } else if n < 7 {
      ContactSteps();
    } else {
      TakeStep();
    }
  }

  lemma TheRun()
    ensures IsRun(STATES, CALLS)
  {
    forall n {:trigger CALLS[n]} | 0 <= n < |CALLS|
      ensures Legal(STATES[n], CALLS[n]) && STATES[n + 1] == Step(STATES[n], CALLS[n]).store
    {
      StepAt(n);
    }
  }

  lemma NothingSeparatesBefore(m: nat)
    requires m < 3
    ensures !Separates(STATES[m], CALLS[m])
  {
  }

  lemma OrphanOffer()
    ensures !InLockstep(DROPPED.invitations)
  {
    assert IsPairRow(DROPPED.invitations[1], 0, 1, ForSeller) && HasOffer(DROPPED.invitations, 0, 1);
    assert !HasRequest(DROPPED.invitations, 0, 1);
  }

  lemma LastAnswerSeparates()
    ensures Separates(STATES[3], CALLS[3])
  {
  }

  /** The lockstep of request and offer can be lost: here by the customer's REJECTED. */
  lemma RejectionLeavesOrphanOffer()
    ensures IsRun(STATES, CALLS)
    ensures Separates(STATES[3], CALLS[3]) && InLockstep(STATES[3].invitations) && !InLockstep(STATES[4].invitations)
  {
    TheRun();
    forall m | 0 <= m < 3 ensures !Separates(STATES[m], CALLS[m]) {
      NothingSeparatesBefore(m);
    }
    RunsKeepLockstep(STATES, CALLS, 3);
    LastAnswerSeparates();
    OrphanOffer();
  }

  lemma LastCallStrands()
    ensures Strands(SENT, CALLS[7])
  {
    assert LeftBehind(SENT, 1, 0, 1, Some(0));
  }

  /** The agreement of contacts and invitations can be lost: an INVITED contact is left with nothing pending. */
  lemma PresetContactIsStranded()
    ensures IsRun(STATES, CALLS)
    ensures STATES[8].contacts[1].status == ContactStatus.INVITED && PendingInvites(STATES[8], 1) == {}
    ensures Strands(STATES[7], CALLS[7]) && !PresetFree(CALLS[4]) && !PresetFree(CALLS[5])
  {
    TheRun();
    LastCallStrands();
  }
}
