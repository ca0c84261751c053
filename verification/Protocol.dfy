/**
 The seller/customer handshake as a transition system: what each call of the services does to
 the tables when no other call runs in between.  The functions below are the reference that
 the imperative services (module `Services`) are proved to follow, and that the invariants
 and theorems are about.
 */
module Protocol {
  import opened Wrappers
  import opened Schema

  /** The decisive acts of the two parties, in the order in which they were carried out. */
  datatype Act =
    | CustomerRequested(customer: UserId, seller: UserId, invite: InviteId)
    | SellerAccepted(seller: UserId, customer: UserId, invite: InviteId, contact: ContactId)
    | SellerInvited(seller: UserId, contact: ContactId, invite: InviteId)
    | CustomerAccepted(customer: UserId, contact: ContactId, invite: InviteId)

  datatype Store = Store(
    users: map<UserId, User>,
    contacts: map<ContactId, Contact>,
    invitations: Invitations,
    nextUser: UserId,
    nextContact: ContactId,
    nextInvitation: InviteId,
    history: seq<Act>)

  const EmptyStore := Store(map[], map[], map[], 0, 0, 0, [])

  datatype Error =
    | LoginFailed | EmailExists | PhoneExists | UserNotFound | Forbidden | InvitationNotFound | AlreadyProcessed
    | InvalidInput | ContactNotFound | ContactExists | ContactNotUnique
    | NoInvitationMethod | InvitationNotSent | PairIndexViolation | ForeignKeyViolation

  datatype Reply = Done | Refused(error: Error)

  datatype Outcome = Outcome(store: Store, reply: Reply)

  // ---------------------------------------------------------------------------------------
  // Lookups
  // ---------------------------------------------------------------------------------------

  /** `findOneById` on users skips soft-deleted rows. */
  predicate LiveUser(s: Store, u: UserId) {
    u in s.users && !s.users[u].deleted
  }

  ghost function UserWithPhone(users: map<UserId, User>, phone: string): (r: Option<UserId>)
    ensures r.Some? ==> r.value in users && users[r.value].phone == phone
    ensures r.None? ==> forall u | u in users :: users[u].phone != phone
  {
    if u :| u in users && users[u].phone == phone then Some(u) else None
  }

  predicate ContactOf(row: Contact, seller: UserId, customer: UserId) {
    row.sellerId == seller && row.invitedUserId == Some(customer)
  }

  predicate HasContact(contacts: map<ContactId, Contact>, seller: UserId, customer: UserId) {
    exists k | k in contacts :: ContactOf(contacts[k], seller, customer)
  }

  /** `pick` is a row that an unordered "find one contact of this pair" may return. */
  predicate Picks(contacts: map<ContactId, Contact>, seller: UserId, customer: UserId, pick: Option<ContactId>) {
    if pick.Some? then pick.value in contacts && ContactOf(contacts[pick.value], seller, customer)
    else !HasContact(contacts, seller, customer)
  }

  /** The customer an invitation concerns: the contact's user if known, else the row's own. */
  function CustomerOf(contacts: map<ContactId, Contact>, row: Invitation): Option<UserId> {
    if row.contactId.Some? && row.contactId.value in contacts && contacts[row.contactId.value].invitedUserId.Some?
    then contacts[row.contactId.value].invitedUserId
    else row.customerId
  }

  predicate IsPairRow(row: Invitation, seller: UserId, customer: UserId, recipient: Recipient) {
    row.sellerId == seller && row.customerId == Some(customer) && row.inviteFor == recipient
  }

  predicate HasActive(invs: Invitations, seller: UserId, customer: UserId, recipient: Recipient) {
    exists i | i in invs :: IsPairRow(invs[i], seller, customer, recipient) && Active(invs[i])
  }

  predicate HasWithStatus(invs: Invitations, seller: UserId, customer: UserId, recipient: Recipient, status: InviteStatus) {
    exists i | i in invs :: IsPairRow(invs[i], seller, customer, recipient) && invs[i].status == status
  }

  predicate Awaiting(row: Invitation) {
    row.inviteFor == ForCustomer && (row.status == InviteStatus.PENDING || row.status == InviteStatus.REQUESTED)
  }

  /** An open customer-invite of `seller`, addressed to `customer` or to a contact with `phone`. */
  predicate OpenInviteFor(contacts: map<ContactId, Contact>, row: Invitation, seller: UserId, customer: UserId, phone: string) {
    && row.sellerId == seller
    && Awaiting(row)
    && (row.customerId == Some(customer)
        || (row.contactId.Some? && row.contactId.value in contacts && contacts[row.contactId.value].phone == Some(phone)))
  }

  predicate HasOpenInvite(s: Store, seller: UserId, customer: UserId, phone: string) {
    exists i | i in s.invitations :: OpenInviteFor(s.contacts, s.invitations[i], seller, customer, phone)
  }

  // ---------------------------------------------------------------------------------------
  // Rows and bulk writes
  // ---------------------------------------------------------------------------------------

  function PairInvite(seller: UserId, customer: UserId, kind: InviteType, recipient: Recipient, now: Time): Invitation {
    Invitation(seller, Some(customer), None, recipient, kind, InviteStatus.PENDING, None, None, Some(now))
  }

  function ContactInvite(contactId: ContactId, contact: Contact, now: Time): Invitation {
    Invitation(contact.sellerId, contact.invitedUserId, Some(contactId), ForCustomer, NORMAL,
               InviteStatus.PENDING, None, None, Some(now))
  }

  /** An invitation of the pair that was taken back to the state before the customer's request. */
  function Restored(row: Invitation): Invitation {
    row.(status := InviteStatus.PENDING, acceptedAt := None, cancelledAt := None)
  }

  function RestoreRequested(invs: Invitations, seller: UserId, customer: UserId): Invitations {
    map i | i in invs ::
      if IsPairRow(invs[i], seller, customer, ForCustomer) && invs[i].status == InviteStatus.REQUESTED
      then Restored(invs[i]) else invs[i]
  }

  function WithoutPair(invs: Invitations, seller: UserId, customer: UserId, recipient: Recipient): Invitations {
    map i | i in invs && !IsPairRow(invs[i], seller, customer, recipient) :: invs[i]
  }

  function WithoutContact(invs: Invitations, k: ContactId): Invitations {
    map i | i in invs && invs[i].contactId != Some(k) :: invs[i]
  }

  function Insert(s: Store, row: Invitation): Store {
    s.(invitations := s.invitations[s.nextInvitation := row], nextInvitation := s.nextInvitation + 1)
  }

  function Perform(s: Store, act: Act): Store {
    s.(history := s.history + [act])
  }

  // ---------------------------------------------------------------------------------------
  // Login and inviteSeller: where a link invitation starts
  // ---------------------------------------------------------------------------------------

  /** `createInvitationForCustomer` for a fresh link invitation of the pair. */
  function OpenLink(s: Store, seller: UserId, customer: UserId, now: Time): Outcome {
    var row := PairInvite(seller, customer, LINK, ForCustomer, now);
    if seller !in s.users then Outcome(s, Refused(ForeignKeyViolation))
    else if Conflicts(s.invitations, s.nextInvitation, row) then Outcome(s, Refused(PairIndexViolation))
    else Outcome(Insert(s, row), Done)
  }

  /** The part of a customer's login that makes sure there is a link invitation; the reply is that of the insert. */
  function EnsureLink(s: Store, seller: UserId, customer: UserId, phone: string, now: Time): Outcome {
    if HasContact(s.contacts, seller, customer) || HasOpenInvite(s, seller, customer, phone) then Outcome(s, Done)
    else OpenLink(s, seller, customer, now)
  }

  function AddUser(s: Store, user: User): Store {
    s.(users := s.users[s.nextUser := user], nextUser := s.nextUser + 1)
  }

  /** A login in the customer role; a failed link insert is logged and swallowed. */
  ghost function Login(s: Store, phone: string, seller: Option<UserId>, now: Time): Outcome {
    match UserWithPhone(s.users, phone)
    case Some(u) =>
      if s.users[u].role != CUSTOMER then Outcome(s, Refused(LoginFailed))
      else if seller.None? then Outcome(s, Done)
      else Outcome(EnsureLink(s, seller.value, u, phone, now).store, Done)
    case None =>
      var s1 := AddUser(s, User(CUSTOMER, phone, None, false));
      if seller.None? then Outcome(s1, Done)
      else Outcome(EnsureLink(s1, seller.value, s.nextUser, phone, now).store, Done)
  }

  function InviteSeller(s: Store, customer: UserId, seller: UserId, now: Time): Outcome {
    if !LiveUser(s, customer) then Outcome(s, Refused(UserNotFound))
    else if s.users[customer].role != CUSTOMER then Outcome(s, Refused(Forbidden))
    else if !LiveUser(s, seller) then Outcome(s, Refused(UserNotFound))
    else if s.users[seller].role != SELLER then Outcome(s, Refused(Forbidden))
    else if HasContact(s.contacts, seller, customer) then Outcome(s, Refused(ContactExists))
    else if HasWithStatus(s.invitations, seller, customer, ForCustomer, InviteStatus.PENDING) then Outcome(s, Done)
    else OpenLink(s, seller, customer, now)
  }

  // ---------------------------------------------------------------------------------------
  // acceptInvite: the answers
  // ---------------------------------------------------------------------------------------

  /** `updateInvitationStatusById`: a CANCELLED answer leaves no timestamp. */
  function Answered(row: Invitation, status: InviteStatus, now: Time): Invitation {
    match status
    case ACCEPTED => row.(status := status, acceptedAt := Some(now))
    case REJECTED => row.(status := status, cancelledAt := Some(now))
    case _ => row.(status := status)
  }

  /** A customer accepts a contact's invitation; the customer id is written last and may be refused. */
  function AcceptForContact(s: Store, id: InviteId, customer: UserId, now: Time): Outcome
    requires id in s.invitations && s.invitations[id].contactId.Some? && s.invitations[id].contactId.value in s.contacts
  {
    var row := s.invitations[id];
    var k := row.contactId.value;
    if row.status != InviteStatus.PENDING then Outcome(s, Refused(AlreadyProcessed))
    else
      var accepted := Answered(row, InviteStatus.ACCEPTED, now);
      var s1 := Perform(
        s.(invitations := s.invitations[id := accepted],
           contacts := s.contacts[k := s.contacts[k].(invitedUserId := Some(customer), status := ContactStatus.ACCEPTED)]),
        CustomerAccepted(customer, k, id));
      var named := accepted.(customerId := Some(customer));
      if row.customerId.Some? then Outcome(s1, Done)
      else if Conflicts(s.invitations, id, named) then Outcome(s1, Refused(PairIndexViolation))
      else Outcome(s1.(invitations := s.invitations[id := named]), Done)
  }

  /** A customer turns a contact's pending invitation down: the contact starts over as NEW. */
  function DeclineForContact(s: Store, id: InviteId, verb: InviteStatus, now: Time): Store
    requires id in s.invitations && s.invitations[id].contactId.Some? && s.invitations[id].contactId.value in s.contacts
  {
    var k := s.invitations[id].contactId.value;
    s.(invitations := s.invitations[id := Answered(s.invitations[id], verb, now)],
       contacts := s.contacts[k := s.contacts[k].(invitedUserId := None, status := ContactStatus.NEW)])
  }

  predicate Withdraws(verb: InviteStatus) {
    verb == InviteStatus.REJECTED || verb == InviteStatus.CANCELLED
  }

  /** A user unknown to the seller answers a contact's invitation. */
  function AnswerCold(s: Store, id: InviteId, verb: InviteStatus, actor: UserId, now: Time): Outcome
    requires id in s.invitations && s.invitations[id].contactId.Some? && s.invitations[id].contactId.value in s.contacts
  {
    if verb == InviteStatus.ACCEPTED then AcceptForContact(s, id, actor, now)
    else if !Withdraws(verb) then Outcome(s, Refused(InvalidInput))
    else if s.invitations[id].status != InviteStatus.PENDING then Outcome(s, Refused(AlreadyProcessed))
    else Outcome(DeclineForContact(s, id, verb, now), Done)
  }

  /** The contact's own customer answers a contact's invitation. */
  function AnswerContactInvite(s: Store, id: InviteId, verb: InviteStatus, customer: UserId, now: Time): Outcome
    requires id in s.invitations && s.invitations[id].contactId.Some? && s.invitations[id].contactId.value in s.contacts
  {
    if verb == InviteStatus.ACCEPTED then AcceptForContact(s, id, customer, now)
    else if !Withdraws(verb) then Outcome(s, Done)
    else if s.invitations[id].status == InviteStatus.PENDING then Outcome(DeclineForContact(s, id, verb, now), Done)
    else if verb == InviteStatus.CANCELLED && s.invitations[id].status == InviteStatus.REQUESTED then
      var row := s.invitations[id];
      Outcome(s.(invitations := WithoutPair(s.invitations[id := Restored(row)], row.sellerId, customer, ForSeller)), Done)
    else Outcome(s.(invitations := s.invitations - {id}), Done)
  }

  /** The customer accepts a link invitation: it becomes a request that the seller must answer. */
  function Request(s: Store, id: InviteId, customer: UserId, now: Time): Store
    requires id in s.invitations
  {
    var row := s.invitations[id];
    var s1 := s.(invitations := s.invitations[id := row.(status := InviteStatus.REQUESTED)]);
    if HasActive(s1.invitations, row.sellerId, customer, ForSeller) then s1
    else Perform(Insert(s1, PairInvite(row.sellerId, customer, row.inviteType, ForSeller, now)),
                 CustomerRequested(customer, row.sellerId, s.nextInvitation))
  }

  /** The customer answers a link invitation. */
  function AnswerLink(s: Store, id: InviteId, verb: InviteStatus, customer: UserId, now: Time): Store
    requires id in s.invitations
  {
    var row := s.invitations[id];
    if verb == InviteStatus.ACCEPTED then Request(s, id, customer, now)
    else if !Withdraws(verb) then s
    else if verb == InviteStatus.CANCELLED && row.status == InviteStatus.REQUESTED then
      s.(invitations := WithoutPair(s.invitations[id := Restored(row)], row.sellerId, customer, ForSeller))
    else s.(invitations := s.invitations - {id})
  }

  /** Either party withdraws a seller-invite; a customer's REJECTED leaves the request as it is. */
  function WithdrawSellerInvite(s: Store, id: InviteId, verb: InviteStatus, bySeller: bool, customer: UserId): Store
    requires id in s.invitations
  {
    var left := s.invitations - {id};
    s.(invitations := if bySeller || verb == InviteStatus.CANCELLED
                      then RestoreRequested(left, s.invitations[id].sellerId, customer) else left)
  }

  function NewContact(s: Store, seller: UserId, customer: UserId): Contact {
    Contact(seller, Some(customer),
            if LiveUser(s, customer) then Some(s.users[customer].phone) else None,
            if LiveUser(s, customer) then s.users[customer].email else None,
            ContactStatus.ACCEPTED)
  }

  /** The seller accepts a request: the pair's contact is created or taken over, customer-invites go. */
  function SellerAccepts(s: Store, id: InviteId, customer: UserId, pick: Option<ContactId>, now: Time): Outcome
    requires id in s.invitations
    requires pick.Some? ==> pick.value in s.contacts
  {
    var row := s.invitations[id];
    var created := NewContact(s, row.sellerId, customer);
    if pick.None? && ContactConflicts(s.contacts, created) then Outcome(s, Refused(ContactNotUnique))
    else
      var k := if pick.Some? then pick.value else s.nextContact;
      var contact := if pick.Some?
                     then s.contacts[k].(invitedUserId := Some(customer), status := ContactStatus.ACCEPTED)
                     else created;
      var accepted := row.(status := InviteStatus.ACCEPTED, contactId := Some(k), acceptedAt := Some(now));
      Outcome(
        Perform(
          s.(contacts := s.contacts[k := contact],
             nextContact := if pick.Some? then s.nextContact else s.nextContact + 1,
             invitations := WithoutPair(s.invitations[id := accepted], row.sellerId, customer, ForCustomer)),
          SellerAccepted(row.sellerId, customer, id, k)),
        Done)
  }

  /** A participant answers a seller-invite. */
  function AnswerSellerInvite(s: Store, id: InviteId, verb: InviteStatus, bySeller: bool, customer: UserId,
                              pick: Option<ContactId>, now: Time): Outcome
    requires id in s.invitations
    requires pick.Some? ==> pick.value in s.contacts
  {
    if Withdraws(verb) then Outcome(WithdrawSellerInvite(s, id, verb, bySeller, customer), Done)
    else if bySeller && verb == InviteStatus.ACCEPTED then SellerAccepts(s, id, customer, pick, now)
    else Outcome(s, Done)
  }

  predicate Cold(row: Invitation, customer: Option<UserId>) {
    row.contactId.Some? && row.inviteFor == ForCustomer && customer.None?
  }

  /** One call of acceptInvite.  `pick` is the contact that the lookup for the pair returned, if it was made. */
  function AcceptInvite(s: Store, id: InviteId, verb: InviteStatus, actor: UserId, pick: Option<ContactId>, now: Time): Outcome
    requires id in s.invitations && s.invitations[id].contactId.Some? ==> s.invitations[id].contactId.value in s.contacts
    requires pick.Some? ==> pick.value in s.contacts
  {
    if id !in s.invitations then Outcome(s, Refused(InvitationNotFound))
    else if !LiveUser(s, actor) then Outcome(s, Refused(UserNotFound))
    else
      var row := s.invitations[id];
      var customer := CustomerOf(s.contacts, row);
      var bySeller := actor == row.sellerId;
      var byCustomer := customer == Some(actor);
      if !bySeller && !byCustomer then
        if Cold(row, customer) && s.users[actor].role == CUSTOMER then AnswerCold(s, id, verb, actor, now)
        else Outcome(s, Refused(Forbidden))
      else if row.inviteFor == ForCustomer then
        if !byCustomer then Outcome(s, Done)
        else if row.contactId.Some? then AnswerContactInvite(s, id, verb, actor, now)
        else Outcome(AnswerLink(s, id, verb, actor, now), Done)
      else if customer.None? then Outcome(s, Refused(InvalidInput))
      else AnswerSellerInvite(s, id, verb, bySeller, customer.value, pick, now)
  }

  // ---------------------------------------------------------------------------------------
  // Contacts
  // ---------------------------------------------------------------------------------------

  predicate Reachable(contact: Contact) {
    (contact.phone.Some? && contact.phone.value != "") || (contact.email.Some? && contact.email.value != "")
  }

  /** A contact is created NEW; the seller may already know which user it is. */
  function CreateContact(s: Store, seller: UserId, phone: Option<string>, email: Option<string>, user: Option<UserId>): Outcome {
    var row := Contact(seller, user, phone, email, ContactStatus.NEW);
    if seller !in s.users || (user.Some? && user.value !in s.users) then Outcome(s, Refused(ForeignKeyViolation))
    else if ContactConflicts(s.contacts, row) then Outcome(s, Refused(ContactNotUnique))
    else Outcome(s.(contacts := s.contacts[s.nextContact := row], nextContact := s.nextContact + 1), Done)
  }

  predicate PendingFor(row: Invitation, k: ContactId) {
    row.contactId == Some(k) && row.status == InviteStatus.PENDING
  }

  ghost function PendingInviteOf(s: Store, k: ContactId): (r: Option<InviteId>)
    ensures r.Some? ==> r.value in s.invitations && PendingFor(s.invitations[r.value], k)
    ensures r.None? ==> forall i | i in s.invitations :: !PendingFor(s.invitations[i], k)
  {
    if i :| i in s.invitations && PendingFor(s.invitations[i], k) then Some(i) else None
  }

  /** CANCELLED is stored as NEW. */
  function StoredStatus(status: ContactStatus): ContactStatus {
    if status == ContactStatus.CANCELLED then ContactStatus.NEW else status
  }

  function SetContactStatus(s: Store, k: ContactId, status: ContactStatus): Store
    requires k in s.contacts
  {
    s.(contacts := s.contacts[k := s.contacts[k].(status := StoredStatus(status))])
  }

  /** An edit of a contact's status alone; `sent` tells whether the invitation message went out. */
  ghost function EditContact(s: Store, k: ContactId, status: ContactStatus, sent: bool, now: Time): Outcome {
    if k !in s.contacts then Outcome(s, Refused(ContactNotFound))
    else
      var contact := s.contacts[k];
      if status == ContactStatus.INVITED && contact.status == ContactStatus.NEW then
        var row := ContactInvite(k, contact, now);
        if !Reachable(contact) then Outcome(s, Refused(NoInvitationMethod))
        else if !sent then Outcome(s, Refused(InvitationNotSent))
        else if Conflicts(s.invitations, s.nextInvitation, row) then Outcome(s, Refused(PairIndexViolation))
        else Outcome(SetContactStatus(Perform(Insert(s, row), SellerInvited(contact.sellerId, k, s.nextInvitation)), k, status), Done)
      else if status == ContactStatus.CANCELLED && contact.status == ContactStatus.INVITED then
        match PendingInviteOf(s, k)
        case None => Outcome(s, Refused(InvitationNotFound))
        case Some(i) =>
          var cancelled := s.invitations[i].(status := InviteStatus.CANCELLED, cancelledAt := Some(now));
          Outcome(SetContactStatus(s.(invitations := s.invitations[i := cancelled]), k, status), Done)
      else Outcome(SetContactStatus(s, k, status), Done)
  }

  function DeleteContact(s: Store, k: ContactId): Outcome {
    if k !in s.contacts then Outcome(s, Refused(ContactNotFound))
    else Outcome(s.(invitations := WithoutContact(s.invitations, k), contacts := s.contacts - {k}), Done)
  }

  // ---------------------------------------------------------------------------------------
  // Users, and runs of calls
  // ---------------------------------------------------------------------------------------

  predicate EmailTaken(users: map<UserId, User>, email: Option<string>) {
    email.Some? && email.value != "" && exists u | u in users :: users[u].email == email
  }

  /** Customers do not sign up; an e-mail address or a phone number is used once, by deleted users too. */
  function SignUp(s: Store, role: Role, phone: string, email: Option<string>): Outcome {
    if role == CUSTOMER then Outcome(s, Refused(Forbidden))
    else if EmailTaken(s.users, email) then Outcome(s, Refused(EmailExists))
    else if exists u | u in s.users :: s.users[u].phone == phone then Outcome(s, Refused(PhoneExists))
    else Outcome(AddUser(s, User(role, phone, email, false)), Done)
  }

  function MarkUser(s: Store, u: UserId, deleted: bool): Store {
    if u in s.users then s.(users := s.users[u := s.users[u].(deleted := deleted)]) else s
  }

  datatype Call =
    | SignUpCall(role: Role, phone: string, email: Option<string>)
    | MarkUserCall(user: UserId, deleted: bool)
    | LoginCall(phone: string, invitedBy: Option<UserId>, now: Time)
    | InviteSellerCall(customer: UserId, seller: UserId, now: Time)
    | AcceptInviteCall(id: InviteId, verb: InviteStatus, actor: UserId, pick: Option<ContactId>, now: Time)
    | CreateContactCall(seller: UserId, contactPhone: Option<string>, contactEmail: Option<string>, preset: Option<UserId>)
    | EditContactCall(contact: ContactId, status: ContactStatus, sent: bool, now: Time)
    | DeleteContactCall(contact: ContactId)

  /** The status edits that belong to the handshake; the others bypass it. */
  predicate HandshakeEdit(from: ContactStatus, to: ContactStatus) {
    match from
    case NEW => to == ContactStatus.NEW || to == ContactStatus.INVITED || to == ContactStatus.CANCELLED
    case INVITED => to == ContactStatus.INVITED || to == ContactStatus.CANCELLED
    case ACCEPTED => to == ContactStatus.ACCEPTED
    case _ => false
  }

  /** If the call looks the pair's contact up, `pick` is what an unordered lookup may return; the
      contact an invitation points at exists, as the foreign key demands. */
  predicate LookupOk(s: Store, id: InviteId, verb: InviteStatus, actor: UserId, pick: Option<ContactId>) {
    && (pick.Some? ==> pick.value in s.contacts)
    && (id in s.invitations ==>
          var row := s.invitations[id];
          && (row.contactId.Some? ==> row.contactId.value in s.contacts)
          && (row.inviteFor == ForSeller && verb == InviteStatus.ACCEPTED && actor == row.sellerId && LiveUser(s, actor)
              && CustomerOf(s.contacts, row).Some? ==>
                Picks(s.contacts, row.sellerId, CustomerOf(s.contacts, row).value, pick)))
  }

  /** What the environment keeps to. */
  predicate Legal(s: Store, call: Call) {
    match call
    case AcceptInviteCall(id, verb, actor, pick, _) => LookupOk(s, id, verb, actor, pick)
    case EditContactCall(k, status, _, _) => k in s.contacts ==> HandshakeEdit(s.contacts[k].status, status)
    case _ => true
  }

  ghost function Step(s: Store, call: Call): Outcome
    requires Legal(s, call)
  {
    match call
    case SignUpCall(role, phone, email) => SignUp(s, role, phone, email)
    case MarkUserCall(u, deleted) => Outcome(MarkUser(s, u, deleted), Done)
    case LoginCall(phone, seller, now) => Login(s, phone, seller, now)
    case InviteSellerCall(customer, seller, now) => InviteSeller(s, customer, seller, now)
    case AcceptInviteCall(id, verb, actor, pick, now) => AcceptInvite(s, id, verb, actor, pick, now)
    case CreateContactCall(seller, phone, email, user) => CreateContact(s, seller, phone, email, user)
    case EditContactCall(k, status, sent, now) => EditContact(s, k, status, sent, now)
    case DeleteContactCall(k) => DeleteContact(s, k)
  }

  /** `states` is a run: it starts with empty tables and each state follows by one legal call. */
  ghost predicate IsRun(states: seq<Store>, calls: seq<Call>) {
    && |states| == |calls| + 1
    && states[0] == EmptyStore
    && forall n {:trigger calls[n]} | 0 <= n < |calls| ::
         Legal(states[n], calls[n]) && states[n + 1] == Step(states[n], calls[n]).store
  }
}
