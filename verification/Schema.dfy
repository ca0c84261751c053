/**
 The rows behind the invitation handshake: users, contacts and contact invitations, with the
 constraints that the database itself enforces on them.  Timestamps are integers
 (milliseconds); ids are natural numbers handed out in increasing order.
 */
module Schema {
  import opened Wrappers

  type UserId = nat
  type ContactId = nat
  type InviteId = nat
  type Time = int

  datatype Role = CUSTOMER | SELLER | ADMIN

  datatype User = User(role: Role, phone: string, email: Option<string>, deleted: bool)

  datatype ContactStatus = NEW | INVITED | ACCEPTED | REJECTED | CANCELLED

  datatype Contact = Contact(
    sellerId: UserId,
    invitedUserId: Option<UserId>,
    phone: Option<string>,
    email: Option<string>,
    status: ContactStatus)

  datatype InviteStatus = PENDING | REQUESTED | ACCEPTED | CANCELLED | REJECTED

  /** Which party is asked to answer the invitation (column invite_for). */
  datatype Recipient = ForCustomer | ForSeller

  datatype InviteType = LINK | NORMAL

  datatype Invitation = Invitation(
    sellerId: UserId,
    customerId: Option<UserId>,
    contactId: Option<ContactId>,
    inviteFor: Recipient,
    inviteType: InviteType,
    status: InviteStatus,
    acceptedAt: Option<Time>,
    cancelledAt: Option<Time>,
    createdAt: Option<Time>)

  type Invitations = map<InviteId, Invitation>

  // ---------------------------------------------------------------------------------------
  // The partial unique index over active (seller, customer, invite_for) rows
  // ---------------------------------------------------------------------------------------

  /** The rows that the partial index covers. */
  predicate Active(row: Invitation) {
    && row.customerId.Some?
    && (row.status == InviteStatus.PENDING || row.status == InviteStatus.REQUESTED || row.status == InviteStatus.ACCEPTED)
  }

  predicate SamePair(a: Invitation, b: Invitation) {
    a.sellerId == b.sellerId && a.customerId == b.customerId && a.inviteFor == b.inviteFor
  }

  /** Two rows that the index does not let stand side by side. */
  predicate Clash(a: Invitation, b: Invitation) {
    Active(a) && Active(b) && SamePair(a, b)
  }

  ghost predicate UniqueActivePairs(invs: Invitations) {
    forall i, j | i in invs && j in invs && i != j :: !Clash(invs[i], invs[j])
  }

  /** Would storing `row` under `id` be refused by the index? */
  predicate Conflicts(invs: Invitations, id: InviteId, row: Invitation) {
    exists j | j in invs :: j != id && Clash(row, invs[j])
  }

  // ---------------------------------------------------------------------------------------
  // Uniqueness of phone and e-mail among one seller's contacts
  // ---------------------------------------------------------------------------------------

  predicate SameKey(a: Option<string>, b: Option<string>) {
    a.Some? && a == b
  }

  predicate ContactClash(a: Contact, b: Contact) {
    a.sellerId == b.sellerId && (SameKey(a.phone, b.phone) || SameKey(a.email, b.email))
  }

  predicate ContactConflicts(contacts: map<ContactId, Contact>, row: Contact) {
    exists k | k in contacts :: ContactClash(row, contacts[k])
  }
}
