# Verified model of the seller/customer platform

This project models the parts of the back end whose correctness spans several calls, and proves
their properties for all inputs and all runs.

**The invitation handshake.** Sellers and customers become contacts of each other through
invitations. In the link flow a customer's acceptance turns a PENDING customer-invite into a request
and spawns a seller-invite, which the seller accepts or either side withdraws; in the contact flow a
seller invites a contact, which goes NEW, INVITED, ACCEPTED and may be cancelled, turned down and
invited again. A partial unique index over active rows can stop a call part way through, and
`acceptInvite` has no transaction, so what it wrote before stays.
`Schema` holds the rows and the index, `Protocol` what each call does to the tables (a transition
system with a history of the two parties' acts), `Invariant` the invariant and its preservation by
every call, `Theorems`, `Lockstep` and `ContactAgreement` the results, `Witnesses` concrete runs in which
the agreements are lost. `AnswerEffects` and `CallEffects` hold `Protocol` to what each call leaves
behind, told from the rows alone, and `ConsentByCalls` ties the acts of the history to the calls of
the run. `Database` is the
tables as a mutable object that remembers the state after every single write; `Services` carries out
the service methods on it, write by write in the order of the source, and proves two things of each:
after *every write*, also of a call that is then refused, each accepted contact has both sides'
consent behind it, and the whole call does what `Protocol` says.

**Chat.** `ChatLog` defines what each user sees of the shared message log, a window cut by the last
"delete chat" and by the own block, and relates the list rows, counts and conversation queries.
`ChatRuns` gives the effect of every operation and what runs of them do, `ChatViews` what single
operations change in whose view, `Broadcasts` the fan-out of a broadcast, and `ChatServices` the
services at work. `ChatEffects` and `BroadcastEffects` tell from the stored rows alone what is
shown, counted and written.

**One-time passwords.** `Otp` and `OtpSafety`: records, calls, the history of what was issued,
guessed and accepted, and safety over runs; `OtpEffects` what each call leaves behind and that the
code sent is the code accepted; `OtpService` the service.

**Smaller parts.** `Deduplication` (the migration in front of the unique index), `InviteSlug`,
`InviteLinks` and `Text` (the path of a seller's invite link), `PresignedUrls` (the URL cache of a
file), `GalleryPreview` (preview and total against the full list).

`dafny verify dfyconfig.toml` checks the whole project.

## Where the code and its intent part

- A customer who leaves a request with REJECTED instead of CANCELLED leaves the other half of it
  behind: the seller-invite stays PENDING and the seller can still accept it, or the request stays
  without an offer (`Separates` is the exact condition; `RejectedRequestCanBeAccepted`,
  `RejectionLeavesOrphanOffer`).
- A cold acceptance by a user who already has an active invitation of that seller is refused by the
  index at its last write, after the contact has been accepted (`ColdAcceptHitsIndexIff`).
- When a seller accepts a request while another contact of the same pair is INVITED, that contact stays
  INVITED with nothing pending. It takes contacts created with their user filled in (`Strands` is the
  exact condition; `StepKeepsAgreementIff`, `RunsAgreeIff`, `PresetContactIsStranded`).
- The roll-back of a REQUESTED contact-invite in `acceptInvite` is unreachable (`StatusTyping`).
- `Between` is inclusive while `MoreThan` and `LessThan` are strict, so a message that bears the very
  time of a deletion or a block shows when both are in force (`OnEdge`, `ConversationIsWindowIff`).
- Marking a chat read marks it for both parties (`MarkReadServesBoth`).
- The unread count pushed while a broadcast is created does not count the broadcast itself
  (`PushedCountLagsBehind`).
- A blocked `send_broadcast` stores nothing, unlike every other way of sending, so it alone makes a
  block followed by an unblock leave a trace (`BlockLeavesNoTraceIff`).
- The limit on resends and the check for locked codes never apply, and a lock-out does not delay the
  next code (`SendIssuesIff`, `JudgedIff`).
- `getThumbnailPresignedUrl` writes the expiry of the file's own URL, so expired URLs can be returned
  and thumbnails are never reused (`Misfires` says which calls get such a URL;
  `MixedRunsReturnUsableUrlsIff`, `ExpiredUrlIsReturned`, `ThumbnailsAreNeverReused`).
- A customer who has liked an image twice sees it twice in the full list (`TotalAgreesIff`,
  `PreviewAgreesIff`).

## Model

| member | source | states |
|---|---|---|
| `Invariant.RunsKeepInv` | src/auth/services/auth.service.ts:365-628 | In every state of every run of calls from empty tables, completed or refused part way, the tables satisfy the handshake invariant `Inv` |
| `Invariant.StepKeepsInv` | src/auth/services/auth.service.ts:365-628 | Each legal call (login, invite, answer, contact edit and deletion, sign-up) keeps `Inv`, also when it stops at a refused write |
| `Invariant.AcceptInviteKeepsInv` | src/auth/services/auth.service.ts:417-628 | Any answer by any user to any invitation keeps `Inv` |
| `Invariant.EditContactKeepsInv` | src/contacts/services/contact.service.ts:176-202 | A status edit of the handshake keeps `Inv`, whether or not the invitation message goes out |
| `Invariant.DeleteContactKeepsInv` | src/contacts/services/contact.service.ts:228-239 | Deleting a contact with its invitations keeps `Inv` |
| `Invariant.LoginKeepsInv` | src/auth/services/auth.service.ts:116-176 | A login, with the link invitation it may open, keeps `Inv` |
| `Invariant.AcceptedPairHasContact` | src/auth/services/auth.service.ts:573-606 | An ACCEPTED invitation of a pair implies that the pair has a contact |
| `Theorems.TwoSidedConsent` | src/auth/services/auth.service.ts:423-606 | A contact is ACCEPTED only if the history holds an act of each side in order: request then seller's acceptance, or seller's invitation then customer's acceptance |
| `Theorems.AcceptedInvitationIsSound` | src/auth/services/auth.service.ts:573-606 | Every ACCEPTED invitation points at an existing ACCEPTED contact of the same seller, whose user is set and is the invitation's customer when that is set |
| `Theorems.VerifiedRelationIsConsented` | src/invitations/services/invitation.service.ts:425-447 | If the relation check succeeds for two different users, they have an ACCEPTED contact to which both consented |
| `ConsentByCalls.AcceptedContactHasTwoCalls` | src/auth/services/auth.service.ts:423-606 | Behind an ACCEPTED contact stand two calls of the run itself, made in order by the two parties: the customer's acceptance of the link and the seller's acceptance of the invitation it spawned, or the seller's invitation and the customer's acceptance of that very row while PENDING |
| `ConsentByCalls.ActIsEarlierCall` | src/auth/services/auth.service.ts:365-628 | Every act that the history ascribes to a party is a call made by that party earlier in the run |
| `Theorems.StatusTyping` | src/auth/services/auth.service.ts:432-514 | Seller-invites are PENDING or ACCEPTED and have a contact exactly when ACCEPTED; link invitations are PENDING or REQUESTED; a contact's invitation is never REQUESTED, so the roll-back at lines 464-483 is unreachable |
| `ContactAgreement.StepKeepsAgreementIff` | src/auth/services/auth.service.ts:423-628 | One legal call keeps "every INVITED contact has a pending invitation" if and only if it is not an acceptance by the live seller that leaves another INVITED contact of the pair behind |
| `ContactAgreement.RunsAgreeIff` | src/contacts/services/contact.service.ts:176-202 | Contacts and invitations agree in every state of a run exactly when no call of it strands a contact so |
| `ContactAgreement.ContactInviteAgreement` | src/contacts/services/contact.service.ts:176-202 | Through any number of rounds of such a run a contact is INVITED exactly when one PENDING customer-invite points at it, and otherwise none does |
| `ContactAgreement.AtMostOnePending` | src/invitations/services/invitation.service.ts:146-179 | In every run, at most one PENDING invitation points at a contact, a customer-invite, and none at a contact that is not INVITED |
| `ContactAgreement.LeftBehindIsStranded` | src/auth/services/auth.service.ts:594-606 | The seller's acceptance removes the pending invitation of each INVITED contact of the pair that it does not take over |
| `ContactAgreement.PresetFreeRunsStrandNobody` | src/contacts/services/contact.service.ts:51-67 | A run in which no contact is created with its user strands nobody |
| `Theorems.EditKeepsInvariantIff` | src/contacts/services/contact.service.ts:166-202 | Of all status edits, exactly those of the handshake keep `Inv`, plus INVITED to NEW when nothing is pending |
| `Theorems.RunsHaveNoPresets` | src/contacts/services/contact.service.ts:51-67 | Unless a contact is created with its user, a contact has a user only once it is ACCEPTED |
| `Witnesses.PresetContactIsStranded` | src/contacts/services/contact.service.ts:51-67 | A concrete run with contacts created with their user strands one: INVITED, and nothing pending |
| `Lockstep.StepKeepsLockstepIff` | src/auth/services/auth.service.ts:488-627 | One legal call keeps "REQUESTED customer-invite exactly when PENDING seller-invite" for all pairs if and only if it is not a customer's REJECTED on a requested handshake |
| `Lockstep.RunsKeepLockstep` | src/auth/services/auth.service.ts:488-627 | On every run without such a REJECTED the two rows are in step after each call |
| `Lockstep.AcceptedLeavesNoLink` | src/auth/services/auth.service.ts:594-606 | A pair with an ACCEPTED seller-invite has no link invitation |
| `Witnesses.RejectionLeavesOrphanOffer` | src/auth/services/auth.service.ts:538-551 | A concrete run in which a customer's REJECTED leaves a PENDING seller-invite without a request |
| `Theorems.RejectedRequestCanBeAccepted` | src/auth/services/auth.service.ts:515-541 | After a customer's REJECTED on a request the seller can still accept it, and the pair then has an ACCEPTED contact |
| `Theorems.OfferCanBeAccepted` | src/auth/services/auth.service.ts:569-606 | A PENDING seller-invite can be accepted whatever became of the link invitation |
| `Theorems.CancelledRequestCannotBeAccepted` | src/auth/services/auth.service.ts:519-537 | After a customer's CANCELLED the seller-invite is gone and the seller's acceptance is refused |
| `Theorems.WithdrawalUndoesRequest` | src/auth/services/auth.service.ts:488-627 | After a request, all four ways of withdrawing it give back the very users, contacts and invitations there were before |
| `Theorems.RequestUndone` | src/auth/services/auth.service.ts:519-565 | Both ways of undoing a request restore the whole invitation table, row by row |
| `AnswerEffects.DecliningStartsOver` | src/auth/services/auth.service.ts:866-891 | REJECTED or CANCELLED on a PENDING contact-invite, by its customer or by a live customer it does not know yet: that status on the row, the time with REJECTED only, the contact NEW without user, all else unchanged, Done |
| `AnswerEffects.AcceptingTakesContact` | src/auth/services/auth.service.ts:806-824 | ACCEPTED on a PENDING contact-invite: the row ACCEPTED with the time and the customer's id, the contact ACCEPTED with the customer as user, all else unchanged; only the id is refused, when the customer has an active customer-invite of the seller |
| `AnswerEffects.WithdrawingLater` | src/auth/services/auth.service.ts:447-487 | Withdrawing from a contact-invite that is no longer PENDING removes the row, or takes a request back; a customer it does not know is refused |
| `AnswerEffects.AcceptingLinkRequests` | src/auth/services/auth.service.ts:488-514 | ACCEPTED on a link: the row REQUESTED, and one PENDING seller-invite of the same type added unless the pair has an active one |
| `AnswerEffects.WithdrawingFromLink` | src/auth/services/auth.service.ts:515-541 | CANCELLED on a request puts it back to PENDING and removes the seller-invites of the pair; every other withdrawal removes the row |
| `AnswerEffects.WithdrawingOffer` | src/auth/services/auth.service.ts:544-572 | The seller-invite is removed, and the request of the pair is PENDING again unless the customer leaves with REJECTED |
| `AnswerEffects.AcceptingOfferTakesOver` | src/auth/services/auth.service.ts:573-606 | The seller's acceptance takes over the contact found, removes the customer-invites of the pair and points the seller-invite at the contact |
| `AnswerEffects.AcceptingOfferCreates` | src/auth/services/auth.service.ts:573-606 | Without a contact of the pair one is created ACCEPTED with the phone and e-mail of the customer's live account, or refused exactly when the seller has a contact with either |
| `AnswerEffects.AnswersWithoutEffect` | src/auth/services/auth.service.ts:365-421 | The answers that change nothing, each with its reply |
| `CallEffects.LoginOpensLink` | src/auth/services/auth.service.ts:129-169 | After a known customer's login through a seller's link the pair has a contact or an open invitation; if it had neither, exactly one row was added, PENDING, LINK, for the customer, with that time; otherwise nothing changed |
| `CallEffects.FirstLoginOpensLink` | src/auth/services/auth.service.ts:101-169 | The same for a phone number not known yet, after the customer has been added |
| `CallEffects.InvitingASeller` | src/auth/services/auth.service.ts:277-330 | After the guards, in order, a PENDING invitation of the pair is kept or one is added, unless the index forbids it |
| `CallEffects.InvitingAContact` | src/contacts/services/contact.service.ts:176-186 | NEW to INVITED stores one PENDING customer-invite of the contact once the message has gone out by phone or e-mail |
| `CallEffects.CancellingAContact` | src/invitations/services/invitation.service.ts:146-179 | INVITED to CANCELLED closes the pending invitation with the time and makes the contact NEW |
| `CallEffects.DeletingAContact` | src/contacts/services/contact.service.ts:228-239 | The contact is gone with exactly the invitations that point at it |
| `CallEffects.CreatingAContact` | src/contacts/services/contact.service.ts:51-67 | A contact is added as given, NEW, or refused exactly when a user is unknown or the seller has one with its phone or e-mail |
| `Theorems.PairRowConflicts` | src/database/migrations/1714000000029-PreventDuplicateActivePairInvitations.ts:26-31 | A fresh row is refused by the index exactly when its pair has an active row of that kind |
| `Theorems.LoginNeverHitsIndex` | src/auth/services/auth.service.ts:143-169 | The insert in `login` never hits the index |
| `Theorems.RequestNeverHitsIndex` | src/auth/services/auth.service.ts:488-514 | Neither the change to REQUESTED nor the seller-invite it spawns hits the index |
| `Theorems.InviteSellerHitsIndexIff` | src/auth/services/auth.service.ts:304-330 | The insert in `inviteSeller` hits the index exactly when the pair, without a contact, has a REQUESTED invitation |
| `Theorems.ColdAcceptHitsIndexIff` | src/auth/services/auth.service.ts:806-824 | A cold acceptance is cut short by the index exactly when its user already has an active invitation of the seller; the contact is ACCEPTED all the same |
| `Deduplication.DeduplicationKeepsExactly` | src/database/migrations/1714000000029-PreventDuplicateActivePairInvitations.ts:8-31 | The migration keeps an active row exactly when it is the greatest of its pair by (created_at, id), all other rows unchanged, and the index can then be created |
| `Deduplication.NewestWins` | src/database/migrations/1714000000029-PreventDuplicateActivePairInvitations.ts:8-24 | Told from the columns: a row is deleted exactly when it names a customer, is PENDING, REQUESTED or ACCEPTED, and another such row of its seller, customer and recipient has no time, a later one, or the same time and a higher id |
| `Deduplication.PairSurvives` | src/database/migrations/1714000000029-PreventDuplicateActivePairInvitations.ts:8-24 | Every active row leaves behind a survivor of its pair that ranks no later |
| `Deduplication.FirstIsGreatest` | src/database/migrations/1714000000029-PreventDuplicateActivePairInvitations.ts:10-18 | ROW_NUMBER is one exactly for the greatest row of the partition |
| `Deduplication.DeduplicationChangesNothingIff` | src/database/migrations/1714000000029-PreventDuplicateActivePairInvitations.ts:8-31 | The migration changes nothing exactly when the index could already be created; running it twice is running it once |
| `Database.Tables.InsertInvitation` | src/database/migrations/1714000000029-PreventDuplicateActivePairInvitations.ts:26-31 | Storing a row succeeds unless the seller or the index forbids it; the tables stand in good order after the write, with both sides' consent behind every accepted contact |
| `Database.Tables.SaveInvitation` | src/database/migrations/1714000000029-PreventDuplicateActivePairInvitations.ts:26-31 | Updating a row is refused exactly when the index forbids it |
| `Database.WriteInvitationStands` | src/database/migrations/1714000000029-PreventDuplicateActivePairInvitations.ts:26-31 | One written invitation row keeps the constraints and the consent behind every contact |
| `Database.WriteContactStands` | src/auth/services/auth.service.ts:573-592 | One written contact row keeps them too |
| `Services.AuthService.AcceptInvite` | src/auth/services/auth.service.ts:365-628 | The calls and writes of `acceptInvite` in source order: each intermediate state stands, and the whole equals the specification, reply included; what each answer leaves behind is told row by row in `AnswerEffects` |
| `Services.AuthService.AcceptColdContactCustomerInvite` | src/auth/services/auth.service.ts:796-894 | Answer by a user the contact does not know yet, including the stop at the last write; its effects are those of `DecliningStartsOver`, `AcceptingTakesContact` and `WithdrawingLater` |
| `Services.AuthService.CustomerAnswersContactInvite` | src/auth/services/auth.service.ts:424-487 | The customer's answer to a contact's invitation, the roll-back of a REQUESTED one included |
| `Services.AuthService.CustomerAnswersLink` | src/auth/services/auth.service.ts:488-541 | The customer's answer to a link invitation |
| `Services.AuthService.RequestLink` | src/auth/services/auth.service.ts:488-514 | ACCEPTED on a link invitation: REQUESTED, and a seller-invite unless there is an active one |
| `Services.AuthService.CustomerWithdrawsSellerInvite` | src/auth/services/auth.service.ts:544-566 | A customer's withdrawal of a seller-invite; only CANCELLED restores the request |
| `Services.AuthService.ParticipantAnswersSellerInvite` | src/auth/services/auth.service.ts:544-628 | A seller-invite answered by its customer, its seller, or a user who is both |
| `Services.AuthService.SellerTakesContact` | src/auth/services/auth.service.ts:573-606 | The seller's acceptance: contact, then invitation, then removal of the customer-invites |
| `Services.AuthService.AcceptContactInvitation` | src/auth/services/auth.service.ts:425-446 | ACCEPTED on a contact's invitation: status, contact, then the customer id, which the index may refuse |
| `Services.AuthService.EnsureLinkInvitation` | src/auth/services/auth.service.ts:129-169 | A link invitation is opened exactly when the pair has neither a contact nor an open invitation by id or phone |
| `Services.AuthService.Login` | src/auth/services/auth.service.ts:101-176 | The customer's login and its effect on users and invitations, which `LoginOpensLink`, `FirstLoginOpensLink` and `PlainLogin` tell row by row |
| `Services.AuthService.InviteSeller` | src/auth/services/auth.service.ts:277-330 | The guards in order and the insert, with the effect told by `InvitingASeller` |
| `Services.InvitationService.CreateInvitation` | src/invitations/services/invitation.service.ts:69-98 | The row is stored only after the message went out |
| `Services.InvitationService.CreateInvitationForCustomer` | src/invitations/services/invitation.service.ts:116-134 | A PENDING row for a pair, or the refusal by key or index |
| `Services.InvitationService.CancelInvitation` | src/invitations/services/invitation.service.ts:146-179 | Closes the contact's pending invitation and makes the contact NEW; not found exactly when none is pending |
| `Services.InvitationService.UpdateInvitationStatusById` | src/invitations/services/invitation.service.ts:573-617 | The status and its timestamp, refused exactly when the index forbids it |
| `Services.InvitationService.DeleteInvitationsByContactId` | src/invitations/services/invitation.service.ts:619-621 | Removes exactly the invitations of the contact |
| `Services.InvitationService.GetInvitationsByCustomerId` | src/invitations/services/invitation.service.ts:346-362 | Exactly the open customer-invites of the customer |
| `Services.InvitationService.GetInvitationByNumber` | src/invitations/services/invitation.service.ts:274-299 | Exactly the open invitations of contacts with the number and the open customer-invites of the user with it |
| `Services.InvitationService.VerifyCustomerSellerRelation` | src/invitations/services/invitation.service.ts:425-447 | Success for two different users means, even between two writes of a call, an ACCEPTED contact of both with the consent of both behind it |
| `Services.RelationStandsOnConsent` | src/invitations/services/invitation.service.ts:425-447 | The relation check is sound on any tables in good standing, not only in states of complete runs |
| `Services.ContactService.UpdateStatus` | src/contacts/services/contact.service.ts:166-202 | Any status edit that neither makes nor undoes an acceptance, with the creation or cancellation of the invitation it drives |
| `Services.ContactService.Delete` | src/contacts/services/contact.service.ts:228-239 | Invitations first, then the contact |
| `Services.ContactService.FindBySellerAndCustomer` | src/contacts/services/contact.service.ts:326-328 | Some contact of the pair if there is one |
| `ChatLog.RowAgreesWithConversation` | src/chat/chat.service.ts:376-439 | A contact is listed exactly when the user's conversation is not empty; its unread count is that of the conversation, which by `UnreadSeenIsCounted` holds the other party's messages only; its last message has the conversation's latest time and is its last element when times differ |
| `ChatLog.CountWhereIsCountOfSelection` | src/chat/chat.service.ts:405-413 | The count query agrees with counting among the selected messages; `UnreadSeenIsCounted` says which messages those are |
| `ChatLog.PushedCountAgrees` | src/chat/chat.gateway.ts:369-401 | The unread count pushed to a receiver who does not block the sender is the count of the receiver's own conversation; `PushedCountIs` says which messages it counts |
| `ChatEffects.UnreadSeenIsCounted` | src/chat/chat.service.ts:395-413 | The unread count of a row is the number of positions in the log that hold a message of the contact from the other party, not deleted, not read, later than the user's deletions and before the user's block |
| `ChatEffects.PushedCountIs` | src/chat/chat.gateway.ts:369-399 | The pushed count is the number of positions with a message of the contact from the sender, not deleted, not read, later than the receiver's deletions |
| `ChatEffects.RowSays` | src/chat/chat.service.ts:376-439 | A list row in terms of stored messages: its count, one of the newest messages seen, and the user's own block |
| `ChatEffects.ListedIff` | src/chat/chat.service.ts:339-405 | A contact is listed exactly when the user is one end of it, both ends are live and something can be seen |
| `ChatEffects.ConversationIs` | src/chat/chat.service.ts:96-138 | A conversation holds exactly the messages its user sees, each as often as stored, oldest first |
| `ChatEffects.SendingKeepsOwnUnread` | src/chat/chat.service.ts:395-399 | Sending leaves the sender's own unread count as it was |
| `ChatEffects.SendingRaisesUnread` | src/chat/chat.service.ts:395-399 | Sending raises the unread count of a receiver who does not block the sender by the number of messages stored |
| `ChatEffects.ComposeSays` | src/chat/chat.gateway.ts:211-249 | What one sending stores: per file one message with that file, its kind by MIME type, the text and its time, or one message with the given kind and text; all unread |
| `ChatEffects.SendingStores` | src/chat/chat.gateway.ts:182-249 | Exactly who may send, and that nothing else changes |
| `ChatEffects.RelayingStores` | src/chat/chat.gateway.ts:456-513 | Exactly when one contact of `send_broadcast` gets its messages, tagged with the broadcast |
| `ChatLog.ConversationIsWindowIff` | src/chat/chat.service.ts:96-138 | A conversation is exactly the messages strictly after the last deletion and strictly before the own block, if and only if no message bears the time of either while both are in force |
| `ChatLog.InConversation` | src/chat/chat.service.ts:107-138 | A message is shown exactly when it is in the log, of the contact, not deleted, and meets the user's condition |
| `ChatLog.OrderedByTime` | src/chat/chat.service.ts:131-135 | The conversation is the selected messages, oldest first |
| `ChatViews.OtherViewsStay` | src/chat/chat.service.ts:777-780 | A block, an unblock or a deletion changes the view of its user on that chat only |
| `ChatViews.BlockFreezesView` | src/chat/chat.service.ts:96-138 | While a block lasts, no message, relayed or new broadcast stored after it changes the blocker's view of the chat |
| `ChatViews.OthersSeeWhatIsSent` | src/chat/chat.service.ts:96-138 | The view of anybody who has not blocked the other party gains, over such a run, exactly the messages stored for the chat |
| `ChatViews.BlockCutsViewIff` | src/blocks/blocks.service.ts:26-39 | At its instant a block leaves the blocker exactly the part of the view before its time, if and only if no message sits on an edge of the window |
| `ChatViews.DeleteEmptiesViewIff` | src/chat/chat.service.ts:773-780 | "Delete chat" empties the own view if and only if no message bears the time of the deletion while a block is in force |
| `ChatViews.MarkReadServesBoth` | src/chat/chat.service.ts:814-825 | Marking a chat read leaves nothing unread for either party, shows both the same messages, and leaves other chats alone |
| `ChatViews.WipeEmptiesForAll` | src/chat/chat.service.ts:623-625 | Soft-deleting a chat empties it for every user and leaves other chats alone |
| `ChatRuns.BlockLeavesNoTraceIff` | src/blocks/blocks.service.ts:26-39 | Block, any run of operations, unblock: the data are those of the run alone, messages sent meanwhile included, if and only if no broadcast between the two was relayed meanwhile |
| `ChatRuns.TwinsRun` | src/chat/chat.gateway.ts:265-339 | Along any run the blocked and the unblocked history differ in the block only, until a relayed broadcast is held back |
| `ChatServices.ChatService.SendMessage` | src/chat/chat.gateway.ts:182-344 | Guards, storing whatever the blocks, and one event per message with the receiver's own unread count unless the receiver blocks the sender |
| `ChatServices.ChatService.RelayBroadcast` | src/chat/chat.gateway.ts:456-577 | One contact of `send_broadcast`: stored exactly when neither blocks the other, each message announced to a connected receiver with the count at that moment |
| `ChatServices.AnnouncedIsOwnCount` | src/chat/chat.gateway.ts:502-583 | That count is the unread count of the receiver's own conversation when the sender is a party of the chat |
| `ChatServices.ChatService.ListChats` | src/chat/chat.service.ts:339-442 | The loop over the contacts yields one row for each contact with something to see, in order; `RowSays` and `ListedIff` tell the rows from the stored messages |
| `ChatServices.ChatService.MarkAllMessagesRead` | src/chat/chat.service.ts:814-825 | Marks exactly the contact's unread messages |
| `Broadcasts.BroadcastStoresExactly` | src/chat/chat.service.ts:163-323 | A completed broadcast stores per contact one message per file and one for a text that is not blank, all tagged with a new id, and nothing else; `BroadcastSays` gives their contents |
| `BroadcastEffects.BroadcastSays` | src/chat/chat.service.ts:192-226 | Per contact the new messages are, in order, one per file with that file's id, the kind its MIME type demands and no content, then, if the text has something other than white space, one TEXT with exactly that content and no file; all unread, with the broadcast's tag and time |
| `BroadcastEffects.CreatedIff` | src/chat/chat.service.ts:140-179 | A broadcast is created exactly when its sender is live, every contact names a customer and no two name the same one |
| `BroadcastEffects.CreateLeaves` | src/chat/chat.service.ts:140-190 | The broadcast with its seller, one row per customer named, the next id, and nothing else beside its messages |
| `BroadcastEffects.ContactIdsAre` | src/chat/chat.service.ts:789-813 | The contacts of a broadcast are those that tie its seller, in either role, to one of its recipients |
| `Text.TrimIsEmptyIff` | src/chat/chat.service.ts:216 | The text counts as blank exactly when it is white space throughout |
| `Broadcasts.BroadcastRoundTripIff` | src/chat/chat.service.ts:789-813 | The contacts written to are all reached again, and no others, exactly under conditions on the contacts checkable before the call |
| `Broadcasts.BroadcastRoundTrip` | src/chat/chat.service.ts:789-813 | For contacts of the sender the ids returned include all contacts written to, and are exactly those when each pair has one contact |
| `Broadcasts.RunKeepsBroadcastContacts` | src/chat/chat.service.ts:789-813 | No later operation changes a broadcast's contacts |
| `Broadcasts.PushedCountLagsBehind` | src/chat/chat.service.ts:228-266 | The count pushed during creation is read outside the transaction: it is below the receiver's own count by the broadcast's messages to them |
| `ChatServices.DeliveredOnceInOrder` | src/chat/chat.service.ts:234-266 | Each message whose chat has a connected user at the other end, with no block either way, is delivered to them once, in order, with the pushed count, and no other message is |
| `ChatServices.AnnouncementsAre` | src/chat/chat.gateway.ts:502-525 | A relayed broadcast is announced message by message, in order, each with the count once its message and those before it are stored |
| `ChatServices.ChatService.CreateNewBroadcast` | src/chat/chat.service.ts:140-337 | The transaction step by step: all rows or, when a recipient is missing or doubled, none; and the events sent; `BroadcastSays` and `CreateLeaves` tell what is then in the tables |
| `ChatServices.ChatService.StoreRecipients` | src/chat/chat.service.ts:167-179 | Succeeds exactly when every contact names a customer and no two name the same one |
| `ChatServices.ChatService.SendToAll` | src/chat/chat.service.ts:192-323 | The nested loops store the fan-out, whose messages `BroadcastSays` describes one by one, and emit its deliveries |
| `OtpSafety.RunsKeepInv` | src/common/services/twilio.service.ts:66-232 | In every run: at most one PENDING record per phone and purpose; locked, BLOCKED and five failures coincide; `resend_count` is 1; the history explains every record and is safe |
| `OtpSafety.AcceptedOnceInTimeAndNewest` | src/common/services/twilio.service.ts:176-232 | What is accepted is the code of an `Issued` event of the same phone and purpose: once, at most 90 s after it was made, with no later code for its key and fewer than five wrong guesses before |
| `OtpSafety.AcceptedGuessIsTheCode` | src/common/services/twilio.service.ts:206-232 | Only the code on record is accepted, and only as the pending one of its key; `SentCodeIsAccepted` ties it to the code sent |
| `OtpSafety.AcceptableIff` | src/common/services/twilio.service.ts:176-232 | In every run, from the history alone: a guess would be accepted exactly when it is the code issued, in time, and nothing has ended that code |
| `OtpEffects.SentCodeIsAccepted` | src/common/services/twilio.service.ts:115-232 | After a send or resend that issues a code, with no other call on its key since, a guess is VALID exactly when it is that code and comes within 90 s of the stamp, INVALID_OTP for another code in that time, EXPIRED_OTP later |
| `OtpEffects.SendingStores` | src/common/services/twilio.service.ts:107-137 | A send is refused exactly within the minute after a pending code; otherwise the record holds the code sent, PENDING for 90 s, the pending ones of the key are EXPIRED, and nothing else changes |
| `OtpEffects.ResendingStores` | src/common/services/twilio.service.ts:245-287 | The same for a resend, which also needs a pending code |
| `OtpEffects.GuessingLeaves` | src/common/services/twilio.service.ts:201-230 | A guess changes the pending record of its key alone: expired, used up with its time, one failure more, or blocked with its time at the fifth |
| `OtpSafety.WrongGuessesAreBounded` | src/common/services/twilio.service.ts:206-223 | Per phone and purpose, wrong guesses never exceed five times the codes issued |
| `OtpSafety.IssuesAreSpaced` | src/common/services/twilio.service.ts:79-104 | While a code can still be accepted, the next one comes at least 60 000 ms later, minutes being truncated |
| `OtpSafety.SettledForGoodInRuns` | src/common/services/twilio.service.ts:201-230 | A record that has left PENDING never changes again |
| `OtpSafety.SendIssuesIff` | src/common/services/twilio.service.ts:79-137 | A code is issued exactly when none is pending or the pending one is a minute old; the resend limit never applies |
| `OtpSafety.JudgedIff` | src/common/services/twilio.service.ts:184-232 | Exactly when a guess is accepted or locks the code; the check for locked records never decides |
| `OtpService.TwilioService.SendOtp` | src/common/services/twilio.service.ts:107-174 | The record is stored before the message goes out; the answer carries the code that `SendingStores` says is on record |
| `OtpService.TwilioService.VerifyOtp` | src/common/services/twilio.service.ts:176-232 | Lookup, lock, expiry, code, in that order; answer and record of each case are told by `GuessingLeaves` |
| `OtpService.TwilioService.ResendOtp` | src/common/services/twilio.service.ts:245-287 | Refused without a pending code or within the minute; the second check inside always passes; what is stored is told by `ResendingStores` |
| `OtpService.TwilioService.CheckResendEligibility` | src/common/services/twilio.service.ts:79-105 | The only refusal there is the cool-down |
| `InviteSlug.SlugJoinsRuns` | src/users/services/user.service.ts:497-501 | The slug of any text is its runs of letters and digits, in lower case, joined by single hyphens; the initial trim makes no difference |
| `InviteSlug.SlugKeepsLetters` | src/users/services/user.service.ts:497-501 | Hyphens aside, the slug is the letters and digits of the text in order, capitals as small letters, and nothing else |
| `InviteSlug.WordsStay` | src/users/services/user.service.ts:500 | The replacement copies small letters and digits |
| `InviteSlug.StretchesBecomeHyphens` | src/users/services/user.service.ts:500 | It puts one hyphen for each maximal stretch of other characters |
| `InviteSlug.EndsAreStripped` | src/users/services/user.service.ts:501 | The last replacement removes all hyphens at either end and no others |
| `InviteSlug.SlugIsFixedIff` | src/users/services/user.service.ts:497-501 | Every result is a slug, a text is left as it is exactly when it is one, and normalising twice is normalising once |
| `InviteSlug.SlugsCollideIff` | src/users/services/user.service.ts:497-507 | Two texts get the same slug exactly when their runs agree; a text is refused exactly when it has none |
| `InviteSlug.CollapseIsOutline` | src/users/services/user.service.ts:500 | The replacement leaves the joined runs with at most a hyphen at either end |
| `InviteLinks.UserService.UpdateInviteUrlForSeller` | src/users/services/user.service.ts:478-523 | The slug is stored exactly when a live seller asks for one with a letter or digit in it that no other user has; each refusal in its case; all stored paths stay distinct |
| `PresignedUrls.MainRunsStayHonest` | src/files/services/file.service.ts:126-152 | After any calls with positive lifetimes the recorded expiry is within the true one, and the URL returned is just signed or good for more than ten minutes |
| `PresignedUrls.RecordIsHonestIff` | src/files/services/file.service.ts:146-150 | The record is within the true expiry exactly when the lifetime is positive |
| `PresignedUrls.CallsAre` | src/files/services/file.service.ts:126-152 | Both calls in numbers: 600 000 ms of margin, an hour by default, 750 ms on record for each second of lifetime |
| `PresignedUrls.MixedRunsReturnUsableUrlsIff` | src/files/services/file.service.ts:126-152 | With thumbnails, every URL of the file returned in a run is just signed or good for more than ten minutes, exactly when no call comes after the true expiry of the URL last signed less ten minutes and before the expiry last put on record less ten minutes (`Misfires`, told from the times and lifetimes of the calls) |
| `PresignedUrls.MisfiresFollowThumbnails` | src/files/services/file.service.ts:248-252 | With positive lifetimes it is always a thumbnail call that put such an expiry on record |
| `PresignedUrls.ReadyIffHonest` | src/files/services/file.service.ts:137-143 | A row gives out usable URLs only, whatever the next call and its time, exactly when the recorded expiry is within the true one |
| `PresignedUrls.MixedRunsStayReadyIff` | src/files/services/file.service.ts:229-253 | It is so at every step of a run exactly when no thumbnail call signs beyond the file's own URL |
| `PresignedUrls.ExpiredUrlIsReturned` | src/files/services/file.service.ts:251 | A run in which the file's URL is returned after it has expired |
| `PresignedUrls.ThumbnailsAreNeverReused` | src/files/services/file.service.ts:241-251 | The thumbnail's expiry is never written, so each call signs anew |
| `PresignedUrls.CorrectedRunsStayHonest` | src/files/services/file.service.ts:229-253 | With the expiry in the field that is checked, any mix of calls returns usable URLs of both kinds |
| `PresignedUrls.FileService.GetPresignedUrl` | src/files/services/file.service.ts:126-152 | Field by field |
| `PresignedUrls.FileService.GetThumbnailPresignedUrl` | src/files/services/file.service.ts:229-254 | Field by field, as written |
| `GalleryPreview.PreviewAgreesIff` | src/galleries/gallery.service.ts:163-178 | For images with different times, the preview is the first min(3, n) of the customer's full list exactly when neither of the two newest visible images is liked twice |
| `GalleryPreview.TotalAgreesIff` | src/galleries/gallery.service.ts:180-192 | The total, missing counted as 0, is the length of the full list exactly when no visible image is liked twice |
| `GalleryPreview.VisibleAre` | src/gallery-image/repository/gallery-image.repository.ts:25-43 | Which images of the table are visible to the customer, and how often |
| `GalleryPreview.FullListIs` | src/gallery-image/repository/gallery-image.repository.ts:25-53 | The full list has each visible image once per like, marked as liked, or once unmarked without one, newest first |
| `GalleryPreview.PreviewIs` | src/galleries/gallery.service.ts:149-178 | The preview is the three newest visible images, or all of them, each once, newest first, marked exactly when liked |
| `GalleryPreview.TotalIs` | src/galleries/gallery.service.ts:180-192 | There is a total exactly when the seller has an undeleted image there; it is the number of visible images |
| `GalleryPreview.NumberedUpToThree` | src/galleries/gallery.service.ts:167-177 | Numbering the partition and keeping up to three gives the first three in order |
| `GalleryPreview.FirstThreeIff` | src/gallery-image/repository/gallery-image.repository.ts:25-53 | The first three joined rows show the first three images unless one of the first two has rows to spare |

## Left out

- Interleaving: calls run one after the other, as the guards of the handshake assume; concurrent calls are not modelled, only calls that stop after any of their writes.
- Environment of the handshake: invitation tokens do not occur; a contact is created NEW, and its status is edited only as `HandshakeEdit` allows (`EditKeepsInvariantIff` says exactly which other edits would be safe); `Services` creates contacts without a user, `Protocol` with or without.
- `acceptInvitation` and `updateInvitationStatusByToken` of the invitation service: nothing calls them.
- Return payloads, pushes, e-mails, SMS texts, sockets, tokens and logging; a message that may fail to go out is a parameter.
- Columns that no branch reads: invite token, method, sent-at, names, pictures, `updated_at`.
- Unordered `findOne` lookups may return any matching row: in the answers of the handshake the row found is the parameter `pick`, over which everything is proved.
- Ids and times are unbounded integers; conversions between bigint, number and string are not modelled.
- Services.ContactService.UpdateStatus: edits that make or undo an acceptance are outside its precondition, because they void the consent behind the contact (`EditKeepsInvariantIff` shows that none of them keeps `Inv`); edits of other columns are not modelled. The transaction opened around it has no effect, because the writes do not go through it, so none is modelled.
- Services.InvitationService.CancelInvitation: not for ACCEPTED contacts, whose status it would take back while their user stays; its one caller asks for INVITED contacts only.
- Services.ContactService.Create: a status other than NEW and a user filled in are left to `Protocol`, which has the user.
- InviteLinks.UserService.UpdateInviteUrlForSeller: the general user update can store an `invite_url` that is not normalised; it is not modelled.
- Services.AuthService.AcceptInvite: equality with the specification is stated for tables that satisfy `Inv`; good standing after every write holds for all tables in good standing.
- Chat: a conversation asked for under a contact that does not exist; soft-deleted broadcasts; the broadcast rows and the sorting by last message in the bulk list; typing and presence events.
- ChatLog.RowAgreesWithConversation: among messages of the same time the row may show any of the latest, as ORDER BY with LIMIT 1 leaves it open.
- ChatServices.ChatService.ListChats: the contacts come in the order of the table, which stands for `updated_at` descending.
- ChatServices.ChatService.RelayBroadcast: one contact at a time; the source handles the contacts of a broadcast in parallel.
- Files uploaded by a broadcast that is rolled back stay in the store; the store is not modelled.
- OtpService.TwilioService.VerifyOtp: one clock reading per call; the source takes a new one for the time of lock or verification.
- PresignedUrls.FileService.GetPresignedUrl: the URL is signed at the instant the call started, in whole milliseconds.
- InviteSlug.SlugJoinsRuns: `toLowerCase` is modelled for the characters whose lower case falls into a-z or 0-9; other characters separate runs whatever their case.
- GalleryPreview.PreviewAgreesIff: images created at the same instant, whose row numbers the database may assign in any order, are excluded by a precondition.
- GalleryPreview: the blocked and relation checks in front of the gallery list, presigned URLs of its images.
- Likes, preferences, device tokens, presence, reports, orders of seeds, other migrations, and plain create, read, update and delete services: easy members that would add no property across calls.
