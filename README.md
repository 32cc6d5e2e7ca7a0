# Civitas committee core, modelled in Dafny

Civitas runs ROSCA savings circles, called *committees*. Each member pays a fixed monthly amount. Each cycle, one member, chosen in payout-position order, receives the whole pot. This project models the platform's domain layer:

- **Store.** The in-memory store of `DatabaseManager` holds users, committees, memberships and invitations. It covers create, join, position lookup, browse, settings, delete, invite and respond.
- **Trust score.** A base of 50, plus a payment part, a completion part and a tenure part, clamped to 0..100. Around it sit the score bands, the recommendation list and the +1/−3 adjustment after a payment.
- **Calendars.** The contribution and payout calendars, and the dashboard's payout offsets and queue.
- **Filters and validation.** The browse filters and orderings, the create-committee form, and the registration form with its phone and CNIC (Pakistani national identity number) formatters.
- **Data model.** The enumerations and the schema's CHECK and UNIQUE constraints.
- **Session prototype.** The committee list and the account list kept in the browser session.

## How the model is built

- **State-changing code becomes classes.** Each mutating operation is a method of a class:
  - `Store.DatabaseManager` keeps its four dictionaries as `map` fields.
  - `DataManager.SessionData` keeps a `seq` of committee records.
  - `Auth.AuthSession` keeps a `seq` of `Auth.UserRecord` objects, so that the aliasing between the session's `user_data` and a stored record is visible.
- **Methods are tied to transition functions.** Each method's postcondition equates the new state, and the returned boolean, with a transition function on a value snapshot (`Store.Tables`, `DataManager` committee lists, `Auth.Session`). What the source promises is proved as lemmas about those functions, and validity invariants are preserved by every method.
- **Pure code becomes functions and lemmas.** Formatters, validators, banding and score formulas are functions, with lemmas stating their round trips, bounds, orderings and if-and-only-if characterisations.
- **Loops stay loops.** Scans, filters, schedule builders and counting loops are `while` or `for` loops with invariants. The loops that build a list are proved equal to a reference function, and the existence scans are proved to answer exactly their predicate.
- **Dictionary order.** The in-memory tables are Python dictionaries, walked in insertion order. Ids come from the counter and no key is re-inserted, so insertion order is ascending id order. The store's list queries walk the ids `0..nextId` and return exactly the order the dictionary walk gives.
- **Values.** Ids are naturals, drawn from a counter that stands for `uuid4`. Dates are integer day numbers, and "now" is a parameter. The SHA-256 digest is a stand-in function (`Hashing.Sha256Hex`) that is injective, standing for the collision resistance the login logic assumes; unlike a real hex digest, its length is not fixed at 64.
- **Strings.** Character classes are narrowed to ASCII.

## Code and intent

Where the code departs from what it evidently intends (its own comments, its transactional SQL path, its labels), the model follows the code as written and states the intended behaviour as a separate, corrected member (see "## Findings"):

- responding to an invitation on the in-memory path;
- duplicate pending invitations;
- the "points to next level" table;
- dropped invalid CNICs;
- profile updates through the aliased `user_data`;
- clean-up of paused committees;
- the seed member counts.

Two deliberate readings:

- **Store invariant split.** The in-memory `create_committee` checks none of its arguments. The structural invariant (`Store.TablesValid`) is therefore kept separate from capacity (`Store.WithinCapacity`). Capacity is kept whenever the new committee is sized for at least its admin. `Store.TablesValid` also carries the users table's CHECK that a trust score lies in 0..100 (models.py:141). The demo accounts (95 and 88) and every new account (85) meet it, and no in-memory store operation changes a score.
- **`hasattr` fallbacks.** `calculate_trust_score` and `get_current_trust_score` call `hasattr` on dictionaries, so the account age and the stored score are always absent as written. They are `Option` inputs here, and `None` is what the code sees. The on-time probe `hasattr(payment, 'due_date')` fails the same way: the payments come from `get_user_payment_history` as the `Payment` record of db_manager.py, which has no due date, so no payment is ever on time and the payment part is at most 25 of its 40 points. A payment's `dueDate` is an `Option`, `None` for every stored payment (`TrustScore.PaymentScoreAsWired`, `TrustScore.OnTimeBonusNeverAwarded`).

## Model

| member | source | states |
|---|---|---|
| Models.ParseUserRole | CivitasPlatform/database/models.py:6-8 | a stored role string is accepted exactly when it is "member" or "admin", and reads back as itself |
| Models.ParseCommitteeType | CivitasPlatform/database/models.py:10-12 | a committee type is accepted exactly when it is "public" or "private", and reads back as itself |
| Models.ParsePaymentFrequency | CivitasPlatform/database/models.py:14-16 | a frequency is accepted exactly when it is "monthly" or "bi_monthly", and reads back as itself |
| Models.ParsePaymentStatus | CivitasPlatform/database/models.py:18-22 | a payment status is accepted exactly when it is pending, paid, failed or refunded |
| Models.ParseCommitteeStatus | CivitasPlatform/database/models.py:24-28 | a committee status is accepted exactly when it is active, paused, completed or cancelled |
| Models.EnumRoundTrips | CivitasPlatform/database/models.py:6-28 | every value of each of the five enumerations is read back from its stored string |
| Models.DefaultsPassSchema | CivitasPlatform/database/models.py:46-61 | a committee built with the dataclass defaults (0 members, 12 months, public, monthly, active) passes the committees CHECKs exactly when its amount is positive and it has at least two members |
| Hashing.DigestInjective | CivitasPlatform/database/db_manager.py:250-260 | distinct passwords have distinct digests; this stands for the collision resistance of SHA-256 that the login and the password change assume |
| Text.DigitsOnly | CivitasPlatform/app.py:173 | the result holds digits only, is at most as long as the input, and a digit string is kept whole |
| Text.DigitsOnlySpec | CivitasPlatform/app.py:173 | the kept characters are exactly the digits of the input: every occurrence of a digit once, nothing else, in their original order |
| Text.DigitsOnlyAppend | CivitasPlatform/app.py:173 | keeping the digits distributes over concatenation |
| Text.TrimStartSpec | CivitasPlatform/app.py:237 | stripping the front removes exactly the leading blanks and leaves a non-blank first character |
| Text.TrimEndSpec | CivitasPlatform/app.py:237 | stripping the back removes exactly the trailing blanks and leaves a non-blank last character |
| Text.StripSpec | CivitasPlatform/app.py:237 | `strip()` leaves no blank at either end, and is empty exactly when the input is all blanks |
| Text.StripUnpadded | CivitasPlatform/app.py:237 | a string with no blank at either end is its own strip |
| Text.ToLower | CivitasPlatform/attached_assets/data_manager_1752397702229.py:326 | lower-casing keeps the length and maps each capital letter to its small letter, leaving other characters alone |
| Text.ContainsAtOffset | CivitasPlatform/attached_assets/data_manager_1752397702229.py:326 | `needle in hay` holds exactly when the needle occurs at some offset of the haystack |
| App.FormatPhoneSpec | CivitasPlatform/app.py:170-183 | the phone formatter accepts exactly 11 digits starting with 0 or 10 digits, and then yields those digits (with a leading 0 added to 10) in the 0XXX-XXXXXXX shape |
| App.FormatPhoneIdempotent | CivitasPlatform/app.py:170-183 | formatting a formatted phone number changes nothing |
| App.FormatCnicSpec | CivitasPlatform/app.py:185-195 | the CNIC formatter accepts exactly 13 digits and yields them in 5-7-1 form |
| App.FormatCnicIdempotent | CivitasPlatform/app.py:185-195 | formatting a formatted CNIC changes nothing |
| App.FormattedPhoneIsValid | CivitasPlatform/app.py:170-243 | every non-empty formatted phone passes `validate_phone` |
| App.FormattedCnicIsValid | CivitasPlatform/app.py:185-251 | every formatted CNIC, including the empty one, passes `validate_cnic` |
| App.ValidateUsernameIgnoresPadding | CivitasPlatform/app.py:259-263 | the username check judges the stripped name, so a name and its strip get the same verdict, and a leading or trailing blank never changes it |
| App.ValidateNameSpec | CivitasPlatform/app.py:233-237 | a valid name, once stripped, begins and ends with a letter |
| App.SubmitRegistrationSpec | CivitasPlatform/app.py:265-289 | registration is attempted exactly when all required fields are filled, the name, username and email are valid, the phone formats, the passwords match with at least six characters and the terms are accepted; the username and full name are passed on as typed, unstripped, so " alice" is checked as "alice" but registered with its blank; the phone passed on is the formatted, valid one |
| App.FormatErrorsUnreachable | CivitasPlatform/app.py:274-277 | over ASCII input, where `str.isdigit` and `\d` agree, the form can never show the invalid-phone or the invalid-CNIC message |
| App.InvalidCnicDropped | CivitasPlatform/app.py:218-277 | a form whose typed CNIC cannot be formatted, and which is otherwise in order, is registered with no CNIC at all |
| App.SubmitRegistrationCheckedSpec | CivitasPlatform/app.py:218-251 | with typed CNICs checked, a registration carries a CNIC exactly when one was typed, in 5-7-1 form, and only an unformattable CNIC changes the outcome |
| Store.RangeMembers | CivitasPlatform/database/db_manager.py:404-520 | the position set 1..n has exactly the members 1..n and n elements |
| Store.PositionsExact | CivitasPlatform/database/db_manager.py:388-530 | in a valid store a committee's positions are exactly 1..current_members, held by exactly current_members memberships |
| Store.AdminAtPositionOne | CivitasPlatform/database/db_manager.py:398-405 | in a valid store a membership holds position 1 exactly when it is the committee admin's |
| Store.AdminIsMember | CivitasPlatform/database/db_manager.py:398-405 | a committee's admin is always one of its members |
| Store.CreateUserSpec | CivitasPlatform/database/db_manager.py:288-313 | `create_user` succeeds exactly when the username is free and changes nothing on failure; otherwise it adds exactly one user under the next, unused id, with that username, the password's digest, the given role and trust score 85 |
| Store.CreateUserFrame | CivitasPlatform/database/db_manager.py:288-313 | creating a user leaves every other user, the committees, the memberships and the invitations as they were, and adds only the new id to the users |
| Store.CreateUserKeepsValid | CivitasPlatform/database/db_manager.py:288-313 | creating a user keeps the store valid, including the users table's CHECK that trust scores lie in 0..100 |
| Store.CreateCommitteeSpec | CivitasPlatform/database/db_manager.py:373-407 | a created committee is new, active, has one member, carries the given title, monthly amount, size and admin, and its only membership is the admin's, at position 1, under a fresh id; every other committee and membership, the users and the invitations are untouched |
| Store.CreateCommitteeKeepsValid | CivitasPlatform/database/db_manager.py:380-407 | creating a committee keeps the store valid, and keeps every committee within capacity when the new one is sized for at least one member |
| Store.JoinSpec | CivitasPlatform/database/db_manager.py:506-532 | a join succeeds exactly when the committee exists, is not full and does not hold the user; it then adds one membership, putting the user at position current+1, counts one more member, and touches no other committee, no other membership, the users or the invitations; otherwise nothing changes |
| Store.JoinKeepsValid | CivitasPlatform/database/db_manager.py:506-532 | a join keeps positions dense and unique, and never overfills a committee |
| Store.LastSlotGoesToOneUser | CivitasPlatform/database/db_manager.py:511-531 | of two users joining for a committee's last slot, the first succeeds, the second fails, and the committee gains exactly one member |
| Store.UpdateSettingsSpec | CivitasPlatform/database/db_manager.py:658-674 | a settings update succeeds exactly for a stored committee and changes neither membership, size, member count nor admin |
| Store.DeleteSpec | CivitasPlatform/database/db_manager.py:695-708 | deleting removes the committee and every membership of it, leaves other committees and their memberships untouched, keeps the store valid, and fails and changes nothing for an unknown id |
| Store.SendInvitationKeepsValid | CivitasPlatform/database/db_manager.py:761-781 | sending an invitation keeps the store valid and leaves a pending invitation for the pair |
| Store.SendTwiceDuplicatesPending | CivitasPlatform/database/db_manager.py:767-781 | sending the same invitation twice leaves two pending invitations for one (committee, user) pair |
| Store.SendInvitationOnceSpec | CivitasPlatform/database/db_manager.py:761-781 | with the pending-pair check, at most one pending invitation per pair is kept, and sending succeeds exactly when none was pending |
| Store.RespondAtomicSpec | CivitasPlatform/database/db_manager.py:866-935 | the transactional response answers only pending invitations, changes nothing on failure, and an acceptance succeeds only with a join: the invitation is then accepted and the user a member |
| Store.FallbackAcceptIntoFullCommittee | CivitasPlatform/database/db_manager.py:850-861 | on the in-memory path, accepting an invitation to a full committee fails yet leaves the invitation "accepted" with no membership; the transactional path changes nothing |
| Store.FallbackRejectAfterAccept | CivitasPlatform/database/db_manager.py:850-861 | on the in-memory path, an accepted invitation can be answered "rejected" successfully while its membership stays |
| Store.DatabaseManager.constructor | CivitasPlatform/database/db_manager.py:186-222 | the in-memory store starts valid with the two demo accounts and no committees, memberships or invitations |
| Store.DatabaseManager.UsernameExists | CivitasPlatform/database/db_manager.py:294-296 | the scan finds the username exactly when some account has it |
| Store.DatabaseManager.CreateUser | CivitasPlatform/database/db_manager.py:288-313 | the store's new state and result are those of `CreateUserOutcome`, and it stays valid |
| Store.DatabaseManager.AuthenticateUser | CivitasPlatform/database/db_manager.py:250-267 | a login succeeds exactly when an account has the username and the password's digest, and then returns that account without its digest |
| Store.DatabaseManager.CreateCommittee | CivitasPlatform/database/db_manager.py:373-407 | the store's new state and result are those of `CreateCommitteeOutcome`, and it stays valid |
| Store.UserCommitteesBelowSpec | CivitasPlatform/database/db_manager.py:437-447 | the listed committees are exactly those of the user's memberships, and no committee appears twice |
| Store.OpenCommitteesBelowSpec | CivitasPlatform/database/db_manager.py:468-482 | the offered committees are exactly the public, not full, not joined ones, in strictly ascending id (creation) order |
| Store.PendingInvitationsBelowSpec | CivitasPlatform/database/db_manager.py:805-824 | the listed entries are exactly the user's pending invitations to existing committees, one per invitation, in strictly ascending id (sending) order |
| Store.DatabaseManager.GetUserCommittees | CivitasPlatform/database/db_manager.py:437-447 | the result is the committees of the user's memberships in membership insertion order (`UserCommitteesBelow`): exactly the stored committees the user is a member of, each once |
| Store.DatabaseManager.GetPublicCommitteesForUser | CivitasPlatform/database/db_manager.py:468-482 | the result is `OpenCommitteesBelow`: exactly the public committees with a free slot that the user has not joined, in creation order, each once |
| Store.DatabaseManager.JoinedCommitteeIds | CivitasPlatform/database/db_manager.py:474-475 | the set holds exactly the committees the user is a member of |
| Store.DatabaseManager.HasMembership | CivitasPlatform/database/db_manager.py:514-516 | the scan finds an existing membership of the user in the committee exactly when there is one |
| Store.DatabaseManager.JoinCommittee | CivitasPlatform/database/db_manager.py:506-532 | the store's new state and result are those of `Join`, and it stays valid |
| Store.DatabaseManager.GetMemberPosition | CivitasPlatform/database/db_manager.py:575-582 | the result is 0 exactly for a non-member, otherwise the member's position in 1..current_members, and 1 exactly for the admin |
| Store.DatabaseManager.UpdateCommitteeSettings | CivitasPlatform/database/db_manager.py:658-674 | the store's new state and result are those of `UpdateSettings`, and it stays valid |
| Store.DatabaseManager.RemoveMemberships | CivitasPlatform/database/db_manager.py:702-706 | the deletion loop leaves exactly the memberships of other committees, and nothing else changes |
| Store.DatabaseManager.DeleteCommittee | CivitasPlatform/database/db_manager.py:695-708 | the store's new state and result are those of `Delete`, and it stays valid |
| Store.DatabaseManager.SendCommitteeInvitation | CivitasPlatform/database/db_manager.py:761-781 | the store's new state and result are those of `SendInvitation`, and it stays valid |
| Store.DatabaseManager.HasPending | CivitasPlatform/database/db_manager.py:812-813 | the scan finds a pending invitation of the user to the committee exactly when there is one |
| Store.DatabaseManager.SendCommitteeInvitationOnce | CivitasPlatform/database/db_manager.py:761-781 | sending with the pending-pair check follows `SendInvitationOnce` and keeps at most one pending invitation per pair |
| Store.DatabaseManager.GetUserInvitations | CivitasPlatform/database/db_manager.py:805-824 | the result is `PendingInvitationsBelow`: exactly the user's pending invitations to committees that still exist, with their titles, in sending order, one entry per invitation |
| Store.DatabaseManager.RespondToInvitation | CivitasPlatform/database/db_manager.py:847-861 | the store's new state and result are those of the in-memory `RespondFallback`, and it stays valid |
| Store.DatabaseManager.RespondToInvitationAtomic | CivitasPlatform/database/db_manager.py:866-893 | the store's new state and result are those of the transactional `RespondAtomic`, and it stays valid |
| TrustScore.Clamp | CivitasPlatform/utils/trust_score.py:31-34 | the clamped score lies in 0..100, equals the raw score whenever that is already in range, and is 0 below the range and 100 above it; the auth prototype's `max(0, min(100, score))` is the same function and uses it |
| TrustScore.PaidPayments | CivitasPlatform/utils/trust_score.py:41 | a payment is in the paid list exactly when it is in the input with status "paid" |
| TrustScore.PaidPaymentsSpec | CivitasPlatform/utils/trust_score.py:41 | the paid list is the order-preserving filter: each paid payment as often as it occurs, nothing else, in input order, which fixes `len(paid_payments)` |
| TrustScore.CalculatePaymentScore | CivitasPlatform/utils/trust_score.py:36-58 | the payment part equals `PaymentScore` and lies in 0..40; for payments as the store returns them, with no due date, it is `int(25 * paid / total)`, at most 25 |
| TrustScore.PaymentScoreAsWired | CivitasPlatform/utils/trust_score.py:47-58 | with no payment carrying a due date, nothing counts as on time and the payment part is `StoredPaymentScore`, `int(25 * paid / total)`, within 0..25 |
| TrustScore.RatioScoreNoOnTime | CivitasPlatform/utils/trust_score.py:47-58 | with no on-time payment, `int(25 * paid / total + 0)` is `(25 * paid) / total`, within 0..25 |
| TrustScore.CountOnTimeLoop | CivitasPlatform/utils/trust_score.py:50-54 | the counting loop counts exactly the payments that have a due date and were made by it; over payments without a due date it counts 0 |
| TrustScore.NoDueDateNoneOnTime | CivitasPlatform/utils/trust_score.py:50-54 | a payment without a `due_date` attribute fails the `hasattr` probe and is never counted |
| TrustScore.RatioScoreBounds | CivitasPlatform/utils/trust_score.py:47-58 | `int(25·paid/total + 15·on_time/paid)` lies in 0..40 whenever on_time ≤ paid ≤ total |
| TrustScore.PaymentScoreBounds | CivitasPlatform/utils/trust_score.py:36-58 | the payment part lies in 0..40 for any payments |
| TrustScore.RatioScoreExtremes | CivitasPlatform/utils/trust_score.py:47-58 | everything paid on time earns the full 40, and nothing paid earns 0 |
| TrustScore.CountOnTimeExtremes | CivitasPlatform/utils/trust_score.py:50-54 | the on-time count is 0 exactly when no payment passes the on-time test, and the whole list exactly when every payment does |
| TrustScore.CompletionScoreBounds | CivitasPlatform/utils/trust_score.py:60-74 | the completion part lies in 0..30 |
| TrustScore.TenureScoreBounds | CivitasPlatform/utils/trust_score.py:76-87 | the tenure part is at most 20, never negative for a non-negative age, and equals min(20, age in months) |
| TrustScore.CalculateTrustScore | CivitasPlatform/utils/trust_score.py:9-34 | the score equals `TrustScoreOf` and lies in 0..100; for payments from the store, with no due date, it is clamp(50 + `int(25 * paid / total)` + completion + tenure) |
| TrustScore.OnTimeBonusNeverAwarded | CivitasPlatform/utils/trust_score.py:47-58 | one stored paid payment and nothing else scores 75; the same payment carrying the due date it met would score 90 |
| TrustScore.TrustScoreRange | CivitasPlatform/utils/trust_score.py:9-34 | the score is always in 0..100, a user with no payments and no committees scores exactly 85, and with a non-negative age nobody scores below 50 |
| TrustScore.UpdateTrustScore | CivitasPlatform/utils/trust_score.py:89-106 | the recomputed score is `TrustScoreOf`, without an on-time bonus for stored payments, and a change is logged exactly when it differs from the current score by at least 1 |
| TrustScore.LevelMonotone | CivitasPlatform/utils/trust_score.py:115-152 | a higher score never lands in a lower band |
| TrustScore.LevelFloorReached | CivitasPlatform/utils/trust_score.py:115-152 | a score reaches its band's floor and stays below the floor of every higher band |
| TrustScore.NameParsesBack | CivitasPlatform/utils/trust_score.py:115-152 | each band's name reads back as that band |
| TrustScore.DescriptionNamesBand | CivitasPlatform/utils/trust_score.py:115-152 | the level named in a score's description is that score's band |
| TrustScore.RecommendationsShape | CivitasPlatform/utils/trust_score.py:154-175 | the recommendation list is never empty: one item from 75 up, three in 60..74 and five below 60; the encouragement appears exactly from 85 up |
| TrustScore.RecommendationsAsWritten | CivitasPlatform/utils/trust_score.py:101-175 | as written, the stored score is never read, so every user gets only the encouragement |
| PaymentManager.IntervalDays | CivitasPlatform/utils/payment_manager.py:16-21 | the interval is 60 days exactly for "bi_monthly" and 30 days for anything else |
| PaymentManager.CalculatePaymentSchedule | CivitasPlatform/utils/payment_manager.py:10-31 | the loop builds exactly `PaymentScheduleOf` |
| PaymentManager.PaymentScheduleShape | CivitasPlatform/utils/payment_manager.py:23-31 | there are `duration` cycles numbered 1..duration, the first due on the start date and each one interval after the previous, with strictly increasing due dates |
| PaymentManager.CalculatePayoutSchedule | CivitasPlatform/utils/payment_manager.py:33-54 | the loop builds exactly `PayoutScheduleOf` |
| PaymentManager.PayoutScheduleShape | CivitasPlatform/utils/payment_manager.py:45-54 | there is one slot per member in input order, member i at position i+1, none completed, payout date start + interval·(position−1), and strictly increasing dates |
| PaymentManager.TrustAfterPaymentSpec | CivitasPlatform/utils/payment_manager.py:103-123 | the adjustment keeps the score in 0..100, raises it by at most 1 when on time, lowers it by at most 3 when late, and leaves it unchanged only at the bound it moves towards |
| PaymentManager.ValidatePaymentAmountMatchesSchema | CivitasPlatform/utils/payment_manager.py:175-179 | the amount check accepts exactly the amounts the payments CHECK accepts |
| PaymentManager.GetPaymentReminders | CivitasPlatform/utils/payment_manager.py:131-151 | one reminder per committee of `get_user_committees`, in that order: exactly one for each committee the user is a member of, none repeated, each for the monthly amount and due 7 days from now |
| PaymentManager.NotificationsForSpec | CivitasPlatform/utils/payment_manager.py:160-171 | a notification is made for exactly the listed committees the user administers, and distinct committees give notifications for distinct committee ids |
| PaymentManager.GetPayoutNotifications | CivitasPlatform/utils/payment_manager.py:153-173 | the result is `NotificationsFor` over `get_user_committees`' list, in that order: one notification for exactly each committee where the user holds position 1, which are the ones the user administers, carrying the whole pot monthly_amount·current_members |
| CommitteeManagement.ApplyCommitteeFilters | CivitasPlatform/pages/committee_management.py:671-710 | the filter loop builds exactly `Filtered` |
| CommitteeManagement.FilteredSpec | CivitasPlatform/pages/committee_management.py:674-710 | the filtered list keeps the input's order, and holds exactly the committees that pass every check |
| CommitteeManagement.KeptCommitteeMeaning | CivitasPlatform/pages/committee_management.py:677-706 | a kept committee is in the inclusive amount range, matches category and frequency unless "All", lies in the chosen duration band (2..6, 7..12, 13 up), and in the chosen fill band (at least 0.9, 0.5 to 0.9, below 0.5) |
| CommitteeManagement.NoFilterKeepsEverything | CivitasPlatform/pages/committee_management.py:674-710 | with every filter at "All", nothing in the amount range is dropped |
| CommitteeManagement.InsertPermutation | CivitasPlatform/pages/committee_management.py:712-724 | inserting adds exactly the inserted committee |
| CommitteeManagement.StableSortSpec | CivitasPlatform/pages/committee_management.py:712-724 | each ordering ascends by rank, is a permutation of its input, and keeps committees of equal rank in their input order |
| CommitteeManagement.SortCommitteesSpec | CivitasPlatform/pages/committee_management.py:712-724 | the result is a permutation of the input, ordered newest first, by amount up or down, or by open slots descending, and an unknown choice returns the input unchanged |
| CommitteeManagement.ValidateCreateFormSpec | CivitasPlatform/pages/committee_management.py:454-466 | the create form is accepted exactly when every field is filled, every agreement ticked, the stripped title has at least 3 characters, the amount is at least 1000 and there are at least 2 members |
| CommitteeManagement.SubmitCreateCommittee | CivitasPlatform/pages/committee_management.py:362-478 | a rejected form leaves the store alone; an accepted one creates the committee with the stripped title, keeps capacity, and for a non-admin the committee is public |
| MemberDashboard.TrustLevelAgreesWithEngine | CivitasPlatform/pages/member_dashboard.py:611-622 | the dashboard's five levels are the trust engine's bands, the lowest being named "Poor" |
| MemberDashboard.ColorFollowsLevel | CivitasPlatform/pages/member_dashboard.py:598-622 | two scores share a colour exactly when they share a level |
| MemberDashboard.TrustBenefitsShape | CivitasPlatform/pages/member_dashboard.py:624-653 | there are five benefits from 85 up and three below, private committees are offered exactly from 85 up, and scores 60-74 get the same list as those below 60 |
| MemberDashboard.DaysToPayoutSpec | CivitasPlatform/pages/member_dashboard.py:104-111 | the offset is the interval times the places ahead, 0 for position 1, and matches the payout schedule built from the ordered members |
| MemberDashboard.PayoutQueue | CivitasPlatform/pages/member_dashboard.py:160-166 | the queue has one entry per current member, at positions 1.., each with the whole pot, and marks exactly the user's own position |
| MemberDashboard.NextLevelRequirement | CivitasPlatform/pages/member_dashboard.py:520-529 | the loop with `break` returns the first row the score is below, and a shown "points needed" is strictly positive |
| MemberDashboard.NextLevelAlwaysExcellent | CivitasPlatform/pages/member_dashboard.py:520-529 | as written, every score below 95 is pointed at Excellent |
| MemberDashboard.NextLevelSkipsBands | CivitasPlatform/pages/member_dashboard.py:520-529 | as written, a Poor score of 50 is asked for 45 points to Excellent, while Fair is 10 points away |
| MemberDashboard.NextLevelSpec | CivitasPlatform/pages/member_dashboard.py:520-529 | with the corrected table, no hint is shown exactly from 95 up, and otherwise the hint names the next band up and the exact points at which the level changes to it |
| DataManager.FirstWithId | CivitasPlatform/attached_assets/data_manager_1752397702229.py:152-160 | the lookup finds the first committee with the id, and fails exactly when there is none |
| DataManager.AddMemberSpec | CivitasPlatform/attached_assets/data_manager_1752397702229.py:174-190 | adding fails, in order, for a missing committee, an existing member and a full committee, changing nothing; otherwise it appends the user and counts one more member in that committee only |
| DataManager.AddMemberKeepsInvariants | CivitasPlatform/attached_assets/data_manager_1752397702229.py:174-190 | adding keeps member lists free of repetition, counts within capacity, and the gap between count and list |
| DataManager.RemoveFirst | CivitasPlatform/attached_assets/data_manager_1752397702229.py:205 | `list.remove` drops one occurrence of a present element and leaves a list without it unchanged |
| DataManager.RemoveFirstUnique | CivitasPlatform/attached_assets/data_manager_1752397702229.py:205 | in a list without repetition, removing an element leaves exactly the others, none twice |
| DataManager.RemoveMemberSpec | CivitasPlatform/attached_assets/data_manager_1752397702229.py:192-208 | removing fails, in order, for a missing committee, a non-member and the admin, changing nothing; otherwise the user leaves and the count drops by one in that committee only |
| DataManager.RemoveMemberKeepsInvariants | CivitasPlatform/attached_assets/data_manager_1752397702229.py:192-208 | removing keeps lists free of repetition and within capacity, takes the user off entirely, and keeps the gap between count and list |
| DataManager.RecordPaymentSpec | CivitasPlatform/attached_assets/data_manager_1752397702229.py:210-234 | a payment is recorded exactly for an existing committee and one of its members, as one new "paid" record at the end of that committee's history; otherwise nothing changes |
| DataManager.GeneratePayoutSchedule | CivitasPlatform/attached_assets/data_manager_1752397702229.py:99-116 | member i is at position i+1 on the creation date plus 30·i days, with the whole pot, pending exactly while that date is in the future and completed otherwise |
| DataManager.GetUserPaymentStatus | CivitasPlatform/attached_assets/data_manager_1752397702229.py:138-150 | the status is "paid" exactly when a paid record of the user is dated in the given month, else "unpaid" |
| DataManager.SearchSpec | CivitasPlatform/attached_assets/data_manager_1752397702229.py:319-342 | the search keeps the input's order, holds exactly the matching committees, honours each non-zero bound, and with no criteria returns everything |
| DataManager.ValidateCommitteeDataSpec | CivitasPlatform/attached_assets/data_manager_1752397702229.py:402-421 | no message is returned exactly when all five checks pass, and never more than five |
| DataManager.ValidateCommitteeDataMessages | CivitasPlatform/attached_assets/data_manager_1752397702229.py:402-421 | each message appears exactly when its own check fails |
| DataManager.CleanupCompletesPaused | CivitasPlatform/attached_assets/data_manager_1752397702229.py:423-439 | as written, a paused committee well before its end date is marked completed |
| DataManager.AfterExpirySpec | CivitasPlatform/attached_assets/data_manager_1752397702229.py:423-439 | the intended clean-up changes only the status, leaves committees before their end date untouched, completes those past it, and is idempotent |
| DataManager.SeedCountsDisagree | CivitasPlatform/attached_assets/data_manager_1752397702229.py:7-72 | as seeded, no committee's stored count matches its member list; the first has 4 places by count but 9 by list |
| DataManager.SeedCommitteesConsistentSpec | CivitasPlatform/attached_assets/data_manager_1752397702229.py:7-72 | with counts taken from the lists the seed is consistent, within capacity and free of repetition, and adding and removing keep counts consistent |
| DataManager.SessionData.constructor | CivitasPlatform/attached_assets/data_manager_1752397702229.py:7-72 | the session starts with the three seeded committees |
| DataManager.SessionData.GetCommitteeIndex | CivitasPlatform/attached_assets/data_manager_1752397702229.py:152-160 | the scan returns the position of the first committee with the id |
| DataManager.SessionData.AddMemberToCommittee | CivitasPlatform/attached_assets/data_manager_1752397702229.py:174-190 | the committees and reply are those of `AddMember` |
| DataManager.SessionData.RemoveMemberFromCommittee | CivitasPlatform/attached_assets/data_manager_1752397702229.py:192-208 | the committees and reply are those of `RemoveMember` |
| DataManager.SessionData.RecordMemberPayment | CivitasPlatform/attached_assets/data_manager_1752397702229.py:210-234 | the committees and reply are those of `RecordPayment` |
| DataManager.SessionData.SearchCommittees | CivitasPlatform/attached_assets/data_manager_1752397702229.py:319-342 | the loop returns exactly `Searched` |
| DataManager.SessionData.CleanupExpiredCommittees | CivitasPlatform/attached_assets/data_manager_1752397702229.py:423-439 | the committees keep their number and order, and each becomes `AfterCleanup` of itself |
| DataManager.SessionData.CleanupExpiredCommitteesChecked | CivitasPlatform/attached_assets/data_manager_1752397702229.py:423-439 | the committees keep their number and order, and each becomes `AfterExpiry` of itself |
| Auth.FirstUserSpec | CivitasPlatform/attached_assets/auth_1752397702229.py:163-171 | the lookup finds the first record with the username, and fails exactly when there is none |
| Auth.LoginIndexSpec | CivitasPlatform/attached_assets/auth_1752397702229.py:59-64 | the login scan finds a record matching username and password digest, and fails exactly when there is none |
| Auth.LoginSpec | CivitasPlatform/attached_assets/auth_1752397702229.py:59-74 | a login succeeds exactly when a record has the username and the password's digest; only then is the session authenticated for that user, whose stamped record is the current data; a failed login changes nothing |
| Auth.LogoutSpec | CivitasPlatform/attached_assets/auth_1752397702229.py:102-112 | after a logout there is no current user and the records are unchanged |
| Auth.NewUserOk | CivitasPlatform/attached_assets/auth_1752397702229.py:84-94 | a new record has the username, the password's digest, the role, trust score 75 and no login yet |
| Auth.RegisterSpec | CivitasPlatform/attached_assets/auth_1752397702229.py:76-100 | registration fails and changes nothing exactly when the username is taken; otherwise exactly one record is appended at trust 75, the user can log in with the chosen password, and unique usernames stay unique |
| Auth.Overwrite | CivitasPlatform/attached_assets/auth_1752397702229.py:121-123 | the updated record has exactly the keys it had before |
| Auth.ProfileAliasAddsKeys | CivitasPlatform/attached_assets/auth_1752397702229.py:114-131 | as written, a logged-in user updating their own profile with a key the record lacks adds that key to the stored record |
| Auth.UpdateProfileCheckedSpec | CivitasPlatform/attached_assets/auth_1752397702229.py:114-131 | the intended update fails and changes nothing exactly for an unknown user, never adds or removes a key, sets each existing key the update names, and keeps `user_data` equal to its record |
| Auth.ChangePasswordSpec | CivitasPlatform/attached_assets/auth_1752397702229.py:133-145 | a change succeeds exactly when the user's record holds the old password's digest, then replaces only that digest, after which the new password logs in; otherwise nothing changes |
| Auth.UpdateTrustSpec | CivitasPlatform/attached_assets/auth_1752397702229.py:147-161 | an update succeeds exactly for an existing user, whose stored score becomes the clamped score with every other field kept; a current user's data shows it too; no other record changes |
| Auth.GetAllUsers | CivitasPlatform/attached_assets/auth_1752397702229.py:181-186 | every record or none; every record when the first record with the current user's name has role "admin", none when it does not, and none when nobody is logged in (unless a record's username is itself None) |
| Auth.GetAllUsersFollowsSession | CivitasPlatform/attached_assets/auth_1752397702229.py:181-186 | over the seeded accounts, the admin's login lists all three records, and after the admin's logout none is listed |
| Auth.GetAllUsersHidesFromMember | CivitasPlatform/attached_assets/auth_1752397702229.py:181-186 | over the seeded accounts, a member's login lists no record |
| Auth.DeleteUserSpec | CivitasPlatform/attached_assets/auth_1752397702229.py:188-200 | deleting fails and changes nothing unless the current user is an admin and the username exists; otherwise exactly that user's first record is removed and the others keep their order |
| Auth.ValidatePasswordStrengthSpec | CivitasPlatform/attached_assets/auth_1752397702229.py:248-259 | a password is strong exactly with six characters, a digit and a letter, and each rejection names the first check that failed |
| Auth.UserStatisticsSpec | CivitasPlatform/attached_assets/auth_1752397702229.py:261-278 | admins and members add up to the total, the members being the records without role "admin" |
| Auth.FormattedMobileAccepted | CivitasPlatform/attached_assets/auth_1752397702229.py:236-246 | a mobile number formatted by the sign-up page passes the asset's phone check |
| Auth.SeedRecordsOk | CivitasPlatform/attached_assets/auth_1752397702229.py:5-49 | the seeded records are well formed, with exactly one admin |
| Auth.UserRecord.WriteExisting | CivitasPlatform/attached_assets/auth_1752397702229.py:121-123 | the inner loop sets the update's values for exactly the keys the record already has |
| Auth.AuthSession.constructor | CivitasPlatform/attached_assets/auth_1752397702229.py:5-49 | the session starts with the three seeded users and nobody logged in |
| Auth.AuthSession.FindUser | CivitasPlatform/attached_assets/auth_1752397702229.py:163-171 | the scan returns `FirstUser` of the records |
| Auth.AuthSession.FindLogin | CivitasPlatform/attached_assets/auth_1752397702229.py:63-64 | the scan returns `LoginIndex` of the records |
| Auth.AuthSession.LoginUser | CivitasPlatform/attached_assets/auth_1752397702229.py:59-74 | the session's new state and result are those of `Login` |
| Auth.AuthSession.RegisterUser | CivitasPlatform/attached_assets/auth_1752397702229.py:76-100 | the session's new state and result are those of `Register` |
| Auth.AuthSession.LogoutUser | CivitasPlatform/attached_assets/auth_1752397702229.py:102-106 | the session's new state is that of `Logout` |
| Auth.AuthSession.UpdateUserProfile | CivitasPlatform/attached_assets/auth_1752397702229.py:114-131 | the session's new state and result are those of `UpdateProfile`, the aliased record included |
| Auth.AuthSession.ChangeUserPassword | CivitasPlatform/attached_assets/auth_1752397702229.py:133-145 | the session's new state and result are those of `ChangePassword` |
| Auth.AuthSession.UpdateTrustScore | CivitasPlatform/attached_assets/auth_1752397702229.py:147-161 | the session's new state and result are those of `UpdateTrust` |
| Auth.AuthSession.IsAdminUser | CivitasPlatform/attached_assets/auth_1752397702229.py:173-179 | the answer is whether the named user, or else the current user, exists with role "admin" |
| Auth.AuthSession.DeleteUserAccount | CivitasPlatform/attached_assets/auth_1752397702229.py:188-200 | the session's new state and result are those of `DeleteUser` |

## Left out

- **Database path.** The PostgreSQL path of `DatabaseManager` is not modelled: connections, SQL text, `initialize_database`, `_create_demo_users`, and the SQL branches of every operation. The one exception is `respond_to_invitation`, whose transactional branch is modelled as one atomic step (`Store.RespondAtomic`), together with `_join_committee_internal`.
- **Mock-data queries.** `get_committee_activity` and `get_pending_join_requests` are left out; they return mock data.
- **Other `DatabaseManager` operations.** `get_all_users_for_invitation` and `update_user_profile` are not among the modelled operations. `get_committee_invitations` and `get_user_payment_history` are left out too.
- **Concurrency.** Concurrency and row locking are not modelled. Each operation is one sequential step, so a join's capacity check and insert are atomic.
- **Non-determinism.** SHA-256 is replaced by an injective stand-in. `uuid4` is replaced by a counter. `random` transaction numbers are a parameter. `datetime.now()` and `timedelta` become integer day numbers; payment dates in the session prototype stay "YYYY-MM-DD" text.
- **Floating point.** The score ratios are exact rationals, floored where Python truncates. Fill-rate bands use cross-multiplication. The average trust score of `get_user_statistics` and the committee statistics and analytics are left out.
- **Unicode.** `str.isdigit`, `str.isalpha`, `str.isspace`, `str.lower` and the regular-expression classes are narrowed to ASCII.
- **Payment operations.** `process_payment` and `process_payout` are left out: they build a dict from their arguments, a `uuid4` and the clock, and write nothing (the trust update `process_payment` calls is `PaymentManager.UpdateTrustScoreForPayment`). `calculate_monthly_collection` is `pass`. The payment-method lists of `PaymentManager` are constants.
- **Prototype data functions.** `generate_payment_history` (random data), `get_user_committees`, `update_committee`, `process_payout`, `get_committee_statistics`, `calculate_committee_trust_score`, `get_public_committees`, `get_private_committees`, `get_committee_analytics`, `export_committee_data` and `get_user_committee_summary` are not among the modelled operations.
- **Auth wrappers.** The `require_auth` and `require_admin` decorators are left out. The digest helpers `hash_password` and `verify_password` are both modelled by `Hashing.Sha256Hex`, the stand-in named under "Non-determinism".
- **Presentation.** Streamlit and Plotly rendering of all pages is left out.
- PaymentManager.UpdateTrustScoreForPayment: the source computes the adjusted score and discards it, so the model returns the score and changes no state.
- App.FormatErrorsUnreachable: holds over the model's ASCII characters only. The formatters keep `str.isdigit` characters and the validators test `\d`; these differ beyond ASCII ("²" passes `isdigit` but not `\d`), so raw phone "0333123456²" formats to "0333-123456²" and is shown the invalid-phone message, and a CNIC with such a character is shown the invalid-CNIC message.
- CommitteeManagement.ApplyCommitteeFilters: requires every committee's size to be positive when the availability filter is on. The source divides by `total_members` without a guard, and a size of 0 would raise ZeroDivisionError. The create form and the committees CHECK (`total_members >= 2`) never produce one.
- DataManager.SessionData.constructor: the seeded payment histories are drawn at random in the source; they start empty here.

## Findings

| source | as written | input that shows it | evidently intended | confidence | as-written member | corrected member |
|---|---|---|---|---|---|---|
| CivitasPlatform/database/db_manager.py:850-861 | the in-memory response sets the status before trying to join, with no pending check | accept an invitation to a committee that is full | the response answers only pending invitations, and a failed join leaves the invitation pending | not executed | Store.FallbackAcceptIntoFullCommittee | Store.RespondAtomicSpec |
| CivitasPlatform/database/db_manager.py:767-781 | every send records a new pending invitation | send the same (committee, user) invitation twice | at most one pending invitation per pair | not executed | Store.SendTwiceDuplicatesPending | Store.SendInvitationOnceSpec |
| CivitasPlatform/pages/member_dashboard.py:520-529 | the dictionary's first entry (85 → "Excellent (95+)") matches every score below 95 | score 50, told 45 points to Excellent | the hint names the next band up (Fair at 60, 10 points) | not executed | MemberDashboard.NextLevelSkipsBands | MemberDashboard.NextLevelSpec |
| CivitasPlatform/app.py:218-277 | a typed CNIC that cannot be formatted becomes "", which `validate_cnic` accepts | CNIC "12345" with an otherwise valid form | an invalid typed CNIC is rejected with the CNIC message | not executed | App.InvalidCnicDropped | App.SubmitRegistrationCheckedSpec |
| CivitasPlatform/attached_assets/auth_1752397702229.py:114-131 | after a login `user_data` is the stored record, so `user_data.update(updates)` adds new keys to it | log in, then update one's own profile with a key the record lacks | only existing keys are written | not executed | Auth.ProfileAliasAddsKeys | Auth.UpdateProfileCheckedSpec |
| CivitasPlatform/attached_assets/data_manager_1752397702229.py:423-439 | every committee that is not active-and-running is marked completed | a paused committee before its end date | only committees past their end date are completed | not executed | DataManager.CleanupCompletesPaused | DataManager.AfterExpirySpec |
| CivitasPlatform/attached_assets/data_manager_1752397702229.py:7-72 | seeded counts 8, 6 and 10 with member lists of 3, 2 and 2 | the seeded "Tech Professionals Committee" | each count equals its member list's length | not executed | DataManager.SeedCountsDisagree | DataManager.SeedCommitteesConsistentSpec |
