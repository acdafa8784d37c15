# NGO donation platform: ledger, goal reconciliation and administration

This project models the server core of an NGO crowdfunding backend. Receivers
submit medical funding requests with a free-text goal ("₹50,000", "Rs. 5,000").
Admins approve, reject or delete those requests. Donors pay either directly or
through a card gateway.

Every paid amount lands in a donation ledger. The entry is either recorded
outright as `success`, or created `pending` and settled by the gateway's
webhook. After each payment, and again in a periodic sweep, the request's
confirmed total (its `success` entries in INR) is compared with its goal. A
funded request is flipped to `achieved`, and the admins get a `goal_achieved`
notification. A second job deletes pending entries older than twenty minutes.
Around this sit the admin's notification inbox and the password-reset codes of
user accounts.

The model is a functional core with an imperative shell:

- `Db.Tables` is the three collections (requests, ledger, notifications) plus
  the id source, as one value. `Db.TablesValid` is the schema and uniqueness
  invariant over them.
- Each handler is a function from tables to an `Outcome` (its reply and the
  tables it leaves). The lemmas about these functions state what the handler
  promises.
- Each handler is also a method on the mutable `Db.Store`. It performs the
  source's steps in order (lookups, the conversion, `save`, `create`,
  `deleteMany`). Its `ensures` ties the reply and the new state to the
  function and keeps `Valid()`.
- User accounts live in their own `AuthController.Accounts` class.
- The scheduler's sweep is a loop method whose invariant is the sweep function
  over the positions visited so far.

Modules follow the source files:

| file | module |
|---|---|
| `goal.dfy` | `Goal`: the goal sanitiser, `parseFloat` and the goal rule |
| `currency.dfy` | `Currency`: currency handling |
| `donation_model.dfy`, `request_model.dfy`, `notification_model.dfy` | the three schemas |
| `db.dfy` | `Db`: the tables and the store |
| `donation_controller.dfy` | `DonationController` |
| `payment_controller.dfy` | `PaymentController` |
| `status_scheduler.dfy` | `StatusScheduler` |
| `donation_request_controller.dfy` | `DonationRequestController` |
| `notification_controller.dfy` | `NotificationController` |
| `auth_controller.dfy` | `AuthController` |

`wrappers.dfy`, `seqs.dfy` and `text.dfy` hold generic helpers: `Option`,
sequence filters and windows, and decimal text and ASCII case.

External effects are parameters:

- the gateway's signature check and its acceptance of an intent (`bool`);
- the exchange-rate service's answer (`Option<real>`; `None` when the call throws);
- whether mail delivery, `Notification.create` or `deleteMany` throws (`bool` or a set of request ids);
- the clock `now` (milliseconds) and the random draws;
- bcrypt's hash and compare (functions);
- JavaScript's number-to-text conversion (`fmt`).

## Model

Throughout the table, "the goal is met" means `Db.GoalReached`. The goal is read as the code reads it (`Goal.GoalAsWritten`); it must be positive and at most the confirmed total.

| member | source | states |
|---|---|---|
| Goal.SanitizeGoal | controllers/donationController.js:62 | The sanitised goal holds only digits and dots and is no longer than the raw text. |
| Goal.SanitizeAppend | controllers/donationController.js:62 | Sanitising distributes over concatenation: the regex replacement works character by character. |
| Goal.SanitizeKeepsNumeric | controllers/donationController.js:62 | Text of digits and dots passes through unchanged, so sanitising is idempotent. |
| Goal.ParseDecimal | controllers/donationController.js:62 | `parseFloat` of digits and dots is never negative. |
| Goal.ParseDecimalNaN | controllers/donationController.js:62 | `parseFloat` gives NaN exactly for "" and for a leading dot not followed by a digit (".", "..5"). |
| Goal.ParseDecimalOfDecimal | controllers/donationController.js:62 | Reading back a printed whole number gives that number. |
| Goal.ParseDecimalOfFraction | controllers/donationController.js:62 | Reading back `n.f` gives n plus the value of the fraction digits. |
| Goal.RawGoal | controllers/donationController.js:61 | A missing or empty goal becomes "0"; any other goal is kept as written. |
| Goal.GoalAsWritten | controllers/donationController.js:61-62 | The goal as the reconciliation sites read it: `parseFloat` of the sanitised raw goal. Its properties are stated by `MissingGoalNeverMet`, `NoDigitsNeverMet`, `LabelledGoalAsWritten` and `CorrectionAgrees`. |
| Goal.DropLeadingDots | controllers/donationController.js:62 | Corrected reading only: the result is a suffix of the sanitised text that starts with a digit or is empty, and only dots were dropped. |
| Goal.GoalAmount | controllers/donationController.js:61-62 | The corrected goal reading, which ignores the dots in front of the first digit. `LabelIgnored` and `CorrectionAgrees` state its properties. |
| Goal.GoalMet | controllers/donationController.js:68 | The goal rule: the goal is a number, positive, and at most the total. `GoalMetMonotone` states that it is monotone in the total. |
| Goal.GoalMetMonotone | controllers/donationController.js:68 | Once the goal rule holds, it keeps holding as the total grows. |
| Goal.MissingGoalNeverMet | controllers/donationController.js:61-68 | A missing or empty goal reads as 0 and is never reached, whatever was raised. |
| Goal.NoDigitsNeverMet | controllers/donationController.js:61-68 | A goal without digits is never reached, under both the source's reading and the corrected one. |
| Goal.LabelIgnored | controllers/donationController.js:62 | Corrected reading: a digit-free label in front of an amount does not change the goal. |
| Goal.CorrectionAgrees | controllers/donationController.js:62 | Where the sanitised goal does not open with a dot, the corrected reading equals the source's reading. |
| Goal.LabelledGoalAsWritten | controllers/donationController.js:62-68 | As written, "Rs. 5,000" reads as 0.5, so one rupee funds it; the corrected reading is 5000. |
| Goal.RupeeGoalExample | controllers/donationController.js:61-68 | "₹50,000" reads as 50000: donations of 30000 and 25000 reach it, 30000 alone does not. |
| Currency.DonorCurrency | controllers/donationController.js:25 | The currency defaults to "INR" and is upper-cased; the result has no lower-case letter. |
| Currency.RateUsed | controllers/donationController.js:33 | The live rate is used unless the call failed or gave 0 (falsy); then 83.50 is used. |
| Currency.Convert | controllers/donationController.js:27-41 | Only USD is converted, at `RateUsed`; any other currency keeps its amount at rate 1; stored amount = original × rate. |
| Currency.ConvertNonNegative | controllers/donationController.js:27-41 | A non-negative amount at a non-negative rate is stored non-negative. |
| Currency.LowerCaseUsdConverted | controllers/donationController.js:25-30 | "usd" is converted too, because upper-casing comes before the comparison. |
| Currency.UsdExample | controllers/donationController.js:30-41 | USD 10 at 83 is stored as 830 at rate 83, at the fallback as 835; INR 10 is stored as 10 at rate 1. |
| DonationModel.UniqueAfterAppend | models/Donation.js:33-37 | Inserting an entry whose transaction id is not taken keeps transaction ids unique. |
| DonationModel.UniqueAfterUpdate | models/Donation.js:33-37 | Updating an entry to an id no other entry carries keeps transaction ids unique. |
| DonationModel.SuccessEntries | controllers/donationController.js:57 | The query yields exactly the ledger's `success` entries of the request. |
| DonationModel.RequestEntries | controllers/donationController.js:129 | The query yields exactly the ledger's entries of the request, whatever their status. |
| DonationModel.SumAppend | controllers/donationController.js:58 | The `reduce` sum distributes over concatenation. |
| DonationModel.RaisedAfterInsert | controllers/donationController.js:57-58 | Appending an entry raises the confirmed total by exactly that entry's contribution. |
| DonationModel.RaisedAfterUpdate | controllers/paymentController.js:124-134 | Replacing an entry changes the total by the new contribution minus the old one. |
| DonationModel.RaisedOrderIndependent | controllers/donationController.js:58 | The confirmed total does not depend on the order of the entries. |
| DonationModel.SumReverse | controllers/donationRequestController.js:391-395 | Summing the entries newest first gives the same total. |
| DonationModel.SumNonNegative | models/Donation.js:15-19 | With every amount at least 0, the sum is at least 0. |
| DonationModel.RaisedIgnoresOthers | utils/statusScheduler.js:69-72 | Removing entries that contribute nothing to a request leaves its confirmed total unchanged. |
| DonationModel.RequestSumIsRaised | controllers/donationController.js:129-133 | When only `success` entries carry amounts, the sum over all of a request's entries is its confirmed total. |
| NotificationModel.FundedMessage | controllers/paymentController.js:145 | The webhook's message is "Goal Achieved: The mission for " + patient name + " has been fully funded!". |
| NotificationModel.FundedMessageWithTotals | controllers/donationController.js:78 | The direct path's message extends the webhook's with the goal and the total. |
| NotificationModel.GoalNotice | controllers/donationController.js:76-81 | The notice is `goal_achieved`, refers to the request on `DonationRequest`, is unread and has a message. |
| NotificationModel.HasGoalNotice | utils/statusScheduler.js:34-37 | The lookup succeeds exactly when a `goal_achieved` notice refers to the request. |
| NotificationModel.GoalNoticeCountPositive | utils/statusScheduler.js:34-39 | The count of a request's goal notices is positive exactly when the lookup finds one. |
| NotificationModel.GoalNoticeCountAppend | utils/statusScheduler.js:41-46 | Creating a notice raises the count by one exactly when it is a goal notice for that request. |
| RequestModel.ParseStatus | controllers/donationRequestController.js:305 | Exactly the four enum names are accepted, each as the status it names. |
| RequestModel.ParseStatusName | models/DonationRequest.js:53-57 | Every status's stored name is accepted back as that status. |
| RequestModel.ParseGender | models/DonationRequest.js:21-25 | A gender is accepted exactly when it is "male", "female" or "other". |
| RequestModel.StatusChangeKeepsValid | models/DonationRequest.js:53-57 | Changing only the status keeps a request schema-valid. |
| Db.FindRequest | controllers/donationController.js:15 | `findById` finds the first request with the id, or reports that none has it. |
| Db.FindDonation | controllers/paymentController.js:97 | `findById` finds an entry with the id, or reports that none has it. |
| Db.FindNotification | controllers/notificationController.js:27-31 | `findById` finds a notice with the id, or reports that none has it. |
| Db.GoalReached | controllers/donationController.js:56-68 | A request's goal is met, read as written, by its confirmed total. `ReconcileEffect`, `WebhookReconciles` and the scheduler lemmas state their effects through it. |
| Db.LabelledGoalReachedEarly | controllers/donationController.js:56-68 | As written, a request labelled "Rs. 5,000" counts as funded once half a rupee is confirmed. |
| Db.InsertDonationKeepsValid | models/Donation.js:15-42 | Inserting a schema-valid entry with a fresh id and an untaken transaction id keeps the tables valid. |
| Db.ReplaceDonationKeepsValid | models/Donation.js:33-37 | Saving a valid update whose transaction id no other entry carries keeps the tables valid. |
| Db.InsertNotificationKeepsValid | models/Notification.js:10-13 | Inserting a notice with a message and a fresh id keeps the tables valid. |
| Db.InsertRequestKeepsValid | models/DonationRequest.js:10-42 | Inserting a schema-valid request with a fresh id keeps the tables valid. |
| Db.SetStatusKeepsValid | models/DonationRequest.js:53-57 | Saving a status change keeps the tables valid. |
| Db.LedgerFilter | utils/statusScheduler.js:69-72 | Deleting any set of entries keeps the ledger invariant. |
| Db.FindAfterInsert | controllers/paymentController.js:31-40 | A freshly inserted entry is found by its id, at the end of the ledger. |
| Db.Store.AddDonation | controllers/donationController.js:44-54 | `Donation.create` appends the entry and keeps the store valid; nothing else changes. |
| Db.Store.AddRequest | controllers/donationRequestController.js:117-130 | `DonationRequest.create` appends the request under the next id and keeps the store valid; nothing else changes. |
| Db.Store.UpdateDonation | controllers/paymentController.js:124-128 | `donation.save()` replaces exactly that entry and keeps the store valid. |
| Db.Store.SetRequestStatus | controllers/donationController.js:70-71 | `request.save()` changes only that request's status. |
| Db.Store.KeepDonations | utils/statusScheduler.js:69-72 | `deleteMany` leaves exactly the entries that do not match, in order. |
| Db.Store.AddNotification | controllers/donationController.js:76-81 | `Notification.create` appends the notice; nothing else changes. |
| Db.Store.UpdateNotification | controllers/notificationController.js:27-31 | `findByIdAndUpdate` replaces exactly that notice under the same id and keeps the store valid. |
| Db.Store.RemoveNotification | controllers/notificationController.js:52 | `findByIdAndDelete` removes exactly the notice at that position and keeps the store valid. |
| Db.Store.KeepNotifications | controllers/donationRequestController.js:462 | `deleteMany` leaves exactly the notices that do not match. |
| Db.Store.RemoveRequest | controllers/donationRequestController.js:465 | `findByIdAndDelete` removes exactly that request. |
| DonationController.DirectEntry | controllers/donationController.js:25-54 | The entry holds the donor's amount (0 for NaN), the upper-cased currency, amount = original × rate (USD at `RateUsed`, else 1), status success and the `TXN-` id. |
| DonationController.Reconcile | controllers/donationController.js:56-85 | The goal check after a recorded donation. `ReconcileEffect` and `ReconcileKeepsValid` state its contract. |
| DonationController.ReconcileEffect | controllers/donationController.js:56-85 | The request becomes achieved exactly when its goal is met; no other request or entry changes; one goal notice is added exactly when it is achieved and creation does not throw. |
| DonationController.ReconcileKeepsValid | controllers/donationController.js:68-85 | Reconciliation keeps the tables valid. |
| DonationController.CheckGoal | controllers/donationController.js:68-85 | The store performs the reconciliation, saving the status before the notice. |
| DonationController.DirectMessage | controllers/donationController.js:78 | The direct path's notice text begins with the webhook's text for the patient. It then prints the goal as the code reads it, and the total. |
| DonationController.DonateGuards | controllers/donationController.js:15-22 | 404 exactly when no request has the id; 400 exactly when the found request is not approved; neither writes anything. |
| DonationController.DonateRejection | controllers/donationController.js:44-54 | Past the guards, the insert fails (500) exactly when the converted amount is negative or the transaction id is taken. |
| DonationController.Donate | controllers/donationController.js:9-101 | The handler `makeDonation` on the tables. `DonateGuards`, `DonateRejection`, `DonateRecords` (entry, total, status and goal notice) and `DonateKeepsValid` state its contract. |
| DonationController.DonateRecords | controllers/donationController.js:44-95 | An accepted donation appends its entry and raises the total by its amount. The reply's status is achieved exactly when the new total meets the goal, and no other request changes. One goal notice for the request is added exactly when it is achieved and creating the notice does not throw. |
| DonationController.DonateKeepsValid | controllers/donationController.js:9-101 | `makeDonation` keeps the tables valid. |
| DonationController.AcceptedDonationKeepsValid | controllers/donationController.js:44-85 | Recording an accepted entry and reconciling its request keep the tables valid. |
| DonationController.MakeDonation | controllers/donationController.js:9-101 | The store method answers and updates exactly as `Donate` does, and keeps the store valid. |
| DonationController.RequestDonationsSummary | controllers/donationController.js:129-140 | The donor count is the number of the request's entries of any status; the total is non-negative when amounts are. |
| DonationController.SummaryTotalIsRaised | controllers/donationController.js:129-140 | On a valid ledger the admin summary's total equals the confirmed total, because pending entries carry 0. |
| PaymentController.GatewayAmount | controllers/paymentController.js:28 | The gateway amount is amount × 100 rounded to the nearest unit, halves up. |
| PaymentController.PendingEntry | controllers/paymentController.js:31-40 | The pending entry has amount 0, the given original amount, the upper-cased currency, rate 1 and `PEND-<now>`. |
| PaymentController.CreateIntent | controllers/paymentController.js:11-75 | The handler `createPaymentIntent` on the tables. `CreateIntentGuards`, `CreateIntentRecordsPending` and `CreateIntentKeepsValid` state its contract. |
| PaymentController.CreateIntentRecordsPending | controllers/paymentController.js:31-70 | A created intent appends the pending entry, returns its id, carries donation, request and donor ids in the metadata and charges the amount within half a unit; no total moves. |
| PaymentController.CreateIntentGuards | controllers/paymentController.js:17-40 | 404 exactly for a missing request; a bad body or taken placeholder id fails with no write; a gateway failure leaves the pending entry behind. |
| PaymentController.CreateIntentKeepsValid | controllers/paymentController.js:11-75 | `createPaymentIntent` keeps the tables valid. |
| PaymentController.CreatePaymentIntent | controllers/paymentController.js:11-75 | The store method answers and updates exactly as `CreateIntent` does. |
| PaymentController.Settled | controllers/paymentController.js:108-127 | Settlement sets success, the intent id, the converted amount and the rate used, keeping ids, currency and original amount. |
| PaymentController.Webhook | controllers/paymentController.js:80-208 | The handler `handleWebhook` on the tables. `WebhookIgnores`, `WebhookSettles`, `WebhookSaveFails`, `WebhookReconciles` (status and goal notice), `WebhookRepeatsNotice` and `RedeliveryIsNoOp` state its contract. |
| PaymentController.WebhookIgnores | controllers/paymentController.js:84-92 | A bad signature, and only that, answers 400; a bad signature or another event type changes nothing; another event type answers 200. |
| PaymentController.WebhookSettles | controllers/paymentController.js:97-134 | Settlement replaces just that entry and raises its request's total by exactly the settled amount. |
| PaymentController.WebhookReconciles | controllers/paymentController.js:131-149 | After settlement the request is achieved exactly when its goal is met or it already was, whatever its status; a failed notice answers 500 and keeps the writes. The request's goal-notice count grows by one exactly when the goal is met and creation does not throw, whatever notices exist. |
| PaymentController.WebhookRepeatsNotice | controllers/paymentController.js:131-149 | The webhook looks for no existing notice: a settlement that meets the goal of a request already notified leaves it with at least two goal notices. |
| PaymentController.WebhookKeepsValid | controllers/paymentController.js:80-208 | `handleWebhook` keeps the tables valid. |
| PaymentController.DeliverySettles | controllers/paymentController.js:97-149 | A delivery that answers 200, or fails only at the notice, leaves the entry settled. |
| PaymentController.RedeliveryIsNoOp | controllers/paymentController.js:103-105 | An event for a settled entry answers 200 and changes nothing. |
| PaymentController.DoubleDelivery | controllers/paymentController.js:97-105 | A second delivery after a first that settled is a no-op. |
| PaymentController.HandleWebhook | controllers/paymentController.js:80-208 | The store method answers and updates exactly as `Webhook` does. |
| PaymentController.WebhookSettlesPending | controllers/paymentController.js:108-149 | A success event for an unsettled entry whose settlement is valid settles it and answers 200 or the notice's 500. |
| PaymentController.WebhookSaveFails | controllers/paymentController.js:122-203 | A settlement the store refuses (negative amount, or transaction id held by another entry) answers 500 and changes nothing, and that is the only way to that reply. |
| PaymentController.IntentLeavesPending | controllers/paymentController.js:31-64 | An accepted intent leaves an unsettled entry that the metadata's id finds. |
| PaymentController.IntentThenWebhook | controllers/paymentController.js:11-149 | Intent then success event settles the new entry at the converted amount. |
| StatusScheduler.ApprovedPositions | utils/statusScheduler.js:14 | The positions are in increasing order and are exactly the approved requests. |
| StatusScheduler.SyncAchieved | utils/statusScheduler.js:10-58 | `syncAchievedStatus` on the tables. `SyncAchievedRequests`, `SyncAchievedComplete`, `SyncAchievedNotifies` and `SyncAchievedAtMostOneNotice` state its contract. |
| StatusScheduler.SweepStep | utils/statusScheduler.js:16-53 | One iteration keeps the number of requests and the ledger, and only appends notices. |
| StatusScheduler.Sweep | utils/statusScheduler.js:16-53 | The iterations keep the number of requests and the ledger, and only append notices. |
| StatusScheduler.SweptCount | utils/statusScheduler.js:12-57 | An abort cuts the sweep short; without one, every approved request is visited. |
| StatusScheduler.SweepStepRequests | utils/statusScheduler.js:20-31 | One iteration marks its request achieved exactly when the goal is met and changes no other request. |
| StatusScheduler.SweepRequests | utils/statusScheduler.js:16-53 | Over distinct positions, the sweep marks achieved exactly those visited requests whose goal is met. |
| StatusScheduler.SweepSkips | utils/statusScheduler.js:16-53 | The sweep leaves the request at a position it does not visit as it was. |
| StatusScheduler.SyncAchievedRequests | utils/statusScheduler.js:10-58 | Exactly the approved requests reached before any abort whose goal is met become achieved; everything else stays. |
| StatusScheduler.SyncAchievedComplete | utils/statusScheduler.js:14-31 | After a completed run, no approved request has met its goal. |
| StatusScheduler.SweepUnfunded | utils/statusScheduler.js:27 | Iterations over unfunded requests change nothing. |
| StatusScheduler.StepUnfunded | utils/statusScheduler.js:20-27 | An iteration on a request whose goal is not met changes nothing. |
| StatusScheduler.SecondSweepIsNoOp | utils/statusScheduler.js:14-30 | A second run right after a completed one changes nothing, however it ends. |
| StatusScheduler.SweepStepNotices | utils/statusScheduler.js:34-46 | One iteration adds a goal notice for a request only when none existed. |
| StatusScheduler.StepNoticesOwn | utils/statusScheduler.js:34-46 | The iteration's own request gets a goal notice only when it had none, and then has exactly one. |
| StatusScheduler.StepNoticesOther | utils/statusScheduler.js:34-46 | The iteration leaves the goal notices of every other request as they were. |
| StatusScheduler.SweepAtMostOneNotice | utils/statusScheduler.js:34-46 | The sweep never takes a request past one goal notice. |
| StatusScheduler.SyncAchievedAtMostOneNotice | utils/statusScheduler.js:34-46 | Through the scheduler, a request gets at most one goal notice. |
| StatusScheduler.HasGoalNoticeGrows | utils/statusScheduler.js:34-37 | A goal notice, once there, stays there, because notices are only appended. |
| StatusScheduler.SweepStepNotifies | utils/statusScheduler.js:39-46 | After an iteration on a funded request whose notice creation does not throw, a goal notice for it exists. |
| StatusScheduler.LaterStepNotifies | utils/statusScheduler.js:20-46 | An iteration notifies on any tables that agree with the original on the request and on the ledger, whatever earlier iterations did elsewhere. |
| StatusScheduler.SweepLastNotifies | utils/statusScheduler.js:16-46 | The request at a position visited for the first time gets its goal notice there when its goal is met and its notice creation does not throw. |
| StatusScheduler.SweepNotifies | utils/statusScheduler.js:16-53 | After the sweep over distinct positions, the request at any visited position whose goal is met and whose notice creation does not throw has a goal notice. |
| StatusScheduler.SweepNotifiesLast | utils/statusScheduler.js:16-46 | The request visited last gets its goal notice when its goal is met and its notice creation does not throw. |
| StatusScheduler.SweepNotifiesEarlier | utils/statusScheduler.js:16-53 | A request visited before the last iteration still has its goal notice after it. |
| StatusScheduler.SweepLastStepKeepsNotice | utils/statusScheduler.js:34-46 | The last iteration keeps every goal notice the earlier iterations left. |
| StatusScheduler.SyncAchievedNotifies | utils/statusScheduler.js:14-53 | After a completed run, every approved funded request whose creation does not throw has a goal notice. |
| StatusScheduler.SweepKeepsValid | utils/statusScheduler.js:16-53 | The sweep keeps the tables valid. |
| StatusScheduler.SweepExtend | utils/statusScheduler.js:16-53 | Sweeping one more position is one more iteration. |
| StatusScheduler.SyncAchievedStatus | utils/statusScheduler.js:10-58 | The loop leaves the store exactly as `SyncAchieved` describes, including an abort, and keeps it valid. |
| StatusScheduler.Expired | utils/statusScheduler.js:66-72 | The delete filter: a pending entry created more than 1,200,000 ms before now. `CleanupRemovesExactly` states it. |
| StatusScheduler.Cleanup | utils/statusScheduler.js:63-80 | `cleanupPendingDonations` on the tables. `CleanupRemovesExactly`, `CleanupFailureIsNoOp`, `CleanupKeepsTotals` and `CleanupIdempotent` state its contract. |
| StatusScheduler.SweepOne | utils/statusScheduler.js:17-52 | The loop body updates the store exactly as `SweepStep` describes. |
| StatusScheduler.CleanupRemovesExactly | utils/statusScheduler.js:66-72 | Exactly the pending entries older than 1,200,000 ms are deleted; settled, failed and young entries stay; other tables are unchanged. |
| StatusScheduler.CleanupFailureIsNoOp | utils/statusScheduler.js:77-79 | A failing delete is caught and changes nothing. |
| StatusScheduler.CleanupKeepsTotals | utils/statusScheduler.js:69-72 | Cleanup never changes a request's confirmed total. |
| StatusScheduler.CleanupIdempotent | utils/statusScheduler.js:69-72 | Cleaning up twice at the same time is cleaning up once. |
| StatusScheduler.CleanupKeepsValid | utils/statusScheduler.js:63-80 | Cleanup keeps the tables valid. |
| StatusScheduler.LateWebhookNotFound | utils/statusScheduler.js:69-72 | A payment confirmed after its pending entry was cleaned up finds no entry: 404, no change. |
| StatusScheduler.CleanupPendingDonations | utils/statusScheduler.js:63-80 | The store method leaves the store exactly as `Cleanup` describes. |
| DonationRequestController.OrEmpty | controllers/donationRequestController.js:122 | `x \|\| ""` is the value when it is present and non-empty, else "". |
| DonationRequestController.GetFileUrl | controllers/donationRequestController.js:48-53 | There is no URL exactly for an absent or empty name; otherwise the URL is the upload route followed by the name. |
| DonationRequestController.FileUrlInjective | controllers/donationRequestController.js:48-53 | Different file names get different URLs. |
| DonationRequestController.ExtName | controllers/donationRequestController.js:30 | A non-empty extension is a dot-led suffix of the name with no other dot. |
| DonationRequestController.ExtNameOf | controllers/donationRequestController.js:30 | For a stem that does not start with a dot, the extension is what follows the last dot. |
| DonationRequestController.MatchesAllowed | controllers/donationRequestController.js:28-32 | The pattern matches exactly when jpeg, jpg, png or pdf occurs anywhere in the text. |
| DonationRequestController.FileFilter | controllers/donationRequestController.js:26-39 | A file is accepted exactly when both its lower-cased extension and its MIME type match. |
| DonationRequestController.FileFilterUnanchored | controllers/donationRequestController.js:28-34 | The patterns are unanchored: "scan.pdfx" with MIME type "application/pdf" is accepted. |
| DonationRequestController.FileFilterRefusesExe | controllers/donationRequestController.js:28-37 | "scan.exe" is refused whatever its MIME type. |
| DonationRequestController.NewRequest | controllers/donationRequestController.js:117-130 | A document exists exactly when age and gender cast. It is pending, uses the parsed age and trimmed fields, and absent optional fields are "". |
| Text.ParseInt | controllers/donationRequestController.js:120 | `parseInt` without a radix. A numeral of decimal digits reads as its value, and a result exists only for non-empty text. |
| Text.SignedPrefix | controllers/donationRequestController.js:120 | A numeral of decimal digits reads as its value; a result needs a character after the sign. |
| Text.UnsignedPrefix | controllers/donationRequestController.js:120 | A numeral of decimal digits reads as its value; no digit gives NaN. |
| Text.ParseIntSkipsSpace | controllers/donationRequestController.js:120 | A white-space character in front of the text does not change what `parseInt` reads. |
| Text.ParseIntHex | controllers/donationRequestController.js:120 | "0x" or "0X" followed by hexadecimal digits reads as their base-16 value. |
| Text.ParseIntDecimal | controllers/donationRequestController.js:120 | A decimal numeral not starting with 0 reads as its digits, whatever non-digit text follows. |
| Text.ParseIntLeadingBlank | controllers/donationRequestController.js:120 | " 42" reads as 42. |
| Text.ParseIntHexExample | controllers/donationRequestController.js:120 | "0x1A" reads as 26. |
| Text.ParseIntStopsAtLetter | controllers/donationRequestController.js:120 | "12abc" reads as 12. |
| Text.ParseIntBarePrefix | controllers/donationRequestController.js:120 | "0x" with no digit after it is NaN. |
| Text.Trim | models/DonationRequest.js:13 | `trim: true`: the result neither starts nor ends with ECMAScript white space, and it is empty exactly when the text is all white space. |
| DonationRequestController.SubmitGuards | controllers/donationRequestController.js:76-107 | The checks run in order: 400 for fields, 400 for files, 403 for a non-receiver. Each fires exactly when the earlier ones pass; only success writes. |
| DonationRequestController.Submit | controllers/donationRequestController.js:58-166 | The handler `submitDonationRequest` on the tables. `SubmitGuards`, `SubmitValidation`, `SubmitCreates` and `SubmitKeepsValid` state its contract. |
| DonationRequestController.SubmitValidation | controllers/donationRequestController.js:117-130 | Past the guards, a submission is stored exactly when age is 1 to 100, gender is in the enum, the number has ten digits, and the trimmed name and both files are non-empty. |
| DonationRequestController.SubmitCreates | controllers/donationRequestController.js:117-130 | A stored submission is appended as a pending request of the caller; the ledger and notices are unchanged. |
| DonationRequestController.SubmitKeepsValid | controllers/donationRequestController.js:58-166 | Submission keeps the tables valid. |
| DonationRequestController.SubmitDonationRequest | controllers/donationRequestController.js:58-166 | The store method answers and updates exactly as `Submit` does. |
| DonationRequestController.UpdateStatusEffect | controllers/donationRequestController.js:300-321 | A name outside the enum answers 400 before the lookup; an unknown id answers 404; otherwise only that request's status changes. |
| DonationRequestController.UpdateStatus | controllers/donationRequestController.js:300-341 | The admin's status update on the tables. `UpdateStatusEffect` and `AnyStatusFromAny` state its contract. |
| DonationRequestController.AnyStatusFromAny | controllers/donationRequestController.js:305-315 | There is no transition guard: any request can be set to any status. |
| DonationRequestController.UpdateStatusKeepsValid | controllers/donationRequestController.js:300-341 | A status update keeps the tables valid. |
| DonationRequestController.UpdateRequestStatus | controllers/donationRequestController.js:300-341 | The store method answers and updates exactly as `UpdateStatus` does. |
| DonationRequestController.TotalPages | controllers/donationRequestController.js:212 | There is no finite page count exactly for limit 0; for a positive limit the count is the ceiling of total / limit. |
| DonationRequestController.PagesCover | controllers/donationRequestController.js:182-212 | With a positive limit, every page up to the last starts inside the list and the next page starts past it. |
| DonationRequestController.Matching | controllers/donationRequestController.js:176-179 | The query matches every request, or exactly those whose status is the queried one. |
| DonationRequestController.AdminList | controllers/donationRequestController.js:171-213 | The admin's paged listing. `AdminListPage`, `PagesCover` and `TotalPages` state its contract. |
| DonationRequestController.AdminListPage | controllers/donationRequestController.js:171-213 | A page holds at most `limit` matching requests, newest first from the skip; the total counts every match. |
| DonationRequestController.DeleteGuards | controllers/donationRequestController.js:429-445 | 404 for an unknown id; 403 for a caller who is neither owner nor admin; neither changes anything. |
| DonationRequestController.DeleteRequest | controllers/donationRequestController.js:422-476 | The cascading delete on the tables. `DeleteGuards`, `DeleteCascade` and `DeleteKeepsValid` state its contract. |
| DonationRequestController.DeleteCascade | controllers/donationRequestController.js:461-465 | Delete removes the request and exactly its related notices; other requests and notices stay; the ledger is untouched. |
| DonationRequestController.DeleteKeepsValid | controllers/donationRequestController.js:422-476 | Deletion keeps the tables valid. |
| DonationRequestController.DeleteDonationRequest | controllers/donationRequestController.js:422-476 | The store method deletes notices and then the request, exactly as `DeleteRequest` describes. |
| DonationRequestController.ReceiverDetailsTotals | controllers/donationRequestController.js:384-402 | 404 exactly when the caller owns no such request. Otherwise the total is the confirmed total and the count is the number of `success` entries. |
| DonationRequestController.ReceiverRequestDetails | controllers/donationRequestController.js:384-402 | The receiver's view of their own request. `ReceiverDetailsTotals` and `ReceiverAgreesWithAdmin` state its contract. |
| DonationRequestController.ReceiverAgreesWithAdmin | controllers/donationRequestController.js:391-395 | On a valid ledger the receiver's total equals the admin summary's total. |
| DonationRequestController.AcceptedRequestsExactly | controllers/donationRequestController.js:553 | The public list holds exactly the approved requests. |
| DonationRequestController.AcceptedRequests | controllers/donationRequestController.js:553-555 | The approved requests, newest first. `AcceptedRequestsExactly` states its contract. |
| DonationRequestController.PublicRequest | controllers/donationRequestController.js:604-608 | A shown request exists, has the id and is approved. |
| DonationRequestController.PublicRequestApprovedOnly | controllers/donationRequestController.js:606-608 | The public page exists exactly when the request is approved, and it is then in the public list. |
| NotificationController.LatestNotificationsNewest | controllers/notificationController.js:8-10 | The inbox holds the newest min(n, 50) notices, newest first; every omitted notice is no newer than every shown one. |
| NotificationController.LatestNotifications | controllers/notificationController.js:8-10 | The inbox query. `LatestNotificationsNewest` states its contract. |
| NotificationController.MarkReadEffect | controllers/notificationController.js:27-35 | 404 exactly for an unknown id, with no change; otherwise only `isRead` of that notice becomes true, and it is returned. |
| NotificationController.MarkRead | controllers/notificationController.js:25-45 | `markAsRead` on the tables. `MarkReadEffect`, `MarkReadIdempotent` and `MarkReadKeepsValid` state its contract. |
| NotificationController.MarkReadIdempotent | controllers/notificationController.js:27-31 | Marking a notice read twice is marking it once. |
| NotificationController.MarkReadKeepsValid | controllers/notificationController.js:25-45 | Marking read keeps the tables valid. |
| NotificationController.MarkAsRead | controllers/notificationController.js:25-45 | The store method answers and updates exactly as `MarkRead` does. |
| NotificationController.DeleteNoticeEffect | controllers/notificationController.js:52-56 | 404 exactly for an unknown id, with no change; otherwise exactly that notice is gone and every other stays. |
| NotificationController.DeleteNotice | controllers/notificationController.js:50-65 | `deleteNotification` on the tables. `DeleteNoticeEffect` and `DeleteNoticeKeepsValid` state its contract. |
| NotificationController.RemoveNoticeMembers | controllers/notificationController.js:52-56 | With unique ids, removing the notice with a given id keeps exactly the notices with other ids. |
| NotificationController.DeleteNoticeKeepsValid | controllers/notificationController.js:50-65 | Deleting a notice keeps the tables valid. |
| NotificationController.DeleteNotification | controllers/notificationController.js:50-65 | The store method answers and updates exactly as `DeleteNotice` does. |
| AuthController.FindByEmail | controllers/authController.js:28 | The lookup finds an account with the email, or reports that none has it. |
| AuthController.FindByEmailUnique | controllers/authController.js:28-32 | With distinct emails, an account's email finds that account. |
| AuthController.RegisterEffect | controllers/authController.js:23-46 | 400 exactly for a missing field; 400 exactly for a taken email; neither creates an account; otherwise the account is appended with the hashed password and no reset code. |
| AuthController.Register | controllers/authController.js:17-63 | `registerUser` on the accounts. `RegisterEffect` and `RegisterKeepsValid` state its contract. |
| AuthController.RegisterKeepsValid | controllers/authController.js:17-63 | Registration keeps ids and emails unique. |
| AuthController.LoginSpec | controllers/authController.js:75-87 | Login succeeds exactly when an account with that email accepts the password, and answers that account's id. |
| AuthController.Login | controllers/authController.js:68-92 | `loginUser` on the accounts. `LoginSpec` and `RegisterThenLogin` state its contract. |
| AuthController.RegisterThenLogin | controllers/authController.js:35-77 | When the compare accepts what was hashed, a new account logs in with its password. |
| AuthController.OtpCode | controllers/authController.js:112 | The code lies between 100000 and 999999. |
| AuthController.OtpHasSixDigits | controllers/authController.js:112 | The code's text is six digits. |
| AuthController.ForgotEffect | controllers/authController.js:101-150 | 400 without an email; 404 for an unknown one; otherwise only that account's reset fields change: the code and now + 600000, or both cleared when the mail fails. |
| AuthController.Forgot | controllers/authController.js:97-155 | `forgotPassword` on the accounts. `ForgotEffect`, `ForgotKeepsValid` and `MailFailureVoidsOtp` state its contract. |
| AuthController.ForgotKeepsValid | controllers/authController.js:97-155 | The reset request keeps ids and emails unique. |
| AuthController.ResetEffect | controllers/authController.js:164-186 | 400 for a missing field. Success exactly when the account with the email holds the code with an expiry after now. A refusal changes nothing; success changes only that account's password and clears its reset fields. |
| AuthController.Reset | controllers/authController.js:160-193 | `resetPassword` on the accounts. `ResetEffect`, `ResetKeepsValid`, `ResetSingleUse` and `ForgotThenReset` state its contract. |
| AuthController.ResetKeepsValid | controllers/authController.js:160-193 | A reset keeps ids and emails unique. |
| AuthController.ResetSingleUse | controllers/authController.js:183-186 | After a successful reset, the same code is refused at any time. |
| AuthController.ForgotThenReset | controllers/authController.js:112-171 | The mailed code resets the password exactly before now + 600000. |
| AuthController.MailFailureVoidsOtp | controllers/authController.js:143-146 | After a failed mail, no code resets that account's password. |
| AuthController.Accounts.RegisterUser | controllers/authController.js:17-63 | The class method answers and updates exactly as `Register` does. |
| AuthController.Accounts.ForgotPassword | controllers/authController.js:97-155 | The class method saves the code and expiry, then clears both if the mail fails, exactly as `Forgot` describes. |
| AuthController.Accounts.ResetPassword | controllers/authController.js:160-193 | The class method answers and updates exactly as `Reset` does. |

## Left out

- Money is `real`. IEEE floating-point rounding is not modelled, and neither is `Number(d.amount) || 0` for non-numeric amounts: a stored amount is always a number.
- PaymentController.GatewayAmount: `Math.round` is modelled on reals, with halves rounded up; the float error in `x * 100` is not.
- `parseFloat(amount)` on arbitrary text is an input of type `Option<real>`, with None for NaN. `parseFloat` on the sanitised goal is modelled in full, because the goal text has only digits and dots.
- The reconciliation operations read the goal as the code does, with `Goal.GoalAsWritten`. The corrected reading `Goal.GoalAmount` stands beside it, with its properties proved (see Findings).
- Case mapping (`toUpperCase`, `toLowerCase`) covers ASCII letters only. `trim` and the blank-skipping of `parseInt` use the full ECMAScript white-space set.
- Text.ParseInt: the result is an exact integer. The rounding of numerals beyond 2^53 to the nearest double is not modelled.
- The free-text `message` a donor may attach to a donation (controllers/donationController.js:51, controllers/paymentController.js:37) is not stored in the model's entries. No rule reads it.
- JavaScript's number-to-text conversion in the notice messages is the parameter `fmt`.
- The gateway, the exchange-rate service, mail delivery, bcrypt, JWT signing, the multer disk storage with its random file names and file unlinking, and cron scheduling are outside the model. Each appears only through its outcome, as a parameter.
- DonationController.Donate: a store error after `Donation.create`, in the request's status save, is not modelled. The source then answers 500 but keeps the new entry, so a client retry can record the donation twice.
- PaymentController.Webhook: a store error after the entry's `save()`, in the request's status save, is not modelled. The source then answers 500 but keeps the settled entry.
- Concurrency between the direct path, the webhook and the scheduler is not modelled. Each handler call is one atomic step over the tables.
- The webhook route is not mounted by the server. `handleWebhook` is modelled as written, and nothing is claimed about it being reachable.
- StatusScheduler.SyncAchieved: a store error is modelled as aborting at the start of an iteration (`abortAt`). An error between the status save and the notice lookup is not modelled separately.
- PaymentController.Webhook: the thank-you email has its own catch and changes nothing, so it is left out. A notice lost to a failure on the first delivery is never recreated, because a retry finds the entry settled (`RedeliveryIsNoOp`).
- The table order is taken as the creation order. `sort({ createdAt: -1 })` is therefore modelled as reversing the table.
- DonationRequestController.ExtName models `path.extname` on a file name without directory parts.
- DonationRequestController.AdminList: `page` and `limit` are integers. Query-string parsing (`parseInt` giving NaN) is not modelled. A limit of 0 is taken as "no limit", and a negative limit as its absolute value, following the database driver.
- The `populate` joins and the `select("-userId")` projection are not modelled. Views return the stored records.
- The read-only endpoints outside the named core are not modelled: a donor's history, the list of all donations, a receiver's own list, the single-request admin view, the donor list and the donation-status view.
- AuthController.Login: the email and the password are strings. A missing `username` field, which makes the lookup match on an undefined email, is not modelled. Neither is a missing password, which makes the hash comparison throw so that the source answers 500.
- The user schema is not part of this model. The fields of `AuthController.User` are those the auth controller reads and writes.
- The contact form controller and its model are not modelled: they are a field-presence check over a separate collection.
- `Db.Store` ids come from one counter shared by all tables, standing in for generated document ids.

The handlers follow the code where it differs from the documented intent: the goal is read as written
(see Findings), and in the scheduler, the `try` encloses the whole loop, so one store error ends the
sweep for all remaining requests (`StatusScheduler.SweptCount`). Only a
failure to create the notification is caught per request.

## Findings

| source | as written | input that shows it | evidently intended | confidence | as-written member | corrected member |
|---|---|---|---|---|---|---|
| controllers/donationController.js:62 | The sanitiser keeps every dot, so the dot of a currency label becomes a decimal point (the same line recurs at controllers/paymentController.js:137 and utils/statusScheduler.js:25). | goal "Rs. 5,000" sanitises to ".5000", which reads as 0.5, so a donation of 1 marks the request achieved | the label is ignored and the goal reads as 5000 | not executed | Goal.LabelledGoalAsWritten | Goal.LabelIgnored |

The handlers keep the reading as written. `Db.LabelledGoalReachedEarly` shows a request labelled "Rs. 5,000" funded by half a rupee. The corrected reading is `Goal.GoalAmount`. `Goal.LabelIgnored` proves that it ignores the label, and `Goal.CorrectionAgrees` proves that it agrees with the code's reading on every goal whose sanitised text does not open with a dot.
