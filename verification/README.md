# Memberships: a Dafny model

The repository holds two membership-sync services written in Go.

- **The Zapier service** (`webhook.go`, `db.go`, `models.go`):
  - receives payment events that Zapier relays;
  - turns the free-text status and anonymity fields into stored values;
  - checks the shared secret;
  - finds or creates the member by normalised e-mail;
  - keeps a status history;
  - answers read queries: listings, recent members, a status map and statistics.
- **The PayPal service** (`main.go`):
  - receives PayPal subscription and sale webhooks;
  - maintains `members`, `subscription_history` (one row per subscription id) and `payments` (one row per transaction id);
  - enforces UNIQUE constraints on e-mail, payer id, current subscription id, history subscription id and transaction id.

Each SQL statement is modelled as a pure function on an immutable store:

- a table is a `seq` of rows, and a row's id is its position plus one, as a SERIAL column gives when no insert has failed (see Left out);
- a `SELECT ... LIMIT 1` without `ORDER BY` returns the first matching row in table order;
- the time a statement runs is a parameter `now`;
- JSON decoding, base64 decoding and PayPal's signature check are function or boolean parameters.

Modules:

| module | file | models |
|---|---|---|
| `Wrappers` | wrappers.dfy | `Option`, `Result` |
| `Strings` | strings.dfy | the Go `strings` functions the services call: `ToLower`, `TrimSpace`, `Contains`, `TrimPrefix`, `SplitN(s, ":", 2)` |
| `ZapierModels` | zapier_models.dfy | models.go records |
| `ZapierDb` | zapier_db.dfy | `ProcessMember`, `UpdateMemberStatus` and the invariant of the Zapier store |
| `ZapierQueries` | zapier_queries.dfy | `GetMembers`, `GetRecentMembers`, `GetAllMemberStatuses`, `GetStats` |
| `ZapierWebhook` | zapier_webhook.dfy | `convertStatus`, `convertAnonymous`, `isAuthorized`, `webhookHandler` |
| `PayPalEvents` | paypal_events.dfy | the webhook event record and the handled event types |
| `PayPalStore` | paypal_store.dfy | the three PayPal tables, the UNIQUE/REFERENCES invariant, `LIMIT 1` lookup |
| `PayPalActivation` | paypal_activation.dfy | `handleSubscriptionActivated` |
| `PayPalLifecycle` | paypal_lifecycle.dfy | the cancel, suspend and reactivate handlers |
| `PayPalPayments` | paypal_payments.dfy | `handlePaymentCompleted` |
| `PayPalWebhook` | paypal_webhook.dfy | `processWebhookEvent`, `webhookHandler` |

## Model

| member | source | states |
|---|---|---|
| Strings.ToLower | webhook.go:180 | keeps the length; every character is the lower-case of the input's character at the same position |
| Strings.ToLowerIdempotent | webhook.go:196 | lower-casing twice is lower-casing once |
| Strings.TrimSpace | webhook.go:196 | the result is no longer than the input and neither starts nor ends with white space (`unicode.IsSpace`) |
| Strings.TrimSpacePadding | db.go:40 | white space around a text without outer spaces is removed and nothing else is |
| Strings.TrimSpaceIdempotent | db.go:40 | trimming twice is trimming once |
| Strings.TrimSpaceLower | db.go:40 | trimming and lower-casing commute |
| Strings.ContainsIffOccurs | webhook.go:182-187 | `Contains(s, w)` holds exactly when `w` occurs at some position of `s` |
| Strings.ContainsCharsFail | webhook.go:182-187 | a text lacking one character of a word does not contain the word |
| Strings.TrimPrefix | webhook.go:163 | removes the prefix when present and otherwise leaves the text alone |
| Strings.SplitFirst | webhook.go:164 | one part when there is no ':'; otherwise the text before the first ':' (which holds no ':') and everything after it |
| Strings.SplitFirstJoin | main.go:201-202 | splitting `a + ":" + b`, with `a` free of ':', gives exactly `a` and `b`, so `b` may hold ':' |
| ZapierDb.NormalizeEmail | db.go:40 | the result is empty or a stored e-mail: lower-case and with no surrounding white space |
| ZapierDb.StoredEmailIsNormal | db.go:40 | stored e-mails are exactly the non-empty fixed points of normalisation |
| ZapierDb.NormalizeEmailIdempotent | db.go:40 | normalising twice is normalising once |
| ZapierDb.NormalizeEmailExample | db.go:40 | "A@B.com " and "a@b.com" reach the same member, "a@b.com" |
| ZapierDb.FindByEmail | db.go:53-56 | finds the first row holding the e-mail, or reports that no row holds it |
| ZapierDb.FindByEmailUnique | db.go:53-56 | in a valid store, each member's e-mail finds that member |
| ZapierDb.CreateMember | db.go:58-76 | the insert appends exactly one row after the unchanged existing rows, with the next id, the e-mail, name, flag and status as given and both dates now, and appends one history entry with that id and the initial status |
| ZapierDb.CreateMemberFacts | db.go:58-76 | the insert keeps every existing row's id, e-mail and first-seen date, the new e-mail is found at the appended row, and the invariant is kept |
| ZapierDb.CreateKeepsValid | db.go:58-76 | inserting an unseen stored e-mail keeps ids, e-mails and history references valid |
| ZapierDb.UpdateMember | db.go:78-103 | only the updated row changes; it keeps its id, e-mail and first-seen date, takes the flag, status and time; the name is kept for an anonymous event or an empty name and replaced otherwise; one history entry with the member's id is appended exactly when the status changes |
| ZapierDb.UpdateMemberFacts | db.go:78-103 | the update keeps every row's id, e-mail and first-seen date, the e-mail still finds the same row, and the invariant is kept |
| ZapierDb.SameColumnsKeepValid | db.go:78-91 | a change that keeps every id and e-mail keeps the store valid |
| ZapierDb.ProcessMember | db.go:39-115 | fails with "email is required" exactly when the trimmed, lower-cased e-mail is empty; otherwise that e-mail's member exists and holds the event's status and flag; history only grows, by at most one; the invariant is kept |
| ZapierDb.ProcessMemberCreates | db.go:47-76 | an unseen e-mail appends one member, whose name is "" when anonymous, and exactly one history entry with the initial status |
| ZapierDb.ProcessMemberUpdates | db.go:78-103 | a known e-mail overwrites flag and status; the name is kept when the event is anonymous or carries no name; one history entry is added exactly when the status differs |
| ZapierDb.AnonymousEventKeepsName | db.go:82-84 | an anonymous event never changes a stored name |
| ZapierDb.ProcessMemberNeverClearsName | db.go:80-86 | a stored non-empty name is never cleared |
| ZapierDb.ProcessMemberFrame | db.go:90 | members holding other e-mails are untouched |
| ZapierDb.ProcessMemberRepeat | db.go:78-103 | a repeat of a successful event at any time succeeds, adds no history and changes nothing but the member's `last_updated`, which becomes the repeat's time |
| ZapierDb.ProcessMemberIdempotent | db.go:97-103 | a repeat at the same instant changes nothing, history included |
| ZapierDb.RepeatedEventRecordsOneTransition | db.go:58-103 | two identical first events, at any two times, leave exactly one history entry |
| ZapierDb.SetStatusWhere | db.go:227-231 | rows holding the e-mail get the status and the update time; all other rows are unchanged |
| ZapierDb.UpdateMemberStatus | db.go:224-253 | an unknown e-mail is "member not found" and changes nothing; otherwise only that member's status and time change, and one history entry is appended even when the status is unchanged |
| ZapierDb.SetStatusFacts | db.go:227-250 | the update plus the history insert keep the store valid and append one entry for the matched member |
| ZapierDb.UpdateMemberStatusBlankEmail | db.go:225 | a blank e-mail never names a member of a valid store |
| ZapierQueries.Select | db.go:161-164 | the rows kept are exactly those matching the filter; an empty filter matches every row |
| ZapierQueries.SelectSubMultiset | db.go:161-164 | selection repeats no row: each row is selected at most as often as the table holds it |
| ZapierQueries.SelectAppend | db.go:161-164 | selection commutes with concatenation, so together with SelectSingle it is the order-preserving filter |
| ZapierQueries.SelectSingle | db.go:161-164 | a single row is kept exactly when it matches the filter |
| ZapierQueries.SelectUnfiltered | db.go:161-164 | with no filter, every row is selected in order |
| ZapierQueries.SortNewestFirst | db.go:166 | `ORDER BY last_updated DESC`: a newest-first permutation of the rows |
| ZapierQueries.TakeNewest | db.go:166 | `LIMIT n` after the sort: `min(n, rows)` rows, newest first, a sub-multiset of the input, so no row is taken twice |
| ZapierQueries.TakeNewestTopK | db.go:166 | a row left out is no newer than every row taken, and the limit was reached |
| ZapierQueries.TakeNewestComplete | db.go:166 | a limit covering every row takes every row |
| ZapierQueries.ListingOf | db.go:185-195 | the listing carries a name exactly for a non-anonymous member whose name is not NULL |
| ZapierQueries.GetMembers | db.go:154-201 | a negative limit is an error; otherwise `min(limit, matches)` entries, newest first, each one a matching member's listing; in a valid store no e-mail is listed twice |
| ZapierQueries.GetMembersTopK | db.go:161-166 | a matching member that is left out is no newer than any entry, and the limit is full |
| ZapierQueries.GetMembersComplete | db.go:161-166 | with a large enough limit, every matching member is listed |
| ZapierQueries.RecentOf | db.go:285-293 | the entry carries a name exactly when the stored name is non-empty, whether or not the member is anonymous |
| ZapierQueries.GetRecentMembers | db.go:261-299 | a negative limit is an error; otherwise `min(limit, members)` entries, newest first, each one a member's projection; in a valid store no e-mail appears twice |
| ZapierQueries.GetRecentMembersTopK | db.go:262-269 | a member that is left out is no newer than any entry, and the limit is full |
| ZapierQueries.GetRecentMembersComplete | db.go:261-299 | with a large enough limit, every member appears |
| ZapierQueries.AnonymousNameExposure | db.go:193-195 | an anonymous member's name is hidden by the listing but shown by the recent-members view |
| ZapierQueries.GetAllMemberStatuses | db.go:204-221 | every member's lower-cased e-mail is a key, and every key maps to the status of some member with that key |
| ZapierQueries.LastWriterWins | db.go:216 | a row whose lower-cased e-mail no later row repeats is reported with its own status, so the last writer wins |
| ZapierQueries.StatusesOfValidStore | db.go:204-221 | in a valid store each member's own e-mail maps to its own status |
| ZapierQueries.StatusesAfterProcessMember | db.go:39-115 | after a successful event the map reports the event's status for its e-mail |
| ZapierQueries.CountStatus | db.go:135-143 | `COUNT(*) ... WHERE status = s` is the number of row positions holding status `s` |
| ZapierQueries.CountAnonymous | db.go:145-148 | `COUNT(*) ... WHERE is_anonymous = true` is the number of row positions holding an anonymous member |
| ZapierQueries.MatchingGrows | db.go:135-148 | appending a row adds one to a count exactly when the row matches |
| ZapierQueries.CountStatusIsSelection | db.go:135-143 | counting the rows of a status equals the number of rows the status filter selects |
| ZapierQueries.CountTwoStatuses | db.go:135-143 | the active and cancelled counts never exceed the total |
| ZapierQueries.GetStats | db.go:127-151 | the total is the number of members; active, cancelled and anonymous are the numbers of rows with that status or flag; active plus cancelled is bounded by the total |
| ZapierQueries.StatsAgreeWithListing | db.go:127-166 | with a limit covering the store, the listing filtered by active (cancelled) has as many entries as the active (cancelled) count |
| ZapierQueries.StatsAfterCreate | db.go:58-76 | creating a member adds one to the total and one to its status's count |
| ZapierWebhook.ConvertStatus | webhook.go:179-192 | the result is always "active", "cancelled" or "suspended" |
| ZapierWebhook.ConvertStatusLadder | webhook.go:182-191 | first match wins. A success keyword gives active even beside failure keywords. A failure keyword without a success keyword gives cancelled. A pause keyword with neither gives suspended. No keyword gives active |
| ZapierWebhook.ConvertStatusIgnoresCase | webhook.go:180 | inputs with the same lower-case form map alike |
| ZapierWebhook.ConvertStatusOfLower | webhook.go:180 | the mapping depends only on the lower-cased input |
| ZapierWebhook.ConvertStatusInactive | webhook.go:182-183 | "Inactive" → active |
| ZapierWebhook.ConvertStatusRefundCancelled | webhook.go:184-185 | "Refund - Cancelled" → cancelled |
| ZapierWebhook.ConvertStatusPending | webhook.go:186-187 | "Pending" → suspended |
| ZapierWebhook.ConvertStatusUnknown | webhook.go:190-191 | "foobar" → active |
| ZapierWebhook.ConvertStatusSucceeded | webhook.go:182-183 | "Payment Succeeded" → active |
| ZapierWebhook.ConvertStatusFailed | webhook.go:184-185 | "Failed" → cancelled |
| ZapierWebhook.ConvertAnonymous | webhook.go:195-198 | "true", "yes" and "1", in any letter case and without padding, give true; an empty or all-space text gives false |
| ZapierWebhook.ConvertAnonymousPadding | webhook.go:195-198 | with any white-space padding, the flag is true exactly when the lower-cased core text is "true", "yes" or "1" |
| ZapierWebhook.ConvertAnonymousIgnoresCase | webhook.go:196 | letter case never matters |
| ZapierWebhook.ConvertAnonymousPaddedYes | webhook.go:195-198 | " YES " → true |
| ZapierWebhook.ConvertAnonymousNotY | webhook.go:195-198 | "y" → false |
| ZapierWebhook.ConvertAnonymousWord | webhook.go:195-198 | "True" → true and "false" → false |
| ZapierWebhook.HeaderGet | webhook.go:154 | a header the request lacks reads as "" |
| ZapierWebhook.IsAuthorized | webhook.go:153-176 | authorised exactly when one of three checks passes: the Bearer token, the Basic credentials or the X-Webhook-Secret header |
| ZapierWebhook.BasicMatchesIff | webhook.go:162-167 | for any header starting with `Basic `, the check passes exactly when the decoded rest is `user:rest`, with no ':' in `user`, and either part is the secret |
| ZapierWebhook.CredentialSlotsIff | webhook.go:164-166 | splitting at the first ':' puts the secret in a slot exactly when it sits on either side of that ':' |
| ZapierWebhook.BasicPasswordMayHoldColon | webhook.go:164-165 | a secret containing ':' still matches in the password slot |
| ZapierWebhook.EmptySecretAdmitsAnyone | webhook.go:171-173 | with an empty secret, any request lacking X-Webhook-Secret is authorised |
| ZapierWebhook.Reconcile | webhook.go:119-131 | when processing succeeds the store is its result, when it fails the store is unchanged; a blank e-mail changes nothing; the invariant is kept |
| ZapierWebhook.WebhookHandler | webhook.go:84-135 | 405 for a non-POST request before any auth check; 401 when unauthorised; 400 when the body is unreadable or unparseable; otherwise 200, with the payload's event reconciled into the store; every non-200 answer leaves the store unchanged |
| ZapierWebhook.AcceptedWebhookRecorded | webhook.go:119-135 | after a 200 for a usable e-mail, that member is in the store with the converted status and anonymity and the request time, and no member or history row is lost |
| ZapierWebhook.BlankEmailStillAcknowledged | webhook.go:127-134 | an event the store rejects is still answered 200 and changes nothing |
| ZapierWebhook.ScenarioFirstEvent | webhook.go:119-131 | "A@B.com " paying anonymously as Jane creates `a@b.com`, active, anonymous, with the name stored as '' (not NULL) and one history entry |
| ZapierWebhook.ScenarioStoreValid | db.go:40 | the scenario's store satisfies the invariant |
| ZapierWebhook.ScenarioSecondEvent | webhook.go:119-131 | a later "Failed" event for the same address cancels the member and adds exactly one history entry |
| PayPalStore.FirstWhere | main.go:217-222 | `LIMIT 1` without `ORDER BY` returns the first row in table order that satisfies the condition, or none when no row does |
| PayPalStore.SameKeysKeepValid | main.go:140-142 | changes that leave the UNIQUE columns and the references alone keep the store valid |
| PayPalActivation.ReferrerSplit | main.go:199-204 | the split gives the tag "referrer" and a rest exactly when the custom id starts with "referrer:", and the rest is everything after it |
| PayPalActivation.ReferrerOf | main.go:197-205 | the referrer is what follows "referrer:", or "" for any other custom id |
| PayPalActivation.ReferrerMayHoldColons | main.go:201-202 | "referrer:a:b" names "a:b"; "ref:a" names nobody |
| PayPalActivation.UpdatedMember | main.go:229-244 | subscription, status "active", amount and time are overwritten; id, e-mail, referrer and creation time are kept |
| PayPalActivation.NewMember | main.go:259-272 | the inserted row holds the lower-cased e-mail, the payer id as sent ('' included), the subscription, status "active", the amount or the default "10.00", the referrer from the custom id, and both dates now |
| PayPalActivation.RecordActivation | main.go:288-298 | the upsert leaves the history row of the subscription "active" and open; an existing row keeps its member and start time; a new row belongs to the given member and starts now; other rows are untouched |
| PayPalActivation.RecordActivationKeepsValid | main.go:288-298 | the upsert keeps the store valid |
| PayPalActivation.Activate | main.go:192-302 | on success: at most one member is added, payments are unchanged, the subscription's history row is active and open, every other history row is untouched, and the invariant is kept |
| PayPalActivation.UpdateKeepsValid | main.go:229-254 | an update that passes the UNIQUE checks keeps the store valid |
| PayPalActivation.InsertKeepsValid | main.go:259-285 | an insert that passes the UNIQUE checks keeps the store valid |
| PayPalActivation.ActivationCreates | main.go:255-298 | an unknown member is inserted with every value as sent: lower-cased e-mail, default amount, referrer; payments are unchanged and the history gains or reopens the subscription's row, a new row belonging to the new member and starting now. It fails exactly when another member holds the payer id, '' included, or the subscription |
| PayPalActivation.ActivationUpdates | main.go:213-298 | a matched member is rewritten and no other member changes: subscription, status "active", amount (or the default) and update time are overwritten; id, e-mail, referrer and creation time are kept; an empty payer id or name keeps the stored one; payments are unchanged and the history gains or reopens the subscription's row, a new row belonging to that member and starting now. It fails exactly when the new payer id or the subscription is held elsewhere |
| PayPalActivation.EmptyPayerIdCollides | main.go:141 | a new e-mail without a payer id fails once any member holds '' |
| PayPalActivation.ActivatedRow | main.go:215-222 | after success, the lookup finds the activated row, which holds the subscription and the payer id |
| PayPalActivation.ActivationRepeat | main.go:192-302 | a repeated activation succeeds, adds no member and leaves the history unchanged |
| PayPalLifecycle.SetStatusWhere | main.go:308-313 | rows on the subscription get the status and time; other rows are unchanged |
| PayPalLifecycle.UpdateHistory | main.go:326-330 | only the subscription's history row changes: status set, `ended_at` set, kept or cleared as asked |
| PayPalLifecycle.ChangeSubscription | main.go:305-334 | with no member on the subscription, nothing changes, history included; otherwise only holders and that row change, and the invariant is kept |
| PayPalLifecycle.Cancel | main.go:305-334 | holders become "cancelled" and no other member or payment changes; the history row is cancelled and ended now |
| PayPalLifecycle.Suspend | main.go:337-366 | holders become "suspended" and no other member or payment changes; the history row keeps its `ended_at` |
| PayPalLifecycle.Reactivate | main.go:369-398 | holders become "active" and no other member or payment changes; the history row is active with `ended_at` cleared |
| PayPalLifecycle.ChangeSubscriptionFrame | main.go:312 | members on other subscriptions and other history rows are untouched |
| PayPalLifecycle.CancelThenReactivate | main.go:305-398 | cancelling then reactivating leaves the member active and its history row open |
| PayPalLifecycle.CancelIdempotent | main.go:305-334 | cancelling twice at the same moment equals cancelling once |
| PayPalPayments.PayerOf | main.go:403-411 | payer id and e-mail come from `payer` when it has a payer id, else from `payer_info`, else are empty |
| PayPalPayments.SubscriptionFor | main.go:413-426 | the billing agreement id when present; otherwise the subscription of the first member with the payer's lower-cased e-mail, or "" when there is none or it is NULL |
| PayPalPayments.SubscriptionForStable | main.go:413-426 | the lookup reads only e-mails and subscriptions |
| PayPalPayments.FillPayerAsWrittenRows | main.go:430-436 | the statement as written, row by row: selected rows get the update time and only a NULL payer id is replaced, so '' stays ''; other rows are unchanged |
| PayPalPayments.FillPayerAsWritten | main.go:430-440 | the statement as written, rejected as a whole when it would duplicate a payer id; payer-id uniqueness is kept |
| PayPalPayments.FillAsWrittenKeepsEmpty | main.go:430-436 | a selected member whose payer id is '' keeps '' while its update time changes |
| PayPalPayments.FillAsWrittenRepeats | main.go:430-436 | the statement as written is not idempotent: each repeat touches the '' row again |
| PayPalPayments.FillAsWrittenRefill | main.go:430-440 | repeating the statement as written changes no payer id, only update times |
| PayPalPayments.FillPayerRows | main.go:430-436 | the intended fill (see Findings): every selected row, NULL or '', receives the payer id; other rows are unchanged |
| PayPalPayments.FillPayer | main.go:430-440 | the intended fill, rejected as a whole when it would duplicate a payer id; payer-id uniqueness is kept |
| PayPalPayments.FillPayerFillsEmpty | main.go:430-436 | after the intended fill, every selected member holds the payer id and none is left for selection |
| PayPalPayments.FillPayerIdempotent | main.go:430-436 | a second intended fill changes nothing, not even the update time |
| PayPalPayments.FillFor | main.go:428-441 | the fill as written runs only when both a payer id and a subscription are known; a changed row was selected, gains the payer id only if it was NULL, and gets the time |
| PayPalPayments.FillForCorrected | main.go:428-441 | the intended fill under the same guard; a changed row was selected and gains the payer id and the time |
| PayPalPayments.FillForRefill | main.go:428-441 | repeating the guarded fill as written changes only update times |
| PayPalPayments.RecordPayment | main.go:457-469 | `ON CONFLICT (transaction_id) DO NOTHING`: a known transaction id changes nothing; otherwise one entry is added |
| PayPalPayments.PaymentsAfter | main.go:443-469 | no member found means no payment; otherwise the payment is recorded against the first member holding the subscription or payer id; a new payment is only under the event's transaction id |
| PayPalPayments.PaymentsAfterStable | main.go:443-469 | repeating the insert against members that differ only in update times adds nothing |
| PayPalPayments.PaymentCompleted | main.go:401-478 | the handler as written: only payer ids and update times change, history is unchanged, payments only grow by the event's transaction id, and the invariant is kept |
| PayPalPayments.PaymentCompletedCorrected | main.go:401-478 | the handler with the intended fill (see Findings), with the same guarantees |
| PayPalPayments.PaymentKeepsValid | main.go:140-168 | a change of payer ids that keeps them unique, plus well-referenced new payments, keeps the store valid |
| PayPalPayments.DuplicateTransactionIgnored | main.go:466 | a recorded transaction id adds no second payment |
| PayPalPayments.UnknownSaleChangesNothing | main.go:443-455 | a sale whose subscription and payer id nobody holds changes nothing at all |
| PayPalPayments.FirstWhereSame | main.go:443-448 | the lookup depends only on the columns the condition reads |
| PayPalPayments.RedeliveryAddsNoPayment | main.go:401-478 | with the handler as written, a redelivered sale adds no payment and changes no payer id or history; at most update times move |
| PayPalPayments.AsWrittenRedeliveryDiffers | main.go:430-436 | with the handler as written, when the subscription's holder has payer id '', a redelivery at another time yields a different store |
| PayPalPayments.EmptyKeysMatchEmptyPayerId | main.go:443-448 | a sale with neither payer id nor billing agreement is booked to the first member whose payer id is '' |
| PayPalPayments.PaymentRecordedForHolder | main.go:428-469 | with the handler as written, a sale on a held subscription whose payer id no one else holds is booked to the holder; the holder gains the payer id only if it had NULL and otherwise keeps its own, '' included |
| PayPalPayments.FillOnlyHolder | main.go:428-441 | with unique subscriptions, the fill as written touches only the holder, replaces only a NULL payer id, and is not rejected |
| PayPalPayments.CorrectedPaymentIdempotent | main.go:401-478 | with the intended fill (see Findings), delivering the same sale twice equals delivering it once |
| PayPalPayments.CorrectedPaymentFillsHolder | main.go:428-469 | with the intended fill, a holder whose payer id is NULL or '' receives the sale's payer id and the payment |
| PayPalPayments.CorrectedFillOnlyHolder | main.go:428-441 | with the intended fill and an unclaimed payer id, only the holder changes and the fill is not rejected |
| PayPalWebhook.ProcessWebhookEvent | main.go:590-612 | each of the five handled types goes to its own handler (a sale to the handler as written); other types change nothing; only an activation can fail; only an activation adds members; only a sale adds payments; the invariant is kept |
| PayPalWebhook.WebhookHandler | main.go:533-587 | 405 for a non-POST request; 400 when the body is unreadable or not JSON; otherwise 200 with the processed store, even when processing fails, in which case the store is unchanged; the invariant is kept |
| PayPalWebhook.SignatureIgnored | main.go:568-576 | the signature check's answer never changes the outcome |
| PayPalWebhook.FailedActivationAcknowledged | main.go:578-586 | a rejected activation is still answered 200 and changes nothing |
| PayPalWebhook.RedeliveredSale | main.go:578-586 | a redelivered sale is answered 200 again, adds no payment and changes no payer id or history; at most update times move |

## Left out

- HTTP plumbing is left out: routing, middleware, server start-up, and the health, stats and list-members handlers with their JSON encoding. Only the status-code decision of each webhook handler is modelled.
- Logging, including `LogWebhook` and the raw-payload table it writes, is left out: it is write-only and nothing reads it back.
- PayPal signature verification and the OAuth token request are left out because they are network calls. Their answer is the boolean `signatureValid`, which the handler ignores, as main.go does.
- Environment and configuration loading, connection setup and the DDL are left out. Only the UNIQUE and REFERENCES constraints are kept, as the invariant `PayPalStore.Valid` and as error paths.
- Clock readings (`CURRENT_TIMESTAMP`, `CURRENT_DATE`) are a parameter `now`. Date truncation and time formatting are not modelled.
- Base64 decoding is a parameter `decode`, which stands for whatever the decoder yields, "" on bad input included. JSON decoding is a parameter `parse`, where `None` means the body did not parse.
- Request headers are a map holding the first value of each header, which is the only value `Header.Get` reads. Later values of a repeated header are not modelled.
- Strings.ToLower: maps only the ASCII letters A-Z, while Go's `strings.ToLower` lower-cases every Unicode letter.
- Database failures are not modelled: connection errors, `VARCHAR` length overflows, and `DECIMAL` conversion of the amount text. The amount is kept as opaque text.
- The read-then-write race between a lookup and the following write is concurrency and is left out.
- The monthly revenue sum in the PayPal stats handler is floating-point aggregation over SQL and is left out.
- Table order: a `SELECT ... LIMIT 1` without `ORDER BY`, and the unordered scan in `GetAllMemberStatuses` (db.go:205), are modelled as visiting rows in insertion order. PostgreSQL does not promise that order, so which row is picked, and which duplicate e-mail wins in ZapierQueries.LastWriterWins, can differ in the database.
- Ids: a SERIAL id is modelled as the row's position plus one. PostgreSQL consumes a sequence value even when the INSERT fails, for example when the UNIQUE payer id rejects a new member (main.go:273-285), so real ids can skip values. The model's ids never skip; payments still refer to the right row, because the model's ids identify rows the same way.
- The Zapier schema is not part of this model. E-mail uniqueness there is the invariant `ZapierDb.Valid`, which `ProcessMember` keeps by looking up before inserting. `SetStatusWhere` still updates every row holding the e-mail, as the `UPDATE` does.
- The history insert's error, ignored in db.go, and the failed-history warning in main.go cannot occur in the model, because every referenced member exists.
- PayPalActivation.Activate: its own ensures state only what holds on both paths. The row written, the amount, the update time and the resulting history on each path are stated by ActivationCreates and ActivationUpdates.
- A member with a NULL current subscription makes the e-mail lookup in `handlePaymentCompleted` fail to scan, and the subscription stays "". The model does the same, so it adds no case of its own.

## Findings

| source | as written | input that shows it | evidently intended | confidence | as-written member | corrected member |
|---|---|---|---|---|---|---|
| main.go:430-436 | `SET paypal_payer_id = COALESCE(paypal_payer_id, $1)` over rows `WHERE ... (paypal_payer_id IS NULL OR paypal_payer_id = '')`. COALESCE replaces only NULL, so a selected row holding '' keeps ''. Its update time is bumped on every payment | a member with `current_subscription_id = 'S'` and `paypal_payer_id = ''`; a sale on billing agreement 'S' from payer 'P' | every selected row, '' as well as NULL, receives the payer id (e.g. `SET paypal_payer_id = $1`) | not executed | PayPalPayments.FillAsWrittenKeepsEmpty | PayPalPayments.FillPayerFillsEmpty |

The event router `PayPalWebhook.ProcessWebhookEvent` runs the handler as written, `PayPalPayments.PaymentCompleted`. A redelivered sale therefore bumps the update time of a '' holder again (AsWrittenRedeliveryDiffers), though it adds no payment (RedeliveryAddsNoPayment). The handler with the intended fill is `PayPalPayments.PaymentCompletedCorrected`. For it, a redelivery changes nothing (CorrectedPaymentIdempotent), and the '' holder receives the payer id (CorrectedPaymentFillsHolder).
