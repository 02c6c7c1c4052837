# Lab Kiosk control plane: verified models

Lab Kiosk's control plane (`cloudflare-control/src`) sells subscriptions, enrols workstations, keeps
sessions, passwords and an audit log, throttles sign-ins, takes boot and hardware reports and files bug
reports. Most of it is small protocols over one relational store: each statement is atomic, each batch is
atomic, and a request can interleave with others, or stop, between two statements. This project models
those protocols, the calendar and the encoders they rest on, and proves what they promise over every input,
every run or every reachable state. `dafny verify dfyconfig.toml` checks all of it.

| files | component |
|---|---|
| `Calendar`, `Billing`, `Renewals` | subscription periods on the Date of ECMA-262 |
| `Payments`, `PaymentTotals`, `PaymentStore` | the claim-once payment recorder |
| `Audit` | at-least-once audit log and its archive |
| `Enrolment` | device tokens and the workstation limit |
| `Sessions` | hashed and not yet hashed sessions as one map |
| `Passwords` | stored hashes, their migration and the comparison |
| `Json`, `JsonText`, `Escape` | JSON inside a script element |
| `EnrollmentKey` | the Luhn mod 30 check character |
| `Throttle`, `LoginAttempts` | lockout and rate limits |
| `EmailCodes`, `EmailCodeStore`, `EmailCodeRaces`, `Uniform` | one-time codes and their draw |
| `Education`, `EducationStore` | education applications and certificates |
| `BugReports`, `BugReportStore` | automatic bug reports |
| `WorkstationIssues` | boot, restart and disk reports and their budgets |
| `FirmwareText`, `Hardware`, `HardwareList` | the hardware compatibility list |
| `Wrappers`, `JsCharacters` | shared definitions |

Protocols that several callers run at once are state machines of single statements (`Payments`, `Audit`,
`Enrolment`, `BugReports`, `EmailCodeRaces`, the migration in `Passwords`); code that updates rows or loops is a class or a
method beside them, proved against the same functions.

## Assumptions

- SHA-256 and HMAC are parameters without collisions, PBKDF2 a parameter with 32-byte results; session
  tokens are not hashes of one another. Truncated ids of issues may collide.
- Ids drawn at random are new; the clock does not go back; one archive run and one bug report run at a time;
  organizations are not removed.
- A subscription is in force until the organization's license expiry, as `entitlement` in
  `cloudflare-control/src/plans.ts` reads a subscriber plan.
- A queue message is delivered again with the same content, and not after its entry, if that entry names an
  archive file, has left D1.
- An identifier of `login_attempts` is used for one account or for one rate limit with one window, as its prefix says;
  the id of an issue that a bug report run has read is not given to another.
- Lower case adds no NUL character, and the platform's order of strings is total and transitive.

## What does not hold

Each has a lemma with the inputs or runs that show it, and a theorem with the exact condition or the assumption
that rules it out.

- `periodEnd` moves starts in the years 0 to 99 to 1900 to 1999 (`Billing.FirstCenturyMovesTo1900`,
  `Renewals.YearNinetyNineIsOvertaken`; exactly then, `Billing.EndIsCalendarAddition`, `Renewals.LaterStartsEndLater`).
- Two overlapping recordings for one organization lose a period (`PaymentTotals.OverlapLosesAPeriod`, exactly when),
  and a recorder stopped between its claim and its write forfeits one (`Payments.StoppedClaimIsForfeit`; exactly then,
  `PaymentTotals.EveryPaidPaymentWroteOnce`).
- A naming entry delivered again after it was archived overwrites its file (`Audit.RedeliveredNameLosesEntries`).
- Two interleaved enrolments of a workstation can leave it without a token (`Enrolment.RacingCallsMayLeaveNone`;
  exactly which tokens live, `Enrolment.LiveUntilEnded`).
- The comment on enrollment keys says a swap of neighbours is caught; A and 9 are the one pair that is not
  (`EnrollmentKey.SwapIsCaught`).
- Rate-limit windows longer than a day are cut short by the purge (`Throttle.LongWindowsAreCutShort`; never otherwise,
  `Throttle.PurgeIsUnobservable`).
- Five wrong answers per emailed code is not a bound for interleaved checks: four and the calls under way is, and is
  met (`EmailCodeRaces.WrongAnswersAreBounded`, `EmailCodeRaces.BoundIsMet`).
- Opting out of bug reports does not stop a run that still has the issue to come (`BugReports.OptOutMayComeTooLate`;
  only then, `BugReports.OptOutIsHonoured`), and a write GitHub took but the run did not record is repeated
  (`BugReports.LostWriteIsRepeated`; every write accounted for, `BugReports.OneWriteEach`).

## Model

| member | source | states |
|---|---|---|
| Calendar.YearStartNext | cloudflare-control/src/billing.ts:71-79 | The day numbers of ECMA-262 21.4.1.3: consecutive years start 365 or 366 days apart, by the Gregorian leap rule, for every year before and after 1970 |
| Calendar.MonthStartNext | cloudflare-control/src/billing.ts:71-79 | Consecutive months, counted from year 0, start exactly a month length apart |
| Calendar.MonthStartIsCivil | cloudflare-control/src/billing.ts:71-79 | Every month of every year starts where the formula of a year from March, 153 days to five months, says |
| Calendar.AtReadsBack | cloudflare-control/src/billing.ts:71-79 | A time made of a month, a day of it and a time of day reads back as those three, for every integer month |
| Calendar.ReadsBackAt | cloudflare-control/src/billing.ts:71-79 | Every time is made of the month, day and time of day read from it |
| Calendar.AtIsMonotone | cloudflare-control/src/billing.ts:71-79 | Times are ordered as their month, day and time of day are |
| Calendar.AtIsCivil | cloudflare-control/src/billing.ts:71-79 | A time is that day number in seconds of 86400 a day |
| Billing.PeriodEnd | cloudflare-control/src/billing.ts:71-79 | The two Date.UTC calls, the day zero trick and setUTCDate, for every start: a month ends in the next month, 28 to 31 whole days later, a year in the same month of the next, 365 or 366 days later, on the same day or the last and at the same time of day; starts that are not plain end where End says, NaN outside the Date range |
| Billing.PeriodIs | cloudflare-control/src/billing.ts:71-79 | A Month is one month and a Year is twelve, by what they do to the date |
| Billing.EndIsCalendarAddition | cloudflare-control/src/billing.ts:71-79 | The result is plain calendar addition if and only if the start is a Date, its year is not 0 to 99 and the month reached is not after August 275760 |
| Billing.FirstCenturyMovesTo1900 | cloudflare-control/src/billing.ts:71-79 | The start that shows the exception: one month after 1 January of the year 50 is in February 1950 |
| Renewals.MonthLasts | cloudflare-control/src/billing.ts:71-79 | One month lasts 28 to 31 whole days if and only if the start is one of EndIsCalendarAddition |
| Renewals.YearLasts | cloudflare-control/src/billing.ts:71-79 | One year lasts 365 or 366 whole days if and only if the start is one of those |
| Renewals.LaterStartsEndLater | cloudflare-control/src/billing.ts:71-79 | A later start ends on no earlier day, so never a full day or more earlier, if and only if it does not overtake a start in the years 0 to 99 that is moved by 1900 years |
| Renewals.EndsInOrder | cloudflare-control/src/billing.ts:71-79 | Ends are ordered exactly as the month, the cut day and the time of day read from their starts |
| Renewals.EarlierOnlyWithinTheLastDay | cloudflare-control/src/billing.ts:71-79 | Where no start is moved past another, a later start ends earlier only within the last day of a month both are cut back to |
| Renewals.YearNinetyNineIsOvertaken | cloudflare-control/src/billing.ts:71-79 | Such a pair: 1 January of the years 99 and 100 |
| Renewals.LeastDateIsLeast | cloudflare-control/src/billing.ts:71-79 | The day a run of renewals lands on is the minimum of the starting day and every month length passed through |
| Renewals.RenewalsAddUp | cloudflare-control/src/billing.ts:71-79 | k back-to-back renewals land k periods later, on that minimum and at the same time of day, if and only if the run starts at a Date, avoids the years 0 to 99 and stays within August 275760 |
| Renewals.MonthlyRenewalsSettle | cloudflare-control/src/billing.ts:71-79 | From the twenty-fourth monthly renewal on the day is the starting day, or 28 if that was later |
| Renewals.TwelveMonthsOrOneYear | cloudflare-control/src/billing.ts:71-79 | Twelve monthly renewals end at the time of day of one yearly renewal and zero to three days before it, for every start in the Date range except exactly the last eleven months before the year 0 and starts whose year would end after August 275760 |
| Payments.StepKeepsValid | cloudflare-control/src/billing.ts:141-244 | Every statement of createPaymentLink and recordPayment, in any interleaving and with stops anywhere, keeps: paid exactly when claimed, one claimant a payment, at most one plan write a payment |
| Payments.RunKeepsValid | cloudflare-control/src/billing.ts:141-244 | The same over every run of such statements |
| Payments.RecordedAtMostOnce | cloudflare-control/src/billing.ts:220-244 | In every run no payment writes two plans, each write is of a paid row, a payment is returned only by the call that claimed it and wrote its plan, and by at most one |
| Payments.PaidForGood | cloudflare-control/src/billing.ts:183-244 | A paid row is never deleted, unpaid or claimed again, by any later run |
| Payments.StoppedClaimIsForfeit | cloudflare-control/src/billing.ts:220-244 | A call that stops between the claim and the plan write leaves a payment that no later call turns into a period |
| Payments.ExtendingSubscribes | cloudflare-control/src/billing.ts:233-240 | A recorded payment makes a subscriber of 45 workstations and those paid for, one period on from the end of a subscription in force and from now in every other case, whatever the row held |
| Payments.LinkedPaymentIsCreated | cloudflare-control/src/billing.ts:141-199 | A payment that got its link is there to be recorded under it, for the organization, period and workstations it was made for |
| Payments.RefusedPaymentIsGone | cloudflare-control/src/billing.ts:182-198 | One that Razorpay refused leaves no row |
| PaymentTotals.EveryPaidPaymentWroteOnce | cloudflare-control/src/billing.ts:220-244 | In every run, stops anywhere, at rest: a payment wrote its plan if and only if it is paid and its claimant was not stopped between the claim and the write |
| PaymentTotals.StepKeepsAccounted | cloudflare-control/src/billing.ts:220-244 | Every statement and every stop keeps: a claimant is at work, or gone with its plan written, or gone with its payment forfeited |
| PaymentTotals.PlanIsFold | cloudflare-control/src/billing.ts:227-240 | When recordings for an organization do not overlap, its plan is the fold of its payments, each from the later of the current end and now, over every run |
| PaymentTotals.FoldStep | cloudflare-control/src/billing.ts:227-240 | Each write of the fold is one recorded payment of the organization, in ExtendingSubscribes' terms, or none of its own |
| PaymentTotals.PaidAheadRenews | cloudflare-control/src/billing.ts:227-240 | Payments each made before the end then paid for renew the subscription back to back, as Renewals counts them |
| PaymentTotals.OverlapKeepsOnlyTheLast | cloudflare-control/src/billing.ts:227-240 | Two recordings that both read the plan before either writes it leave it as if the first had not been paid |
| PaymentTotals.OverlapLosesAPeriod | cloudflare-control/src/billing.ts:227-240 | Against the fold of both payments, each at its own time, the overlap changes nothing when the first period is over by the second payment, and otherwise ends strictly earlier if and only if the old start comes before the end of the first period by month, cut day and time of day |
| PaymentTotals.PaymentsMadeTogetherLoseOne | cloudflare-control/src/billing.ts:227-240 | It does so whenever the second payment would have started no later than the first |
| PaymentStore.Store.RecordPayment | cloudflare-control/src/billing.ts:220-244 | The whole new tables and the answer of one call, for a payment that is not ours, already paid, of a missing organization, or taken: then the row is paid by the first 64 characters of the id, and the plan is as ExtendingSubscribes says, in terms of the old rows and no helper of the body |
| PaymentStore.AloneInTheMachine | cloudflare-control/src/billing.ts:220-244 | A call alone in the interleaving machine changes the tables and answers as the method does, in all of its cases |
| Audit.KeyNamesOneEntry | cloudflare-control/src/db.ts:2618-2645 | Archive file names are injective in the naming entry, whatever the days and ids |
| Audit.KeysAreNames | cloudflare-control/src/db.ts:2618-2645 | In the years 0 to 9999 two entries have the same key exactly when the ISO day and the id give the same file name |
| Audit.NothingIsLost | cloudflare-control/src/db.ts:2595-2645 | Over every run of inserts, duplicate deliveries, archive runs and stops between the put and the delete, each entry ever inserted is in D1 or in a file whose naming entry has left D1 |
| Audit.EveryEntryCanBeRead | cloudflare-control/src/db.ts:2595-2645 | From empty stores, after any such run, every entry ever inserted is in D1 unchanged or in a file whose naming entry has left D1 |
| Audit.FilesAreFinal | cloudflare-control/src/db.ts:2618-2645 | Such a file is never overwritten by any later run |
| Audit.OnlyOldEntriesLeave | cloudflare-control/src/db.ts:2618-2645 | An entry leaves D1 only by the delete batch and only when past the retention period |
| Audit.SelectedAreOld | cloudflare-control/src/db.ts:2618-2645 | A run selects at most 5000 entries, the oldest first, each more than 180 days old, and all that are when they are fewer |
| Audit.RedeliveredNameLosesEntries | cloudflare-control/src/db.ts:2618-2645 | The one delivery the assumption rules out, a naming entry delivered again after it was archived, does lose the other entries of its file |
| Audit.Slices | cloudflare-control/src/db.ts:2634-2642 | The slices of at most ninety ids are, in order, exactly the ids read |
| Audit.Store.InsertAuditEntries | cloudflare-control/src/db.ts:2595-2612 | The batch insert keeps the first entry under an id |
| Audit.Store.ArchiveOldAuditLogs | cloudflare-control/src/db.ts:2618-2645 | An uninterrupted run puts one file of exactly the rows read and deletes exactly those |
| Audit.ArchiveRunMoves | cloudflare-control/src/db.ts:2618-2645 | The machine's select, put and delete in a row do what the method does |
| Enrolment.StepKeepsLimit | cloudflare-control/src/db.ts:2262-2336 | No statement of an enrolment or decommission takes the distinct live workstations past the limit |
| Enrolment.LimitHolds | cloudflare-control/src/db.ts:2262-2336 | The same under every interleaving |
| Enrolment.NewestAlwaysRevokes | cloudflare-control/src/db.ts:2262-2336 | Of any two live tokens of one workstation the later-inserted one's call has not run its revoke |
| Enrolment.AtMostOneAtRest | cloudflare-control/src/db.ts:2262-2336 | When every call has answered, each workstation holds at most one live token |
| Enrolment.LiveUntilEnded | cloudflare-control/src/db.ts:2262-2336 | A token is revoked exactly when a decommission of its workstation or the revoke of another call for it has run, and never comes back |
| Enrolment.RacingCallsMayLeaveNone | cloudflare-control/src/db.ts:2262-2320 | Two interleaved enrolments of one workstation can each revoke the other's token |
| Enrolment.DeviceTokens.CreateDeviceToken | cloudflare-control/src/db.ts:2262-2320 | A call alone refuses exactly a new workstation when the places are taken, and otherwise leaves the returned token as the only live one of the workstation |
| Enrolment.DeviceTokens.RevokeDeviceTokensForClient | cloudflare-control/src/db.ts:2327-2336 | Ends exactly the workstation's tokens |
| Escape.EscapeJsonIsMask | cloudflare-control/src/escape.ts:34-40 | The four successive replacements equal one pass over the printed text: none touches what another wrote |
| Escape.EscapeJsonIsSafe | cloudflare-control/src/escape.ts:34-40 | The text holds no <, >, &, U+2028 or U+2029 |
| Escape.EscapeJsonReadsBack | cloudflare-control/src/escape.ts:34-40 | For every JSON value the text parses, by RFC 8259, to that value |
| JsonText.PrintedIs | cloudflare-control/src/escape.ts:34-40 | What JSON.stringify prints for each kind of value, in characters the parser does not share |
| JsonText.QuotedIs | cloudflare-control/src/escape.ts:34-40 | How each code unit of a string is printed: letter escapes, numbers of control characters and lone surrogates, itself otherwise |
| JsonText.BodyIs | cloudflare-control/src/escape.ts:34-40 | A pair of surrogates is printed as it is, any other code unit by itself |
| JsonText.NumbersAreTaken | cloudflare-control/src/escape.ts:34-40 | Every number of the grammar of RFC 8259 is covered by the round trip |
| JsonText.NumbersAreThose | cloudflare-control/src/escape.ts:34-40 | And no other text is a number |
| JsonText.EveryValueIsCovered | cloudflare-control/src/escape.ts:34-40 | The round trip covers every value whose numbers are JSON numbers |
| JsonText.EscapedReadsBackAmongWhite | cloudflare-control/src/escape.ts:34-40 | The escaped text reads back with any white space around it |
| Sessions.Matches | cloudflare-control/src/db.ts:1790-1866 | A token matches a row, hashed or not, exactly when it is the token of a session |
| Sessions.StoredKeyIsNoToken | cloudflare-control/src/db.ts:1784-1795 | A stored key presented as a token matches nothing |
| Sessions.RehashIsInvisible | cloudflare-control/src/db.ts:1854-1889 | Rewriting a row under its hash, also one that is gone by then, changes no session |
| Sessions.InsertAdds | cloudflare-control/src/db.ts:1797-1805 | A new row adds one session and collides with none |
| Sessions.DeleteRemoves | cloudflare-control/src/db.ts:1842-1874 | Deleting the rows of some sessions removes those sessions and no other |
| Sessions.ExpiryIsInvisible | cloudflare-control/src/db.ts:2776-2786 | Deleting what has expired changes no answer from then on, for any token |
| Sessions.NothingExpiredIsLeft | cloudflare-control/src/db.ts:2776-2786 | And leaves nothing expired, of the user or of anyone |
| Sessions.SignedOutEverywhere | cloudflare-control/src/db.ts:1842-1852 | After a user's sessions are deleted none of the user's tokens answers but the kept one, and every other does as before |
| Sessions.CreatedAnswersUntilDeleted | cloudflare-control/src/db.ts:1797-1870 | A token answers with its session until it expires or is deleted, and no other token is touched |
| Sessions.SessionStore.CreateSession | cloudflare-control/src/db.ts:1797-1805 | Acts as the update of a plain map from token to session |
| Sessions.SessionStore.GetSession | cloudflare-control/src/db.ts:1854-1866 | Answers as the map does for every token and time, and takes the token out of the unhashed ones |
| Sessions.SessionStore.DeleteSession | cloudflare-control/src/db.ts:1868-1870 | Acts as removal from the map |
| Sessions.SessionStore.DeleteSessionsForUser | cloudflare-control/src/db.ts:1842-1852 | Removes every session of the user but the one kept |
| Sessions.SessionStore.DeleteExpiredSessions | cloudflare-control/src/db.ts:2776-2786 | Removes exactly the expired sessions, of one user or of all |
| Sessions.SessionStore.HashLegacySessions | cloudflare-control/src/db.ts:1876-1889 | Changes no session and leaves as many unhashed rows fewer as it picked |
| Sessions.SessionStore.Replay | cloudflare-control/src/db.ts:1790-1889 | Over every run of operations each answer is that of the plain map |
| EnrollmentKey.CheckCharacter | cloudflare-control/src/auth.ts:136-149 | The right-to-left loop gives the character that makes the Luhn mod 30 sum a multiple of thirty, and an error exactly for a character outside the alphabet |
| EnrollmentKey.IsEnrollmentKey | cloudflare-control/src/auth.ts:151-160 | True exactly for four groups of five alphabet characters, hyphens between, whose closed sum is a multiple of thirty |
| EnrollmentKey.GenerateEnrollmentKey | cloudflare-control/src/auth.ts:163-168 | Every nineteen random bytes give a valid key with those characters |
| EnrollmentKey.SubstitutionIsCaught | cloudflare-control/src/auth.ts:122-160 | Replacing any one character of a valid key by another of the alphabet invalidates it |
| EnrollmentKey.SwapIsCaught | cloudflare-control/src/auth.ts:122-160 | Swapping two neighbours keeps a valid key valid if and only if they are equal or are A and 9, also across a hyphen |
| Throttle.LocksGrow | cloudflare-control/src/db.ts:2686-2724 | Lockouts never get shorter along a run of failures and none exceeds 900 seconds |
| Throttle.FailuresSpread | cloudflare-control/src/db.ts:2686-2724 | Failures made only with nothing left of the lockout take at least the lockouts between them |
| Throttle.LockoutHolds | cloudflare-control/src/db.ts:2686-2724 | N >= 11 such failures span at least 930 + 900 * (N - 11) seconds |
| Throttle.LockoutIsExact | cloudflare-control/src/db.ts:2686-2724 | That bound is attained for every N |
| Throttle.WindowsHoldLimit | cloudflare-control/src/db.ts:2736-2765 | Recorded only when the wait was 0, each window holds at most limit hits |
| Throttle.HitsSpread | cloudflare-control/src/db.ts:2736-2765 | Any 2 * limit hits in a row span at least a window |
| Throttle.IntervalsHoldTwice | cloudflare-control/src/db.ts:2736-2765 | Any interval as long as a window, wherever it starts, holds at most 2 * limit - 1 hits |
| Throttle.BoundIsMet | cloudflare-control/src/db.ts:2736-2765 | That bound is attained for every limit and window of at least two seconds |
| Throttle.WaitIsExact | cloudflare-control/src/db.ts:2736-2750 | The wait reported is the exact time until admission |
| Throttle.PurgeIsUnobservable | cloudflare-control/src/db.ts:2736-2773 | For windows of up to a day the purge changes no answer in any run |
| Throttle.LongWindowsAreCutShort | cloudflare-control/src/db.ts:2736-2773 | For every longer window there is a run in which it does |
| LoginAttempts.Store.GetLockoutRemaining | cloudflare-control/src/db.ts:2691-2699 | The rest of the lockout earned by the failures since the account was last cleared or purged, from all calls so far |
| LoginAttempts.Store.RateLimitWait | cloudflare-control/src/db.ts:2736-2750 | The rest of the current window when the hits recorded in it have reached the limit, from all calls so far |
| LoginAttempts.RowMoves | cloudflare-control/src/db.ts:2691-2773 | Each statement keeps every row equal to the one its failures or hits so far make, purges of any age included |
| LoginAttempts.ClearingStartsOver | cloudflare-control/src/db.ts:2701-2728 | Clearing ends the lockout at once, and failures after it count from one |
| LoginAttempts.LockoutsAre | cloudflare-control/src/db.ts:2686-2724 | The lockouts in seconds: none up to the fifth failure, then 30 doubling to 480 and 900 from the eleventh on |
| LoginAttempts.Store.RecordLoginFailure | cloudflare-control/src/db.ts:2701-2724 | Keeps the whole table what the calls make it, with the failure added: threshold, doubling and cap are those of the lockout table |
| LoginAttempts.Store.PurgeStaleLoginAttempts | cloudflare-control/src/db.ts:2767-2773 | Keeps the whole table what the calls make it, for every age |
| LoginAttempts.Store.Replay | cloudflare-control/src/db.ts:2691-2773 | Over every run of calls for any identifiers, each question is answered from the calls before it |
| LoginAttempts.LockoutHoldsOverRuns | cloudflare-control/src/db.ts:2686-2773 | Over every such run in which failures wait out the lockout, N >= 11 failures that count span at least 930 + 900 * (N - 11) seconds |
| LoginAttempts.RateHoldsOverRuns | cloudflare-control/src/db.ts:2736-2773 | Over every such run in which hits wait and rows are purged no earlier than their window ends, no interval as long as a window holds more than 2 * limit - 1 of all hits ever recorded |
| EmailCodes.StoredAgrees | cloudflare-control/src/conversations.ts:659-709 | Over every history the stored row says what the history says, or is gone when no guess can be right |
| EmailCodes.CheckerMeetsSpec | cloudflare-control/src/conversations.ts:659-709 | The answer is right exactly when the guess is the code in force, unexpired, with fewer than five wrong guesses since it was issued |
| EmailCodes.SpecIs | cloudflare-control/src/conversations.ts:622-704 | The specification in numbers: ten minutes and five wrong guesses |
| EmailCodes.AtMostFiveWrong | cloudflare-control/src/conversations.ts:683-704 | The stored row is answered wrong at most five times per issued code, and while it is in force exactly as often as the history counts |
| EmailCodes.PurgeIsUnobservable | cloudflare-control/src/conversations.ts:659-709 | Leaving every purge out of a history changes no answer |
| EmailCodeStore.Store.CheckEmailCode | cloudflare-control/src/conversations.ts:683-704 | Right exactly when the guess, trimmed, is the code in force of that address, unexpired, with fewer than five wrong guesses since it was issued, from all calls so far |
| EmailCodeStore.TypedCodeIsRight | cloudflare-control/src/conversations.ts:683-704 | The code in force, typed with any white space around it, is right |
| EmailCodeStore.IssuedCodeIsInForce | cloudflare-control/src/conversations.ts:659-672 | A code just issued is in force with nothing held against it |
| JsCharacters.TrimTakesSpace | cloudflare-control/src/conversations.ts:696-696 | Trimming takes white space off both ends and nothing else |
| JsCharacters.TrimIsText | cloudflare-control/src/conversations.ts:696-696 | Whatever white space is put around a text, trimming gives the text |
| EmailCodeStore.Store.PurgeExpiredEmailCodes | cloudflare-control/src/conversations.ts:707-709 | Removes exactly the expired rows and keeps every row what its history makes it |
| EmailCodeStore.Store.Replay | cloudflare-control/src/conversations.ts:659-709 | Over every run of calls for any addresses, each code is answered as the calls before it deserve |
| EmailCodeRaces.StepKeepsSound | cloudflare-control/src/conversations.ts:683-704 | With reading and counting as separate statements, every step keeps the wrong answers given and to be given about each code within four and the calls under way |
| EmailCodeRaces.AloneIsACheck | cloudflare-control/src/conversations.ts:683-704 | With no call in between, the two statements do to the row what a check does in the sequential model |
| EmailCodeRaces.WrongAnswersAreBounded | cloudflare-control/src/conversations.ts:659-704 | In every interleaving with at most k calls under way, codes reissued and discarded in between, a code is answered wrong at most 4 + k times |
| EmailCodeRaces.BoundIsMet | cloudflare-control/src/conversations.ts:683-704 | For every k there is a run that attains it |
| Passwords.TimingSafeEqual | cloudflare-control/src/auth.ts:87-94 | The xor and or loop over code units is equality of strings |
| Passwords.HexToBuffer | cloudflare-control/src/auth.ts:18-27 | The byte array filled pair by pair is the one the pairs spell, and the error is exactly for odd lengths |
| Passwords.HexReadsBack | cloudflare-control/src/auth.ts:10-27 | Reading the hexadecimal digits of bytes gives the bytes |
| Passwords.HexWritesBack | cloudflare-control/src/auth.ts:10-27 | Writing the bytes of lower-case digits gives the digits |
| Passwords.DigitsOfEitherCase | cloudflare-control/src/auth.ts:18-27 | Two digits are a byte, whatever the case of either |
| Passwords.HashAcceptsItsPassword | cloudflare-control/src/auth.ts:57-77 | A stored hash accepts exactly the passwords that derive the same key |
| Passwords.OldHashAcceptsItsPassword | cloudflare-control/src/auth.ts:69-77 | So does a hash from before the pepper |
| Passwords.OldHashesAreWrapped | cloudflare-control/src/auth.ts:78-85 | Every hash the format before the pepper wrote is wrapped, with the prefix and the HMAC of the derived key |
| Passwords.BareHashesAreWrapped | cloudflare-control/src/auth.ts:78-85 | Exactly the strings of 64 lower-case hexadecimal digits are wrapped |
| Passwords.WrappingKeepsAnswers | cloudflare-control/src/auth.ts:69-85 | Wrapping a bare hash leaves the answer unchanged for every password and salt, and the wrapped hash is not wrapped again |
| Passwords.MigrationIsInvisible | cloudflare-control/src/db.ts:1807-1839 | However the reads and writes of the migration fall among password changes, every user is verified as if there had been no migration |
| Passwords.WrapLeavesOneFewer | cloudflare-control/src/db.ts:1823-1839 | One wrap takes exactly its row out of the bare ones |
| Passwords.BareAreSelected | cloudflare-control/src/db.ts:1823-1828 | Every bare hash meets the conditions of the SELECT |
| Passwords.Users.SelectLegacy | cloudflare-control/src/db.ts:1823-1828 | At most 200 rows of 64 characters without the prefix, in either case of its letter, and all of them when there are no more |
| Passwords.Users.PepperLegacyPasswordHashes | cloudflare-control/src/db.ts:1823-1839 | One run leaves every answer as it was and as many bare hashes fewer as it reports, and no hash of 64 lower-case hexadecimal digits when at most 200 rows were selected |
| Uniform.UniformBelow | cloudflare-control/src/conversations.ts:649-657 | The loop returns the first accepted draw, reduced, and nothing when none is accepted |
| Uniform.EveryValueIsAsLikely | cloudflare-control/src/conversations.ts:649-657 | Every value below the limit comes from exactly floor(2^32 / limit) accepted draws |
| Uniform.HalfAreAccepted | cloudflare-control/src/conversations.ts:649-657 | At least half of all draws are accepted |
| Uniform.CodesAreOneToOne | cloudflare-control/src/education.ts:220-222 | Numbers below a million and strings of six digits correspond one to one through the zero-padded code |
| Education.DropKeeps | cloudflare-control/src/education.ts:287-290 | Dropping an unconfirmed application with its certificate keeps every invariant below and every decision |
| Education.AppendKeeps | cloudflare-control/src/education.ts:245-285 | So does a new application of an organization with nothing undecided |
| Education.MoveKeeps | cloudflare-control/src/education.ts:293-357 | So does a change of one row that keeps its certificate |
| Education.ReleaseKeeps | cloudflare-control/src/education.ts:361-380 | So does letting go of a rejected application's certificate |
| EducationStore.OthersAreDecided | cloudflare-control/src/education.ts:233-285 | An organization has at most one undecided application and it is its latest |
| EducationStore.Applications.StartApplication | cloudflare-control/src/education.ts:245-285 | Refused exactly when an application waits for review; otherwise the unconfirmed one is replaced, with its certificate, and no other row changes |
| EducationStore.Applications.ConfirmApplicationEmail | cloudflare-control/src/education.ts:293-321 | The answer is the one the code that was sent, the time and the earlier wrong tries call for, and only the row asked about changes |
| EducationStore.DrawnCodeConfirms | cloudflare-control/src/education.ts:220-321 | Every code that can be drawn is confirmed by typing it within half an hour and before five wrong tries |
| EducationStore.SixDigitsAreCodes | cloudflare-control/src/education.ts:220-315 | What is taken for a code is exactly what can be drawn as one |
| EducationStore.Applications.DecideApplication | cloudflare-control/src/education.ts:342-357 | Decides exactly an application that waits, as approved or rejected and when, and changes nothing else |
| EducationStore.Applications.PurgeEducationApplications | cloudflare-control/src/education.ts:361-380 | Purges only rows due, leaves none due when it purged fewer than a hundred, and changes no other |
| EducationStore.PurgeableIs | cloudflare-control/src/education.ts:361-380 | An unconfirmed application is kept for a day, the certificate of a rejected one for ninety, everything else for good |
| EducationStore.Applications.Replay | cloudflare-control/src/education.ts:233-380 | Over every run: one undecided application at most, every confirmed one had the code sent entered in time after fewer than five wrong tries, certificates and rows holding a key are one to one, and every decision stands as made |
| BugReports.StepKeepsInv | cloudflare-control/src/bug_reports.ts:418-580 | Every statement, in any interleaving with opting in or out and new issues, keeps: pending is opted in, sent has a report, at most five writes a run, every write accounted for |
| BugReports.Reached | cloudflare-control/src/bug_reports.ts:462-580 | In every reachable state pending issues are of organizations opted in, sent ones have a report and were read by a run, and the last run wrote at most five times |
| BugReports.OneWriteEach | cloudflare-control/src/bug_reports.ts:462-556 | Over all runs a signature is written once for its report and once for every write lost before it was recorded; with none lost, exactly once when it has a report |
| BugReports.SentWasReadUnderTerms | cloudflare-control/src/bug_reports.ts:462-580 | Over every run an issue is sent only after a run read it while it was pending and its organization was opted in under the terms then current |
| BugReports.ListedIsPending | cloudflare-control/src/boot_report.ts:160-182 | A boot issue waits to be sent exactly when its organization has opted in |
| BugReports.OptOutIsHonoured | cloudflare-control/src/bug_reports.ts:462-580 | Over every run until the organization opts in again, an issue of an organization that has opted out becomes sent only if the run then under way still had it to come |
| BugReports.HeadIsSent | cloudflare-control/src/bug_reports.ts:488-556 | And the issue a run is at can be sent, whatever its organization has done since, if and only if its problem has a report or a write is left |
| BugReports.LostWriteIsRepeated | cloudflare-control/src/bug_reports.ts:514-554 | From every state about to write a due issue, a stop before the record makes the next run that reads it write again |
| BugReports.OptOutMayComeTooLate | cloudflare-control/src/bug_reports.ts:477-580 | From every state with a run at an issue, its problem reported or a write left, opting out does not keep the issue from being sent |
| BugReports.RunComesToAnIssue | cloudflare-control/src/bug_reports.ts:477-488 | Such states are reached, for every organization, issue and problem |
| BugReportStore.Store.SetBugReportsEnabled | cloudflare-control/src/bug_reports.ts:563-580 | One step of the machine: on accepts the current terms and touches no issue; off stops exactly the organization's pending issues and touches nothing else |
| BugReportStore.Store.ReadPending | cloudflare-control/src/bug_reports.ts:477-485 | Due issues oldest first, at most twenty; one left out is no older than any taken, and none is when there are fewer |
| BugReportStore.Store.HandleRow | cloudflare-control/src/bug_reports.ts:488-553 | A known problem is linked without a write; an unknown one is written, recorded and marked, in steps of the machine; a stop changes no issue |
| BugReportStore.Store.ProcessBugReports | cloudflare-control/src/bug_reports.ts:462-556 | A run is a run of the machine, faults at triage, write, reply, record and mark included; the rows handled are sent, no other issue changes, at most five are written, and it stops early only for a fault or the budget |
| WorkstationIssues.ListedKeepsWindows | cloudflare-control/src/boot_report.ts:317-340 | Listing while the count back one day is below the budget keeps every day-long window, wherever it starts, within the budget |
| WorkstationIssues.SinceIsInDay | cloudflare-control/src/boot_report.ts:317-323 | What is counted against a budget is exactly what was listed of its kinds for that workstation in the last day |
| WorkstationIssues.ForgettingKeepsCounts | cloudflare-control/src/boot_report.ts:515-525 | What the 90-day purge deleted is too old to be counted against a budget |
| WorkstationIssues.RetainedTwice | cloudflare-control/src/boot_report.ts:515-525 | Purging at successive times is purging at the last |
| WorkstationIssues.Workstations.RecordBootReport | cloudflare-control/src/boot_report.ts:128-184 | Taken exactly when at least 60 seconds newer than the one the row holds, and the reports a row took stay that far apart; each outcome is listed under its kind, an installed update not at all, unless the id is in use |
| WorkstationIssues.Workstations.RecordRestartReport | cloudflare-control/src/boot_report.ts:295-344 | Listed exactly when its boot is not listed and fewer than 24 restarts were in the last day, counted over everything ever listed; ids stay unique |
| WorkstationIssues.Workstations.RecordDiskHealthReport | cloudflare-control/src/boot_report.ts:432-477 | The budget loop lists each disk and state once, never past 8 a day over the whole history, and leaves a disk out only when the budget is spent |
| WorkstationIssues.Workstations.PurgeOldWorkstationIssues | cloudflare-control/src/boot_report.ts:515-525 | Keeps exactly the issues of the last 90 days, and every budget over the whole history |
| WorkstationIssues.Workstations.Replay | cloudflare-control/src/boot_report.ts:128-525 | Over every run of reports, purges, new and deleted workstations: no day of a workstation, whenever it starts, was ever listed more than 24 restarts or 8 disks, ids in the table are unique, and reports a row took are a minute apart |
| FirmwareText.TextIsClean | cloudflare-control/src/hardware.ts:74-78 | A name that was read holds no control character, no doubled or leading space and at most the length asked for |
| FirmwareText.TextKeepsVisible | cloudflare-control/src/hardware.ts:74-78 | Up to the length it is cut to, a name keeps every visible character in order |
| FirmwareText.TidyNamesStay | cloudflare-control/src/hardware.ts:74-78 | A name that is tidy already is read as it is |
| Hardware.ReadIs | cloudflare-control/src/hardware.ts:227-235 | A row gives a machine exactly when it reads and neither name is missing, blank or a placeholder, with the tenant, names, firmware, touch and memory it reports |
| Hardware.TidyReportsAreKept | cloudflare-control/src/hardware.ts:74-84 | A tidy report is read to the letter |
| Hardware.FirmwareNameHasNoNul | cloudflare-control/src/hardware.ts:81-84 | So it never holds the separator of keys and spellings |
| Hardware.SplitRecovers | cloudflare-control/src/hardware.ts:250-251 | Splitting a spelling at the separator gives the maker and the model back |
| Hardware.KeysAreNames | cloudflare-control/src/hardware.ts:236-236 | Two machines share a key if and only if their makers and their models are the same without regard to case |
| Hardware.SpellingsAreNames | cloudflare-control/src/hardware.ts:238-238 | A spelling stands for exactly one maker and model, to the letter |
| Hardware.AddCounts | cloudflare-control/src/hardware.ts:237-245 | Adding a machine to its group's tally counts the group with it |
| Hardware.AddMembers | cloudflare-control/src/hardware.ts:237-245 | and keeps its organizations and least memory right |
| HardwareList.TallyReports | cloudflare-control/src/hardware.ts:226-246 | After the pass every tally is that of the readable named reports whose maker and model are the same without regard to case, and every such report has one |
| HardwareList.MachinesAreReported | cloudflare-control/src/hardware.ts:227-235 | The machines tallied are those the rows of the table report, one for each row that reads |
| HardwareList.BestSpelling | cloudflare-control/src/hardware.ts:250-251 | The spelling shown is a most frequent one, and among those the first in the platform's order |
| HardwareList.GroupsAddUp | cloudflare-control/src/hardware.ts:226-263 | The groups' sizes add up to the readable named reports |
| HardwareList.RebuildHardwareModels | cloudflare-control/src/hardware.ts:207-263 | The rows written are the group-by of lower-cased maker and model: no two rows alike, with counts, distinct organizations, least memory and the first in order of the most frequent spellings; every row of the table that reads is listed under its names, every listed name is spelled as some row reports it, workstations add up to the rows that read, and no two rows collide on the primary key |

## Left out

- escapeHtml (`escape.ts`), `fenced` (`bug_reports.ts`) and the title and text cleaners: single substitutions, easy members.
- HTTP, Razorpay, GitHub, Workers AI, R2 and queue transport: only success, failure and a stop are modelled, as steps or answers.
- Crypto internals and the quality of randomness: function parameters and arbitrary draws.
- JSON numbers are kept as their literal; the conversion between doubles and text is not modelled, nor are values JSON.stringify leaves out.
- The ISO day in an archive file's name is ten arbitrary characters in `Audit.KeyNamesOneEntry`, and the day number elsewhere.
- Interleaving inside the throttles, the education workflow and the issue budgets: these are proved for calls one after another.
- Interleaved email code checks: only the number of wrong answers is bounded; time and the right code are in the sequential model.
- Education applications: institution, board, website, address, submitter and decider, and a crash between the certificate store and the row.
- Issues: severity, description and log text, and the clearing of restart logs; wake reports of `power.ts`.
- BugReportStore.Store.ProcessBugReports: leaves out the status refresh after the loop, which changes no issue and no signature, and the choice of candidates and issue numbers.
- Hardware reports: the JSON shape, CPU, cores, keyboard and network addresses; the left-out demos are not among the rows.
- The resend cooldown of email codes, and which rows the SELECTs with a LIMIT and no order give: any choice is allowed for.
- Removal of organizations, overlapping runs of one hourly job, schema setup, listings, custom hostnames, releases, demos and the documentation pages.
- `entitlement`, `quote` and prices (`plans.ts`): only when a subscription is in force matters here.
