# Avora backend: verified models of its core logic

This project models the parts of the Avora backend whose correctness is an argument rather than a glance, and
proves what those parts promise. Each module stands for one source file or one concern of it.

- **Transactions and logs.** `IdempotencyProtocol` is the request-idempotency protocol as interleaved database
  statements of any number of transactions: READ COMMITTED look-ups, an insert that waits on the unique index,
  a lost insert followed by a second look-up, completion of one's own or another request's record, commit and
  rollback. `IdempotencyRepository` is the repository class as one session issues those statements while other
  sessions act in between. `AuditChain` is the append-only audit log with its hash chain. The digest is an
  arbitrary function; results that need two texts not to collide are about the texts hashed in the logs at hand,
  and exhibit the collision or are stated for logs without one.
- **Access and rates.** `RateLimiter` is the fixed-window limiter over whole runs of calls. `ReportingTree` is
  the recursive reporting query, on cyclic data too, and the row scopes built on it.
- **Money and dates.** `IncomeTax`, `SalarySlip`, `Proration` and `EmployerContributions` compute a salary slip
  in whole paise with round-half-to-even; `Calendar`, `Tenure`, `LeaveYear` and `WorkingDays` share one
  Gregorian date; `AmountInWords` writes an amount in Indian numbering and reads it back.
- **Reconciliations.** `BiometricMerge` moves work sessions between two people and collapses the duplicates;
  `CircleMirror` makes a person's stored records equal to a given map. Both work in place on objects.
- **Parsers and rewriting.** `PayoutAmount` reads a money cell, `PayoutTable` scans a sheet of rows,
  `PayoutNormalisers` is about what that scan takes to be the same text, and
  `WorkbookScrub` blanks unsafe links in a JSON document, also inside JSON held as text (RFC 8259; scheme syntax
  of section 3.1 of RFC 3986). `JsonCodecExists` shows that compact JSON itself meets what `WorkbookScrub` asks
  of a JSON library.

`Wrappers`, `Numbers` and `Rounding` hold what the others share. `dafny verify dfyconfig.toml` checks everything.

## Where code and description differ

The models follow the code. Nine places deserve a reader's attention.

- `employer_contributions` is described as making the two provident-fund halves always agree. They agree exactly
  when the employee's share covers the EPS (`HalvesAgreeIff`). That holds for every full month at 12% under the
  statutory cap, and after every proration exactly if the full-month Basic is at most 21,600.07 rupees
  (`ProratedHalvesAgreeIff`). Above that an ordinary count of days can fail (`CappedHalvesCanDisagree`).
- Proration leaves professional and income tax whole, so a small positive share of a month can cost money where no
  share at all costs none: exactly when there are such charges (`SomeShareCostsMoneyIff`).
- A replay returns the winner's response for good only as long as nobody completes a record it does not own
  (`CommittedRowsAreFinal`, `LosersReplayTheWinner`); nothing in `complete` prevents that, and the committed response
  is then replaced (`CompletingAnothersRecordReplacesResponse`). That one operation commits per key needs no such care.
- `amount_in_words` prints a negative amount in words that name the amount 2,000 crore higher, so what it prints
  reads back as the amount exactly when that is not negative (`ReadInvertsAmountInWords`). Below minus 2,000 and
  from 2,000 crore on it fails (`PrintsIffWithinLimit`).
- The latest audit entry is chosen by instant alone. Absent a collision, the next append keeps the chain, whichever
  latest entry the query returns, exactly when the entry stored last is the only latest
  (`NextAppendKeepsChainIff`). Two appends at one instant lead to a log where it is not (`TwoAtOneInstant`). Again
  absent a collision, reads and inserts of several sessions keep the chain exactly when no insert is overtaken
  (`InterleavedAppendsKeepChainIff`).
- A raise can lower the take-home: by one paisa, exactly when it is a raise of one paisa with which the provident
  fund grows (`NetFallsIff`, `SinglePaisaRaiseCanCostOne`).
- The canonical audit text is ambiguous exactly when a field contains a pipe (`AmbiguousIffPipe`).
- `swap_owners` is its own inverse exactly when every row belongs to the pair (`SwapIsSelfInverseIff`), and swapping
  with the merge that follows exactly when each person had one session a day (`SwapAndMergeIsSelfInverseIff`).
- The probation band and the shown end date match exactly for lengths of one to twelve months
  (`ProbationBandMatchesEndDateIff`).

## Model
| member | source | states |
|---|---|---|
| `IdempotencyProtocol.NextKeepsConsistent` | app/repositories/idempotency.py:27-81 | Every statement of any transaction keeps the protocol's invariant: no key is both committed and pending, no two open transactions hold one key, no claim is about to re-raise, a rewritten row stays the row of the request that inserted it, every second claim shows such a row or the caller's own, and the committed operations are those whose row is stored. |
| `IdempotencyProtocol.RunKeepsConsistent` | app/repositories/idempotency.py:27-81 | The invariant survives any interleaving of statements. |
| `IdempotencyProtocol.OneOperationPerKey` | app/repositories/idempotency.py:1-9 | From an empty table, in every interleaving of any number of requests, at most one operation ever commits per (principal, scope, key), and it is the one that owns the stored row. |
| `IdempotencyProtocol.NeverRaises` | app/repositories/idempotency.py:62-68 | The re-raise after a missing winner is unreachable in every run. |
| `IdempotencyProtocol.CommittedRowChangesIff` | app/repositories/idempotency.py:70-81 | One statement changes a committed row if and only if it commits a different rewrite of it, and no statement drops one. |
| `IdempotencyProtocol.CommittedRowsAreFinal` | app/repositories/idempotency.py:40-46 | No continuation of a run drops a committed row or makes it another request's; while only owners complete, as the docstring has it, none changes it at all, so every replay sees the same response. |
| `IdempotencyProtocol.CompletingAnothersRecordReplacesResponse` | app/repositories/idempotency.py:70-81 | That premise is needed: completing another request's committed record and committing replaces its response, and changes nothing about whose operation committed. |
| `IdempotencyProtocol.CommittedRowsCompletedIff` | app/repositories/idempotency.py:40-46 | All committed rows are COMPLETED with a response if every owner completed its keys before committing, and, while only owners complete, only then: the docstring's duty is sufficient and necessary. |
| `IdempotencyProtocol.LosersSeeTheWinner` | app/repositories/idempotency.py:47-68 | In every run, a claim that is not new returned the record of the request whose operation committed, and in every later state the key is still that request's; the only other case is a key the same transaction claimed itself. |
| `IdempotencyProtocol.LosersReplayTheWinner` | app/repositories/idempotency.py:40-68 | If owners complete before committing and nobody else completes, that record is the committed, completed row itself, unchanged in every later state. |
| `IdempotencyProtocol.RollbackFreesKey` | app/models/idempotency_key.py:41-52 | When the holder rolls back, the waiting insert succeeds and that request becomes the owner. |
| `IdempotencyProtocol.CommitAnswersWaiter` | app/models/idempotency_key.py:41-52 | When the holder commits, the waiting insert loses and its second look-up returns the holder's row. |
| `IdempotencyProtocol.CompletingWaitsForRewriter` | app/repositories/idempotency.py:70-81 | Completing a record changes nothing while another session has rewritten it, never waits on the session's own rewrite, and can go ahead once the other has committed or rolled back. |
| `IdempotencyProtocol.SecondRequestReplays` | app/models/idempotency_key.py:41-44 | A whole run of two requests under one key: the second looks the key up while the first holds it, waits, loses, and is given the committed, completed row; one operation committed. |
| `IdempotencyRepository.Database.Execute` | app/models/idempotency_key.py:41-52 | The database, updated in place, takes exactly the protocol's step for one statement. |
| `IdempotencyRepository.Database.ExecuteAll` | app/models/idempotency_key.py:41-52 | A sequence of statements takes it to the protocol's run. |
| `IdempotencyRepository.IdempotencyRepository.Claim` | app/repositories/idempotency.py:37-68 | With any statements of other sessions between its own, a claim waits only while another session holds the key, returns a fresh in-progress row exactly as owner, or returns the row the session sees; it records exactly one claim, and everything that happened meanwhile is one run of the protocol in which this session only looks up and inserts. |
| `IdempotencyRepository.IdempotencyRepository.Complete` | app/repositories/idempotency.py:70-81 | Completing any record the session sees, its own or another request's, stores status and response on the session's version of that row and leaves every other row and session as it was; it waits, changing nothing, while another session has rewritten the row. |
| `AuditChain.CanonicalInjective` | app/repositories/audit.py:17-19 | The joined text determines previous hash, actor, action and target-or-empty as long as only the target may contain a pipe. |
| `AuditChain.CanonicalText` | app/repositories/audit.py:17-19 | The text that is hashed, character by character: previous hash, actor, action and target in this order, with pipes between and nothing for an absent one. |
| `AuditChain.AmbiguousIffPipe` | app/repositories/audit.py:17-19 | Without that restriction, another (actor, action, target) has the same text if and only if one of the three contains a pipe. |
| `AuditChain.SameTipSameHistory` | app/repositories/audit.py:17-43 | Two well-linked logs with the same last hash have the same length and the same records at every position, or two different texts hashed in these very logs collide. |
| `AuditChain.SameFieldsSameTip` | app/repositories/audit.py:17-43 | The last hash depends on nothing but actor, action and target-or-empty of each record. |
| `AuditChain.NextAppendKeepsChainIff` | app/repositories/audit.py:26-43 | Without a collision in a well-linked log, the next append keeps it well-linked whichever latest entry the query returns if and only if every other entry is strictly older than the one stored last. |
| `AuditChain.OnlyLastEntryKeepsChain` | app/repositories/audit.py:26-43 | Without a collision in a well-linked log, an append chained to any stored entry keeps it well-linked if and only if that entry is the one stored last. |
| `AuditChain.SameTipSameLength` | app/repositories/audit.py:17-43 | Two stretches of one well-linked log of different lengths never end in the same hash, unless two different texts hashed in the log collide. |
| `AuditChain.TwoAtOneInstant` | app/repositories/audit.py:26-43 | Two appends at one instant, each allowed, reach a well-linked log on which a third allowed append breaks the chain, or the two texts collide. |
| `AuditChain.InterleavedAppendsKeepChainIff` | app/repositories/audit.py:26-43 | For any number of sessions and any interleaving of their reads and inserts, each read seeing any first part of the log, a log without a collision ends well-linked if and only if every insert chained to the entry stored last at that moment; no later step repairs a broken link. |
| `AuditChain.InsertChainsToWhatWasRead` | app/repositories/audit.py:32-43 | A read followed by that session's insert adds exactly one entry, chained to the last entry the read saw. |
| `AuditChain.TwoReadersBreakChain` | app/repositories/audit.py:32-43 | Two sessions that both read before either inserts leave a log that is not well-linked, or a collision. |
| `AuditChain.AuditRepository.constructor` | app/repositories/audit.py:22-24 | A new log is empty, well-linked and chronological. |
| `AuditChain.AuditRepository.LatestHash` | app/repositories/audit.py:26-30 | None on an empty log, otherwise the hash of some entry no other entry is later than, and in a chronological log that of the last one. |
| `AuditChain.AuditRepository.Append` | app/repositories/audit.py:32-43 | Adds exactly one entry and changes none; the entry holds the given instant, actor, action and target, the hash of a latest entry, and the digest of all these; in a chronological well-linked log it stays well-linked, and a strictly later instant keeps it chronological. |
| `RateLimiter.FixedWindowRateLimiter.constructor` | app/core/ratelimit.py:15-20 | Starts with the given limits and no bucket. |
| `RateLimiter.FixedWindowRateLimiter.Allow` | app/core/ratelimit.py:22-32 | The decision and the whole new bucket map, as the functions that the lemmas below are about. |
| `RateLimiter.FixedWindowRateLimiter.Replay` | app/core/ratelimit.py:22-32 | Over a run on a new limiter, decisions and buckets are those of the run functions. |
| `RateLimiter.AtMostTwiceMax` | app/core/ratelimit.py:22-32 | On a nondecreasing clock, no half-open interval of one window's length contains more than twice the limit of accepted calls of a key, in any run; with a limit below one, which still lets the call through that opens a window, no more than two. |
| `RateLimiter.AtMostTwiceMaxLessOne` | app/core/ratelimit.py:19-32 | One fewer, if the key is first called at least one window after the clock's zero, where default buckets start. |
| `RateLimiter.TwiceMaxIsReached` | app/core/ratelimit.py:19-32 | The first bound is attained: for every limit and window some run accepts twice the limit within one window's length. |
| `RateLimiter.TwiceMaxLessOneIsReached` | app/core/ratelimit.py:19-32 | So is the second, by a run whose first call comes a full window after the clock's zero. |
| `RateLimiter.CountIsAcceptedSinceStart` | app/core/ratelimit.py:22-32 | A bucket's count is the number of calls of its key accepted since it started, never above the limit, and every call so far falls before the end of its window. |
| `RateLimiter.RefusedOnlyWhenWindowFull` | app/core/ratelimit.py:29-30 | A call is refused only if it falls in a window that had already accepted the limit. |
| `RateLimiter.KeysAreIndependent` | app/core/ratelimit.py:20-32 | A key's bucket and its accepted calls are those of the run with all other keys' calls removed. |
| `ReportingTree.TreeIsExactlyThoseBelow` | app/repositories/employee.py:69-79 | On any finite manager data, cyclic or not, the query ends and returns exactly the employees from whom one or more manager links lead to the root. |
| `ReportingTree.CanReadIff` | app/repositories/employee.py:312-356 | Who is in the general scope, for every role: everyone on file for admin and HR, oneself for a viewer, one's own named department for a senior manager, otherwise oneself and everyone from whom manager links lead up to one. |
| `ReportingTree.CanReadPersonalIff` | app/repositories/employee.py:358-396 | Who is in the personal scope: everyone for HR only, and for an admin, as for any ordinary role, oneself and those one link below; an admin and an ordinary caller with the same id have the same personal scope. |
| `ReportingTree.ScopeIsTransitive` | app/repositories/employee.py:312-356 | Whoever is in the scope of someone in an ordinary caller's scope is in that caller's scope; so too between callers of one role. |
| `ReportingTree.PersonalScopeWithinScope` | app/repositories/employee.py:312-396 | For every role, what a caller may read of personal matters they may read of work. |
| `ReportingTree.ScopeIsPersonalScopeRepeated` | app/repositories/employee.py:342-387 | For ordinary roles the general scope is exactly the personal scope followed down any number of levels. |
| `ReportingTree.ReadsOneselfIff` | app/repositories/employee.py:342-412 | Someone can read their own record if and only if it exists and they are not a senior manager without department; both scopes agree on it. |
| `ReportingTree.NoReportsSeesOnlySelf` | app/repositories/employee.py:344-356 | An ordinary caller without direct reports sees exactly what a viewer sees: themselves. |
| `IncomeTax.ComputeAnnualIncomeTax` | app/core/payroll.py:53-69 | The loop with its early exit computes the tax over all clamped slabs. |
| `IncomeTax.BandsAboveIncomeChargeNothing` | app/core/payroll.py:64-68 | From the first slab the income does not reach, no slab charges anything, which is what makes the early exit sound. |
| `IncomeTax.TaxNeverOutgrowsGross` | app/core/payroll.py:53-69 | Between any two gross salaries the tax never falls and never rises by more than the gross, across the rebate line and with every slab rounded separately; so what is left after tax never falls. |
| `IncomeTax.SlabTaxWithinSlab` | app/core/payroll.py:42-68 | Within a slab the charge is the amount of the filled slabs below plus the slab's rate on the rest, to half a paisa. |
| `IncomeTax.TaxAtSlabEdges` | app/core/payroll.py:42-69 | Nothing at 12,75,000 rupees gross, one paisa at one paisa more, 1,20,000, 2,00,000 and 3,00,000 rupees at the later slab tops, and 6,00,000 ten lakh above the last. |
| `SalarySlip.SlipReconciles` | app/core/payroll.py:106-143 | For every CTC, zero and negative ones included: earnings add up to gross, gross and employer PF to the CTC, net and deductions to gross, and both PF lines are equal. |
| `SalarySlip.SlipFollowsRates` | app/core/payroll.py:118-129 | A CTC of zero or less gives the all-zero slip; otherwise Basic, HRA, PF up to its cap and the monthly tax are each the nearest paisa to their rate, February has its own professional tax, and both switches turn their line off. |
| `SalarySlip.DefaultSlipFollowsRates` | app/core/payroll.py:72-86 | The default structure for any CTC: Basic 30% of it, HRA half the Basic, fund 12% of the Basic up to 1,800 rupees, professional tax 200 rupees or 300 in February, each to the nearest paisa. |
| `SalarySlip.MonthlyTaxNeverOutgrowsGross` | app/core/payroll.py:128 | The rounded twelfth of the year's tax also never falls and never rises by more than the monthly gross. |
| `SalarySlip.NetFallsByAtMostOnePaisa` | app/core/payroll.py:106-143 | Under the default configuration a higher CTC in the same month never lowers the take-home by more than one paisa, and not at all for a raise of two paise or more. |
| `SalarySlip.NetFallsIff` | app/core/payroll.py:106-143 | Under the default configuration a higher CTC lowers the take-home if and only if it is one paisa higher and the provident fund on it is higher; the loss is then one paisa. |
| `SalarySlip.SwitchingPfOffRaisesNet` | app/core/payroll.py:83-86 | For any configuration with a non-negative PF, switching it off raises the take-home by at least the PF figure and at most twice it. |
| `Proration.FullMonthIsIdentity` | app/core/payroll.py:196-245 | Paying all days, or more, leaves a computed slip unchanged on every line. |
| `Proration.ProratedLines` | app/core/payroll.py:203-245 | Every earning and PF line is the nearest paisa to its share, professional and income tax stand as they are, net reconciles, and a zero share gives the all-zero slip. |
| `Proration.EarningsDriftAtMostTwo` | app/core/payslip_pdf.py:360-370 | Prorated Basic, HRA and special allowance, and so the printed earnings rows, miss prorated gross by at most two paise. |
| `Proration.EarningsRowsTotal` | app/core/payslip_pdf.py:360-370 | The printed rows sum to the three earnings and any positive reimbursement. |
| `Proration.EarningsRowsAre` | app/core/payslip_pdf.py:360-370 | Which amount stands under which label, and that reimbursements have a row only when positive. |
| `Proration.EarningsRiseWithDays` | app/core/payroll.py:196-245 | Paying more days never lowers any line that is non-negative in the full month, the zero-days slip included. |
| `Proration.NetMovesWithDays` | app/core/payroll.py:203-245 | For a fund within the gross, the take-home of any positive share is within a paisa of that share of gross less fund, less the flat charges, and paying more days never lowers it by more than one paisa. |
| `Proration.SomeShareCostsMoneyIff` | app/core/payroll.py:217-245 | Some share of the month has a negative take-home if and only if the flat charges are positive; such a share is itself positive and earns less than those charges, within a paisa. |
| `Proration.DefaultEarningsNonNegative` | app/core/payroll.py:106-143 | Under the default configuration every earning is non-negative and the fund is within the gross, so all of them rise with the days and both results about take-home apply; flat charges are positive for every positive CTC. |
| `Proration.SplitMonthPaysGrossOnce` | app/core/payroll.py:196-245 | Gross for some days and gross for the remaining days come to full gross within one paisa. |
| `EmployerContributions.HalvesAgreeIff` | app/core/payroll.py:168-188 | Employer EPF and EPS come to the larger of employee PF and EPS, so the halves agree if and only if the employee PF covers the EPS; the total follows. |
| `EmployerContributions.ChargesFollowRates` | app/core/payroll.py:174-182 | For every Basic, a negative one counting as zero, EDLI, admin and EPS are the nearest paisa to their rates, with the wage ceiling and the flat EPS at and above it. |
| `EmployerContributions.FullMonthHalvesAgree` | app/core/payroll.py:168-188 | The halves agree for every full-month slip at 12% under the statutory cap. |
| `EmployerContributions.ProratedHalvesAgreeIff` | app/core/payroll.py:168-245 | At 12% under the statutory cap, the halves agree after every proration of a computed slip if and only if its full-month Basic is at most 21,600.07 rupees. |
| `EmployerContributions.CappedHalvesCanDisagree` | app/core/payroll.py:171-172 | Over that limit an ordinary count of days can show the disagreement: 3 of 30 days at a CTC of 4,00,000 rupees. |
| `Calendar.MonthLengths` | app/core/payroll.py:191-193 | How many days each of the twelve months but February has. |
| `Calendar.FebruaryLength` | app/core/payroll.py:191-193 | February has 29 days in years divisible by 400, and in those divisible by 4 but not by 100. |
| `Calendar.OrdinalOrder` | app/core/tenure.py:42 | Day numbers order dates as the calendar does and never repeat. |
| `Calendar.NextDayOrdinal` | app/core/payroll.py:354 | One day on is one more in the day number, over month and year ends. |
| `Calendar.AddDaysReaches` | app/core/payroll.py:349-354 | Counting days from a date reaches every later date. |
| `Tenure.SearchMonthsToReach` | app/core/tenure.py:46-54 | The two-loop search ends and finds what MonthsToReach says. |
| `Tenure.MonthsToReachIsLeast` | app/core/tenure.py:46-54 | That number is the least that reaches the target, and the only least one. |
| `Tenure.AnniversariesReachedIsGreatest` | app/core/tenure.py:77-86 | The latest clamped anniversary on or before today, zero if none, and every later one is still to come. |
| `Tenure.AnniversaryHasCome` | app/core/tenure.py:77-86 | From the first on, an anniversary is counted if and only if its date is not after today. |
| `Tenure.ProbationBandMatchesEndDateIff` | app/core/tenure.py:72-96 | The band is PROBATION on exactly the days before the shown end date if and only if the configured length is one to twelve months. |
| `Tenure.TenuredFromFirstYear` | app/core/tenure.py:89-96 | The band is TENURED on exactly the days from the completed first year on, whatever the probation. |
| `Tenure.CountsDifferOnlyAtMonthEnd` | app/core/tenure.py:57-86 | The two month counts agree on all dates except that the clamped one is one larger on the last day of a month shorter than the starting day. |
| `Tenure.TwoHopsNeverLater` | app/core/tenure.py:29-43 | Adding months in two hops never lands later than at once, and on the same day if and only if the month stopped over in is long enough. |
| `Tenure.AccruedUnitsAre` | app/core/tenure.py:99-112 | Accrual from any starting day: nothing before it, one month's units on it, one more with each anniversary, or the day after one that was clamped, and twelve at most. |
| `LeaveYear.WindowsTileCalendar` | app/core/leave_year.py:16-24 | Every day lies in its own window and no other, and the day after a window opens the next. |
| `LeaveYear.AccrualCreditsEachMonth` | app/core/tenure.py:99-112 | From a window's start, each month begun credits one month's units on its first day, twelve by March, and within the window the cap takes nothing. |
| `WorkingDays.WorkingDaysBetween` | app/core/payroll.py:337-355 | The day-by-day loop counts exactly the set of working dates in the range that are not holidays, and zero for an inverted range. |
| `WorkingDays.DaysBetweenAre` | app/core/payroll.py:340-351 | That range holds exactly the dates neither before the start nor after the end. |
| `WorkingDays.WorkingDatesAre` | app/core/payroll.py:337-355 | The counted dates are those in the range, both ends included, that are working days and not holidays. |
| `WorkingDays.HolidaysTakeTheirDates` | app/core/payroll.py:337-355 | The holidays lower the count by exactly the number of them that are working dates of the range. |
| `WorkingDays.CountIsAdditive` | app/core/payroll.py:337-355 | Counts of adjoining ranges add up to the count of the whole. |
| `WorkingDays.FullMonthCountsItsWeekdays` | app/core/payroll.py:318-355 | For a whole month without holidays the count equals the length of the month's list. |
| `WorkingDays.WeekdaysCycle` | app/core/payroll.py:285-311 | Weekdays follow each other in sevens, and 7 September 2026 is a Monday. |
| `WorkingDays.WorkingDaysOfWeek` | app/core/payroll.py:293-315 | A week of any number of days but six works the first that many from Monday; a week of six works Monday to Saturday but, from 7 September 2026, not the Saturdays dated 8 to 14 and 22 to 28. |
| `WorkingDays.TwoSaturdaysOff` | app/core/payroll.py:278-315 | On a six-day week every month from September 2026 has exactly two working days fewer than Mondays to Saturdays, although the rule starts on the 7th. |
| `WorkingDays.NoSaturdayOffBeforePolicy` | app/core/payroll.py:285-315 | Every earlier month works all its Mondays to Saturdays. |
| `WorkingDays.PayableBaseDaysCountsJoinedDates` | app/core/payroll.py:248-275 | The base is the number of the month's dates on or after the hire date: all, some or none. |
| `AmountInWords.ReadInvertsAmountInWords` | app/core/payslip_pdf.py:154-190 | For every amount that prints, an independent reader of thousand, lakh and crore words recovers it from the words if and only if it is not negative; from a negative one it reads the amount 2,000 crore higher. |
| `AmountInWords.ThirtyFiveThousandSixtyFour` | app/core/payslip_pdf.py:172 | The documented example, letter by letter. |
| `AmountInWords.AmountInWordsInjective` | app/core/payslip_pdf.py:171-190 | In one currency two different amounts that are both negative, or both not, never print the same. |
| `AmountInWords.PrintsIffWithinLimit` | app/core/payslip_pdf.py:161-190 | The words exist if and only if the amount is at least minus 2,000 crore and below 2,000 crore; outside, the list index fails. |
| `AmountInWords.PrefixIs` | app/core/payslip_pdf.py:173-175 | The four named currencies, in letters of either case, and for any other its code in capitals. |
| `AmountInWords.NegativeAmountsPrintAsPositive` | app/core/payslip_pdf.py:161-190 | From minus 1,900 crore up a negative amount prints the very words of the amount 2,000 crore higher; further down the words differ by a leading Zero Hundred but still name it, by ReadInvertsAmountInWords. |
| `BiometricMerge.SwapOwners` | scripts/reattribute_biometric.py:128-131 | In place, every row goes to the other person and nothing else of it changes. |
| `BiometricMerge.MoveOwners` | scripts/reattribute_biometric.py:134-145 | In place, the first person's rows go to the second and nothing else changes. |
| `BiometricMerge.OnlyOwnersChange` | scripts/reattribute_biometric.py:128-145 | Field by field: swapping and moving give each row the stated owner, and keep its times and its mark. |
| `BiometricMerge.MergeSameDay` | scripts/reattribute_biometric.py:148-173 | In place, the rows become the merged ones; those returned, each once, are exactly the rows that are not their group's keeper, so kept and redundant partition the input; they are listed group by group in order of first appearance, sorted stably by clock-in within each. |
| `BiometricMerge.Reattribute` | scripts/reattribute_biometric.py:209-213 | Ownership change followed by the merge, for both modes. |
| `BiometricMerge.OneKeeperPerGroup` | scripts/reattribute_biometric.py:155-164 | Every person and local day has a keeper, and only one. |
| `BiometricMerge.GivenUpForAnEarlierRow` | scripts/reattribute_biometric.py:148-173 | A row is given up only for a kept one of the same employee and local day that clocked in no later. |
| `BiometricMerge.OnlyRowIsKept` | scripts/reattribute_biometric.py:155-162 | An employee's only row of a local day is kept, and kept as it is. |
| `BiometricMerge.KeeperSpansGroup` | scripts/reattribute_biometric.py:163-171 | A keeper has its group's earliest clock-in and, after merging, a clock-out that some row had and none exceeds, or none if none had any; its mark changes exactly when its clock-out does. |
| `BiometricMerge.KeptHasOnePerDay` | scripts/reattribute_biometric.py:148-173 | No two rows that are left agree in employee and local day. |
| `BiometricMerge.KeptCoversEveryDay` | scripts/reattribute_biometric.py:148-173 | For every row there was, a row is left of the same employee and local day that clocked in no later. |
| `BiometricMerge.NothingToMerge` | scripts/reattribute_biometric.py:161-162 | With one row per person and day, merging sets nothing aside and changes nothing. |
| `BiometricMerge.SecondMergeRemovesNothing` | scripts/reattribute_biometric.py:148-173 | A second merge removes nothing and changes nothing. |
| `BiometricMerge.SwapIsSelfInverseIff` | scripts/reattribute_biometric.py:128-131 | Swapping twice restores the rows if and only if all of them belong to the pair. |
| `BiometricMerge.SwapAndMergeIsUndoneBySwap` | scripts/reattribute_biometric.py:128-173 | If each of the two had one session a day, swap then merge finds no duplicate and a second swap restores the original rows. |
| `BiometricMerge.SwapAndMergeIsSelfInverseIff` | scripts/reattribute_biometric.py:128-173 | Swapping and merging twice gives back the rows of the pair if and only if each had at most one session a day. |
| `BiometricMerge.MoveAndMergeGathersBoth` | scripts/reattribute_biometric.py:134-173 | After move and merge the first person holds nothing, and the second holds one row for every day either had: from the earliest clock-in to the latest clock-out of that day's rows, each the time of one of them. |
| `CircleMirror.SetFields` | app/repositories/circle_record.py:132-135 | Sets the mirrored fields to the given values, leaves the others, and reports a change if and only if some mirrored field differed. |
| `CircleMirror.MirrorIff` | app/repositories/circle_record.py:119-135 | What an equal mirror means field by field: a row for every entry and no other, holding each mirrored field the entry gives and nothing in those it does not. |
| `CircleMirror.CircleRecordRepository.DeleteGone` | app/repositories/circle_record.py:121-126 | Removes exactly the person's rows with those ids. |
| `CircleMirror.CircleRecordRepository.AddMissing` | app/repositories/circle_record.py:128-131 | Adds an empty row if and only if the person has none under the id. |
| `CircleMirror.CircleRecordRepository.MirrorEntry` | app/repositories/circle_record.py:127-135 | After one entry its row has the entry's mirrored fields, no other row changed, and a change is reported if and only if the row was missing or differed. |
| `CircleMirror.CircleRecordRepository.Replace` | app/repositories/circle_record.py:109-137 | Afterwards the person's rows, projected to the mirrored fields, are exactly the entries; everyone else's rows are untouched; it returns true if and only if that projection changed. |
| `CircleMirror.CircleRecordRepository.ReplaceAgain` | app/repositories/circle_record.py:97-137 | An immediate repeat returns false and keeps the mirror. |
| `PayoutAmount.ParsedAmountIsCapped` | app/core/payout_file.py:44-46 | Every amount read is within 10^12 minor units of zero. |
| `PayoutAmount.NumberCellIsNearestMinor` | app/core/payout_file.py:220-232 | A number cell of any kind gives the one nearest minor unit, a half going away from zero, and is refused, as too large, if and only if it is more than ten billion rupees either way; a whole number of rupees gives exactly a hundred times itself. |
| `PayoutAmount.ReadsDecimalTextIff` | app/core/payout_file.py:66-66 | The cleaned texts that are read are exactly those of an optional minus, one or more digits, and optionally a point with one or two. |
| `PayoutAmount.DecimalTextIsRead` | app/core/payout_file.py:222-226 | Each of them is read as its value: the digits before the point plus tenths or hundredths, negated after a minus. |
| `PayoutAmount.FormatIsRead` | app/core/payout_file.py:222-232 | Printing minor units with two decimals, or with fewer that suffice, and reading the decimal back gives the same value, for every sign and size. |
| `PayoutAmount.PrintedAmountParsesBack` | app/core/payout_file.py:211-234 | Every amount up to the cap, printed with two decimals or with fewer that suffice, any commas, spaces, currency word or sign before or after the minus, and trailing slash-dash, parses back to itself. |
| `PayoutAmount.ShortAmountsParse` | app/core/payout_file.py:222-232 | Whole rupees without a point, and rupees with one decimal, parse to a hundred minor units each and ten per tenth. |
| `PayoutAmount.CurrencyIff` | app/core/payout_file.py:67 | The currency words, one by one: INR, Rs and Rs. in letters of either case, the rupee sign, or none. |
| `PayoutAmount.OnlyNoiseIsRemoved` | app/core/payout_file.py:67 | A text in which no currency word, comma or white space begins anywhere is kept as it is. |
| `PayoutAmount.GroupingIsNoise` | app/core/payout_file.py:67 | A comma or a space between digits goes, so grouping makes no difference. |
| `PayoutAmount.BlankAmountIff` | app/core/payout_file.py:216-217 | A cell is a blank amount if and only if it is empty or a text of white space only. |
| `PayoutAmount.NotANumberIff` | app/core/payout_file.py:218-234 | A cell is refused as no number if and only if it is true, false, not finite, or a text that is not a decimal once stripped of noise. |
| `PayoutTable.BuildHeaderMap` | app/core/payout_file.py:300-312 | The dictionary-filling loops find the mapping that the search of every alias in order finds, and None unless it has an amount and an identifier. |
| `PayoutTable.FirstAliasWins` | app/core/payout_file.py:110-113 | A field's column is the first to carry the earliest alias that heads any of the first 200 columns, and it has none exactly when no alias does. |
| `PayoutTable.HeaderIff` | app/core/payout_file.py:300-312 | A row is a header if and only if some column read carries an alias of the amount and some column one of the number, the account or the address; it then maps exactly the fields it has a column for. |
| `PayoutTable.TotalLabelIff` | app/core/payout_file.py:322-324 | A label marks a total row if and only if the word total, in letters of either case, stands somewhere in it. |
| `PayoutTable.ParseRowFacts` | app/core/payout_file.py:350-383 | A row is dropped if and only if it names no account and no email and is blank or a total; a kept row carries its own number, normalised account number and email, texts, status flag and amount, and no account number that lost digits. |
| `PayoutTable.RowOutcomeIff` | app/core/payout_file.py:327-383 | Everything a row can come to, in terms of its texts: dropped if and only if it has no account and no email and its number, or without one its name, is a total label or the name is empty; otherwise refused if and only if its amount is, or is missing without a failed status; otherwise kept. |
| `PayoutTable.Table.TakeRow` | app/core/payout_file.py:436-449 | Appends the parsed row, and its number when digits were lost, or leaves the table alone and reports why. |
| `PayoutTable.ParseTable` | app/core/payout_file.py:386-433 | The scan that stops early has the outcome of the row-by-row specification. |
| `PayoutTable.ScanFindsTableIff` | app/core/payout_file.py:416-449 | A table is found if and only if a usable header comes first within 15 rows, no row is unreadable, every row below is dropped or parses, and neither cap is exceeded; then the payments are the rows not dropped, each once and in order. |
| `PayoutTable.PaymentsKeepRowNumbers` | app/core/payout_file.py:416-449 | Every payment was read off the row whose number it carries, and the numbers strictly increase. |
| `PayoutTable.RowIsPaymentUnlessDropped` | app/core/payout_file.py:327-364 | Every row under the header is a payment if and only if it is not dropped. |
| `PayoutTable.LostRowsAre` | app/core/payout_file.py:447-448 | The noted rows are exactly the kept ones whose account number lost digits. |
| `PayoutTable.FoundTableFits` | app/core/payout_file.py:39-58 | A successful scan has its header within 15 rows and at most 10,000 rows under it, and returns at most 5,000 payments with increasing numbers after the header, the noted ones among them without an account number, and a total below 2^63 in magnitude. |
| `PayoutNormalisers.AccountIgnoresPunctuation` | app/core/payout_file.py:182-187 | A character that is no ASCII letter or digit makes no difference to an account number, wherever it stands. |
| `PayoutNormalisers.AccountIgnoresCase` | app/core/payout_file.py:182-187 | Nor does the case of a letter. |
| `PayoutNormalisers.AccountIgnoresLeadingZero` | app/core/payout_file.py:182-187 | Nor does a leading zero. |
| `PayoutNormalisers.PlainAccountIsKept` | app/core/payout_file.py:182-187 | Otherwise, in capitals and digits, it counts as it stands, and there is none if nothing is left. |
| `PayoutNormalisers.HeadingIgnores` | app/core/payout_file.py:196-197 | Neither such a character nor the case of a letter makes a difference to a heading. |
| `PayoutNormalisers.PlainHeadingIsKept` | app/core/payout_file.py:196-197 | A heading in small letters and digits is its own normal form. |
| `PayoutNormalisers.TotalPayComesFirst` | app/core/payout_file.py:110-138 | Total pay is looked for before net pay and the bare amount last, and the employee before the account holder. |
| `PayoutNormalisers.EmailIs` | app/core/payout_file.py:190-193 | An address is any text with an at sign, without the white space around it and in small letters. |
| `PayoutNormalisers.WholeFloatReadsAsInteger` | app/core/payout_file.py:200-208 | 14 and 14.0 are the same text, for every whole number and sign. |
| `PayoutNormalisers.CellTextIsTrimmed` | app/core/payout_file.py:200-208 | A text loses the white space around it, and an empty cell is an empty text. |
| `PayoutNormalisers.TextAtIs` | app/core/payout_file.py:315-319 | A mapped text is its first 256 characters, and one not mapped or beyond the row is empty. |
| `PayoutNormalisers.LostDigitsIff` | app/core/payout_file.py:334-347 | Digits are lost if and only if the account cell is a whole float of at least 10^15 in magnitude, sixteen digits. |
| `WorkbookScrub.SchemeIsTheGrammars` | app/core/workbook_snapshot.py:26-35 | The scheme read is the one the grammar gives the link, and there is never a choice of two. |
| `WorkbookScrub.SchemeIff` | app/core/workbook_snapshot.py:26 | What a scheme is, character by character: a small letter, then small letters, digits, plus, full stop and hyphen. |
| `WorkbookScrub.IgnoredCharMakesNoDifference` | app/core/workbook_snapshot.py:27-34 | A control character, space or delete makes no difference to whether a link is safe, wherever it stands. |
| `WorkbookScrub.CaseMakesNoDifference` | app/core/workbook_snapshot.py:34 | Nor does the case of an ASCII letter. |
| `WorkbookScrub.PlainLinkSafeIff` | app/core/workbook_snapshot.py:25-36 | A link without any of those is safe if and only if it does not begin with a scheme other than http, https, mailto and tel; together these three decide every link. |
| `WorkbookScrub.ScriptLinkIsUnsafe` | app/core/workbook_snapshot.py:3-9 | In particular a script link is unsafe, also with a tab inside its scheme or a capital. |
| `WorkbookScrub.SafeLinkIff` | app/core/workbook_snapshot.py:32-36 | A link is safe if and only if its normal form does not start with a scheme off the list. |
| `WorkbookScrub.TextUnderKey` | app/core/workbook_snapshot.py:24-55 | What becomes of a text by its key: under url, payload, href and link it is blanked if unsafe, under data it is looked into, and under any other key it stays. |
| `WorkbookScrub.EmbeddedText` | app/core/workbook_snapshot.py:58-66 | A text that holds a JSON object or array becomes the print of it scrubbed; any other text, JSON or not, is left alone. |
| `WorkbookScrub.ScrubbedIsSafe` | app/core/workbook_snapshot.py:39-66 | After scrubbing no link key at any depth holds an unsafe text, nor inside JSON held in `data` strings at any nesting. |
| `WorkbookScrub.UnchangedIff` | app/core/workbook_snapshot.py:39-66 | Scrubbing changes nothing if and only if every link is safe and every embedded document is already written as the library prints it. |
| `WorkbookScrub.ScrubIsIdempotent` | app/core/workbook_snapshot.py:39-66 | Scrubbing twice is scrubbing once. |
| `WorkbookScrub.ScrubKeepsShape` | app/core/workbook_snapshot.py:39-66 | Keys, lengths, order and every other value stay, inside embedded documents too, and only unsafe links are blanked. |
| `WorkbookScrub.ScrubKeepsWellFormed` | app/core/workbook_snapshot.py:41-44 | A well-formed document stays well-formed, its keys unique and its numbers untouched, and containers stay containers, so what is printed parses back. |
| `JsonCodecExists.JsonIsLawful` | app/core/workbook_snapshot.py:58-66 | A library that prints every document as compact RFC 8259 text, numbers verbatim, and reads exactly those texts meets the laws asked of it: no text is the print of two documents, and none is shorter than what it holds. |
| `JsonCodecExists.LawfulCodecExists` | app/core/workbook_snapshot.py:58-66 | There is such a library, so the scrub theorems are not about nothing. |

## Left out
- Floating point: percentages, the attendance ratio, 8.33% and 0.5%, the accrual rate and numeric cells are exact reals or rationals here; the error of binary floats is not modelled, nor NaN scores in mirrored records.
- The 28-digit precision of decimal arithmetic: it could round a decimal cell with more digits that lies just above the cap.
- Years outside 1 to 9999: dates have unbounded years here, so the overflow errors of date arithmetic are not modelled.
- Unicode case folding and Unicode digits: upper, lower, case-insensitive matching and digit classes cover ASCII; white space is listed in full.
- SHA-256, the JSON library, the local day of an instant and the clock are parameters. Of the JSON library the laws in `WorkbookScrub.Lawful` are asked; its recursion limit is not modelled, and numbers and other scalars are opaque.
- Lone surrogates: a text is a sequence of Unicode scalar values.
- Termination of the scrub rests on one of those laws, that a text is at least as long as the document it holds.
- The database itself: SQL, sessions, savepoint mechanics and deadlock detection. A victim of a deadlock is a rollback, which may happen to any open transaction at any point.
- Retention: no committed idempotency row is ever deleted in the model.
- IdempotencyRepository.IdempotencyRepository.Claim: the statements of other sessions are given in three groups, and a claim whose key is still held when the second runs out reports that it waits.
- AuditChain.AuditRepository.Append: is one step, its read and its insert together; sessions whose reads and inserts interleave are the subject of InterleavedAppendsKeepChainIff, where the log is in the order of the inserts and none is rolled back.
- The session's cache of loaded objects: every look-up reads the row the session sees now.
- Whether the insert of a committed key also waits for a rewrite of its row: it loses either way.
- What the services do with a claimed record (replaying, refusing a reused key with another request), and everything else under app/services.
- The limiter's lock: calls are atomic and in one order.
- RateLimiter.AtMostTwiceMax: is about windows of positive length, since no call falls in an empty interval.
- The active-staff filters of the list queries, and the parts of the employee repository that write.
- Working-hours classification, monthly CTC from an annual figure, payslip layout, deduction rows and year-to-date columns.
- BiometricMerge.MergeSameDay: keeps a group as a list of positions rather than of row objects.
- Loading the rows, the dry run, the audit entries and the command line of the reattribution script.
- The personal-details profile mirrored from Circle, the capped list queries, and the two field lists: the fields to mirror are a parameter of Replace.
- The order in which a mirror visits its entries: any order is allowed, and the result does not depend on it.
- The single words of the heading table: they are transcribed, and only which of them come first and last is stated.
- File types, zip and encoding checks, CSV dialects, the loop over sheets and the wording of messages and warnings. The payout model starts from rows of cells.
- The size limit of a stored snapshot.
