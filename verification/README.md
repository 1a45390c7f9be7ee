# Flip Star: verified models of its ledgers, counters and allocators

This project models the parts of the Flip Star backend whose correctness is a
matter of whole runs rather than single calls, and proves what they keep.

| module | models |
|---|---|
| `Calendar`, `WinPeriods` | the proleptic Gregorian calendar, and the day, week or month a recorded win belongs to |
| `WinLedger`, `WinAwards`, `WinSeams` | the winner frequency table: the eligibility check, `get_or_create` on the unique key, runs of check-then-record, and the awards that leave no row |
| `SelectionRace`, `SelectionBounds` | selections and gift calls that overlap, under the row lock of each campaign, with rows seen by others once committed; and the most that thirty days then hold |
| `ThrottleKeys`, `FailureCounter`, `LoginGate` | cache keys, the failed-attempt counter against its history, and the login view around it |
| `FailureRace`, `GateRace` | the counter and the login gate when reads and writes of several calls interleave |
| `RateParser`, `Decimal`, `Strings`, `Sets` | the throttle rate grammar, decimal printing, and lemmas the others share |
| `CodeAllocator` | slugs and unique organization codes |
| `BoostPricing` | boost prices in 28-digit decimal arithmetic |
| `RewardLedger`, `RewardRuns` | reward grants, budget edits and go-live snapshots, interleaved |
| `RouteTools`, `RouteFolders` | the route walker of the collection generator, and its folder table |
| `CampaignTimeline`, `CampaignStats` | the order of campaign dates, and a participant's recalculated totals |

## Conventions

- Instants are whole microseconds. In the calendar modules they count from
  0001-01-01T00:00 UTC, a Monday, the first instant a Python `datetime` holds;
  years are not capped at 9999.
- In `WinLedger`, `WinAwards` and `WinSeams` a selection checks and records one
  user at one instant; `SelectionRace` makes them separate steps, and a
  selection's rows visible to others when it commits. The clock of a run never
  goes back. A row counts as a recorded win when it was inserted; an
  award is a passing check, which is what the callers act on: they ignore
  `created`. An attempt is a call that reaches the check, past what its caller
  tests of the campaign itself (lines 222-230 and 412-417 of
  `api/services/scoring/engine.py`).
- A cache value set at time a for a window w is visible on [a, a + w).
- `FailureCounter` and `LoginGate` handle requests one at a time; `FailureRace`
  and `GateRace` drop that assumption.
- Text is ASCII. Money is in hundredths.
- Database rows that several transactions touch are states of a step relation.
  In `RewardRuns` a row lock makes its transaction one step, while a read without
  a lock and the save that follows it are two.

## What came out

Where the code and its own comments disagree, the models follow the code.

- **The thirty-day cap on recorded wins holds without a seam** for daily, weekly
  and monthly wins, while no two calls overlap (`RollingCap`, `LongRunBound`; the
  latter is reached).
- **The cap on awards does not.** An award whose calendar period already has a
  row inserts nothing and is never counted. `SafeSettingsIff` says, for every
  tier, under which settings no run has such an award, and under which awards
  keep the cap: the same ones. Weekly and monthly caps of two or more, daily ones
  without a cooldown, a monthly cap of one and a grand cap of one or more are not among them.
  With caps of two a user can win in any number of campaigns at one instant
  (`PeriodSeam`). With a monthly cap of one a win on day 1 of a 31-day month
  leaves two prizes less than a day apart (`MonthlySeam`), the case the comment
  at lines 975-982 of `api/models/campaign_extended.py` says cannot arise;
  `MonthlyAwardCapIff` says for every run whether that happens.
- The selection lock covers one campaign, while the cap counts a user's wins in
  all of them, and gift calls take no lock. m overlapping calls record up to
  L + m - 1 wins, or as many as thirty days have periods if those are fewer, and
  no more (`OverlapBound`, `OverlapBoundIsExact`).
- The key of a grand win names the day and not the campaign, so finals of two
  campaigns on one day share a row and the second can be awarded again;
  `GrandAwardCapIff` says exactly when, for any cap.
- **A go-live snapshot saves the whole configuration row as it read it**, so an
  award between its read and its save is wiped from `distributed` and the budget
  can be overspent (`SnapshotRace`). The total is right throughout a run exactly
  when no award pays inside such a snapshot (`AccountedIff`); the constraint, the
  one grant per engagement and the ceilings hold under any interleaving.
- The daily reward ceiling takes the date in UTC and compares it in local time.
  It still holds on both calendars (`DailyCeilingHolds`), but in the last three
  hours of a UTC day, and only then (`SeesTodayIff`), it can refuse a user for
  coins earned a full day before (`DailyCeilingOutlastsTheDay`).
- One slow call can bring the failure counter from any value back to 1, and a
  failure that overlaps a clear undoes it (`SlowCallForgets`, `ClearIsUndone`);
  the counter is exact exactly while every write finds what its call read
  (`CountsExactlyIff`).
- Logins that overlap are all let in on the count they find, and the write of a
  slow one brings the count back, so the limit of six holds exactly while they do
  not overlap (`LimitHoldsIff`). With m of them the most that get in is C(m+6, m) - 1,
  27 for two and 83 for three (`GateRace.OverlapBoundIsExact`, `MostIsChoose`).
- The failure counter belongs to an identity, not to the account under attack. A
  signed-in caller is counted under its own account, so signing in to it again
  clears the counter of its guesses at another (`SignedInGuesser`).
- The price list in the comment of `api/models/boost.py` (lines 11-18) leaves out
  the platform fee that the code adds. The price is not monotone in the duration
  either: `DurationOrderIff` says when a longer boost is cheaper, for all
  ordinary settings, and `DefaultUndercutsIff` lists the cases for the defaults, such as
  six hours below five and a week below any duration from 49 hours but 72.
- The comment above the folder table says that the longest prefix wins, while the
  code takes the first; for the rows of that table the two agree
  (`LongestPrefixWins`).

## Model

| member | source | states |
|---|---|---|
| Calendar.DaysBeforeMonthIs | api/models/campaign_extended.py:1062-1065 | the days before a month by a closed form, without any month's length |
| Calendar.DayNumberIs | api/models/campaign_extended.py:1056-1063 | the instant of a civil time by a closed form, without leap years or lengths |
| Calendar.MonthsAbut | api/models/campaign_extended.py:1063-1065 | the month after a month starts where it ends, leap years and December included |
| Calendar.FromInstant | api/models/campaign_extended.py:1056-1063 | every instant has valid civil fields that denote it |
| Calendar.CivilRoundTrip | api/models/campaign_extended.py:1056-1063 | civil fields are recovered from the instant they denote |
| WinPeriods.PeriodStartIs | api/models/campaign_extended.py:1054-1068 | a daily or grand period starts at the midnight before, a weekly one at the midnight of the Monday before, a monthly one at the midnight of day 1 |
| WinPeriods.PeriodStartIsEarliest | api/models/campaign_extended.py:1054-1068 | which is the earliest instant of that UTC day, week or month |
| WinPeriods.PeriodEndIs | api/models/campaign_extended.py:1054-1068 | a day or week later, the first of the next month, or for a grand win the same time of day 365 days on |
| WinPeriods.WeekdayIs | api/models/campaign_extended.py:1058-1060 | the weekday of a date by a congruence, Monday being 0 |
| WinPeriods.PeriodContains | api/models/campaign_extended.py:1054-1065 | every instant lies inside its default day, week or month |
| WinPeriods.KeyIffSamePeriod | api/models/campaign_extended.py:1054-1065 | two instants share a period start exactly when they share the UTC day, the Monday-based week or the calendar month |
| WinPeriods.MonthEndIs | api/models/campaign_extended.py:1063-1065 | first of the month plus 32 days, moved to day 1, is the first of the next month for every month |
| WinPeriods.PeriodsTile | api/models/campaign_extended.py:1054-1065 | a period end is itself the start of the next period |
| WinPeriods.PeriodsAreOrdered | api/models/campaign_extended.py:1054-1065 | different periods never overlap |
| WinPeriods.MonthSpan | api/models/campaign_extended.py:983-1065 | two instants of one month lie more than thirty days apart only from day 1 to day 31 |
| WinLedger.ConfiguredVerdict | api/models/campaign_extended.py:1000-1045 | under a campaign's configuration, tier by tier and column by column: the wins counted, the limit and the verdict, with the cooldown on daily wins and grand wins counted for that campaign over all time |
| WinLedger.DefaultVerdict | api/models/campaign_extended.py:1000-1045 | without a campaign or without its configuration: one win, no cooldown, grand wins of all campaigns when none is named |
| WinLedger.WinnerFrequencyTable.RecordWin | api/models/campaign_extended.py:1047-1075 | inserts exactly when no row has the user, tier and period start, with the campaign, the instant and the period of the win; returns the row of the period; keeps the unique key |
| WinLedger.WinnerFrequencyTable.Select | api/services/scoring/engine.py:62-81 | one user checked and recorded at one instant: an award depends on the check alone, an insertion on the check and the key |
| WinLedger.RunIsWellKeyed | api/models/campaign_extended.py:963-964 | every run keeps the unique key and rows dated in order under their own period |
| WinLedger.PeriodsOfWinsAreDisjoint | api/models/campaign_extended.py:952-964 | the recorded periods of a user's wins in a tier never overlap |
| WinLedger.RollingCap | api/models/campaign_extended.py:975-1031 | whatever the run, every closed interval of up to thirty days holds at most L recorded wins of a user in a tier |
| WinLedger.LongRunBound | api/models/campaign_extended.py:975-1031 | a span of length S holds at most L recorded wins for every window it begins |
| WinSeams.LongRunBoundIsReached | api/models/campaign_extended.py:975-1031 | the bound is attained over any number of windows, for every daily cap up to 30 and every weekly cap up to 4 |
| WinLedger.CooldownSpacing | api/models/campaign_extended.py:1033-1045 | any two recorded daily wins of a user are a cooldown apart, whatever the caps |
| WinAwards.DailyAndWeeklyAwardsAreRecorded | api/models/campaign_extended.py:1026-1075 | a daily or weekly award under a cap of one, or a daily one under a cooldown, always inserts its row |
| WinAwards.MonthlySilentIff | api/models/campaign_extended.py:1026-1075 | under a cap of one a monthly award inserts nothing exactly when a win of that month is over thirty days old |
| WinAwards.MonthOutlivesWindowOnDay31 | api/models/campaign_extended.py:1062-1065 | that happens only on day 31, with the earlier win on day 1 |
| WinAwards.AwardsAreWinsPlusSilent | api/services/scoring/engine.py:62-81 | over any run and interval, awards are recorded wins plus unrecorded ones |
| WinAwards.SpacedOutAwardCap | api/models/campaign_extended.py:975-1045 | daily or weekly awards spaced by caps of one, or daily ones by a cooldown, keep a cap of any size in thirty days |
| WinAwards.MonthlyRecordedIff | api/models/campaign_extended.py:975-1075 | all monthly awards of a run are recorded exactly when no attempt meets a win of its month that left the window |
| WinAwards.MonthlyAwardCapIff | api/models/campaign_extended.py:975-1075 | a run keeps one monthly award in every thirty days exactly when no attempt that meets such a win is followed by another within thirty days |
| WinSeams.MonthlySeam | api/models/campaign_extended.py:975-1075 | in every 31-day month, in whatever campaigns, a user can take two monthly awards less than a day apart under a cap of one |
| WinSeams.PeriodSeam | api/models/campaign_extended.py:1024-1075 | with daily, weekly or monthly caps of two or more, and no daily cooldown, any number of awards pass at one instant, in campaigns of their own, and one row is kept |
| WinSeams.SafeSettingsIff | api/models/campaign_extended.py:1006-1075 | for every tier, cap and cooldown: every award of every run is recorded, and awards keep the cap in every run, exactly under no cap, a daily or weekly cap of one, or a daily cooldown |
| SelectionRace.BeginsIff | api/services/scoring/engine.py:91-111 | a selection begins exactly while no other selection of its campaign is open, a gift call always |
| SelectionRace.ChecksIff | api/services/scoring/engine.py:62-68 | a call passes a user exactly when it is open and the user is eligible in its campaign on the rows it sees |
| SelectionRace.RecordsIff | api/services/scoring/engine.py:70-81 | a call records exactly the users it passed, a row each unless the period has one, and nothing of other users or calls changes |
| SelectionRace.EndReleasesTheLock | api/services/scoring/engine.py:108-111 | the end of a selection lets the next one of its campaign begin |
| SelectionRace.VisibleWins | api/services/scoring/engine.py:108-111 | the wins a check counts: those its own call recorded, those of gift calls, and those of selections that have ended |
| SelectionRace.CapSurvivesIff | api/services/scoring/engine.py:62-111 | however calls overlap, recorded wins keep the cap exactly when every insertion would still pass the count its call checked, on a table with the uncommitted rows in it |
| SelectionRace.OverlapBound | api/views/crm.py:453-506 | with at most m calls in flight for a user, gift calls up to their record and selections up to their commit, thirty days hold at most L + m - 1 recorded wins |
| SelectionRace.SelectionsBound | api/services/scoring/engine.py:91-111 | the row lock leaves one selection per campaign in flight, so n campaigns record at most L + n - 1, and one keeps the cap |
| SelectionBounds.OverlapBoundIsExact | api/services/scoring/engine.py:91-111 | for every tier under the window, the lesser of L + m - 1 and the days, weeks or months that thirty days touch is exactly the bound kept by m calls in flight; so the cap is kept exactly for m of one, or a cap no smaller than those periods |
| SelectionRace.TwoCampaignsAcrossMidnight | api/services/scoring/engine.py:216-262 | selections of two different campaigns, each under its own lock, leave two daily wins a microsecond apart under caps of one |
| WinSeams.GrandCap | api/models/campaign_extended.py:1006-1014 | no run records more grand wins of a user in a campaign than its limit |
| WinAwards.GrandSilentIff | api/models/campaign_extended.py:1006-1075 | a grand award inserts nothing exactly when the user holds a grand win of the day and fewer of the campaign than the limit |
| WinAwards.GrandAwardCapIff | api/models/campaign_extended.py:1006-1075 | a run keeps its cap of L grand awards in a campaign exactly when it has no more attempts, or none of the first L meets a day on which the user already holds a grand win |
| WinSeams.GrandSeam | api/models/campaign_extended.py:1066-1075 | a final of another campaign on the same day leaves a grand award unrecorded, and the same user takes two of the campaign |
| ThrottleKeys.KeysNeverCollide | common/throttling.py:80-152 | over the declared scopes, keys are equal exactly for equal scope and identity, and never across the two families |
| ThrottleKeys.AccountBeforeAddress | common/throttling.py:90-106 | the user counts first, then the first field filled with more than blanks, then the address, which changes nothing while an account is named |
| ThrottleKeys.IdentityIs | common/throttling.py:90-106 | the identity holds the user signed in, the field's own value without the blanks around it, or the request's address |
| ThrottleKeys.SharedCounterIff | common/throttling.py:90-145 | two requests share a failure counter exactly when they are one caller in one scope: the same user, the same first field filled with the same value, or nobody named from the same address |
| ThrottleKeys.KeysNameTheCaller | common/throttling.py:96-130 | every key ends with the value, the address or the user's number in decimal |
| ThrottleKeys.StripIsPadded | common/throttling.py:99-104 | a text has one value with blanks around it, the stripped text |
| ThrottleKeys.PaddingIsIgnored | common/throttling.py:99-104 | blanks around a field do not change the identity |
| FailureCounter.FailureCache.CheckAndIncrement | common/throttling.py:122-136 | counts one failure of the request's identity, returns the attempts left of the limit, and 0 exactly when that identity is blocked from then on |
| FailureCounter.BlockedIffChain | common/throttling.py:139-145 | blocked exactly when the last max failures since the last clear follow one another inside their windows up to now, or the limit is none |
| FailureCounter.FailureCache.ClearFailures | common/throttling.py:148-154 | drops the identity's counter, so that it is not blocked at any time |
| FailureCounter.GetAfterFailure | common/throttling.py:131-136 | a failure moves its own counter and no other, at any time |
| FailureCounter.GetAfterClear | common/throttling.py:152-154 | a clear empties its own counter and no other |
| FailureCounter.CounterIsLongestChain | common/throttling.py:122-154 | over any history of all identities, the counter is the length of the longest chain of failures since the last clear whose gaps, to now included, stay inside their windows |
| LoginGate.HandleLogin | api/views/core.py:147-270 | from the counter alone: refuses from six on, leaves it for an incomplete request, clears it for a right password, counts a wrong one and answers with the attempts left, the sixth as a refusal; and keeps the cache equal to the replay of the history |
| LoginGate.CounterStaysWithinLimit | api/views/core.py:147-155 | behind the gate no counter passes six |
| LoginGate.GuessesPerWindow | api/views/core.py:147-247 | with requests handled in turn, at most six wrong passwords of an identity, and five more for every right one, are checked in any ten minutes of any run |
| LoginGate.LongRunGuesses | api/views/core.py:147-247 | over a span of any length, at most six for every ten minutes begun and five for every success |
| LoginGate.SixGuessesPerWindow | api/views/core.py:147-247 | between successes, six is all |
| LoginGate.GuessBoundIsReached | api/views/core.py:147-247 | for every number of successes some run reaches the bound |
| LoginGate.AccountBound | common/throttling.py:90-106 | what is checked at one account is bounded by the identities used against it, each with its own allowance and its own successes |
| LoginGate.SignedInGuesser | common/throttling.py:96-97 | a caller signed in to another account gets any number of guesses checked at once, with no success at the account guessed |
| FailureRace.NeverOverCounts | common/throttling.py:134-136 | under any interleaving of reads and writes the stored count never exceeds the failures of the run |
| FailureRace.CountsExactlyIff | common/throttling.py:134-136 | under any interleaving the counter is exact throughout exactly when every write finds the value its own call read |
| FailureRace.SerialCallsCountExactly | common/throttling.py:134-136 | as it does when calls do not overlap |
| FailureRace.SlowCallForgets | common/throttling.py:134-136 | one overlapping call reduces a count of any size to 1 |
| FailureRace.ClearIsUndone | common/throttling.py:134-154 | a failure overlapping a clear restores the cleared count |
| GateRace.SixWithoutOverlap | api/views/core.py:147-247 | while logins do not overlap, at most six wrong passwords are let in between two clears or expiries |
| GateRace.OverlappingLoginsAllPass | api/views/core.py:147-247 | any number of overlapping logins is let in on an empty counter |
| GateRace.OverlapBoundIsExact | api/views/core.py:147-247 | over all interleavings, the bound that m logins at a time keep between two clears or expiries is exactly Most(m, 0) |
| GateRace.DropStartsOver | common/throttling.py:148-154 | and with no login inside, a clear or expiry allows all of that again |
| GateRace.MostIsChoose | common/throttling.py:131-136 | which is the number of ways to choose m of m + 6, less one |
| GateRace.LimitHoldsIff | api/views/core.py:147-247 | so the limit of six holds of every run exactly for one login at a time |
| RateParser.ParsesTheGrammar | common/throttling.py:33-55 | the parser returns a rate exactly for the texts the pattern reads, with their meaning; so all readings agree |
| RateParser.DelegatesTheRest | common/throttling.py:48-50 | everything else goes to the framework's parser |
| RateParser.PrintedRateParses | common/throttling.py:33-55 | a rate printed in any spacing, unit letter and suffix parses back |
| RateParser.SingleUnitReading | common/throttling.py:37-43 | without a multiplier the period is read by its first letter |
| RateParser.UnitsAre | common/throttling.py:53-54 | sixty seconds a minute, sixty minutes an hour, twenty-four hours a day |
| RateParser.ClassesAre | common/throttling.py:33 | blanks, digits, letters and unit letters by their codes, letters in either case |
| RateParser.CaseIsIgnored | common/throttling.py:33-55 | the case of a rate's letters changes nothing |
| Decimal.PrintLength | api/migrations/0112_organization_admin_role_and_code.py:52 | a number has at most k digits exactly when below 10^k |
| Decimal.ValueIsPositional | common/throttling.py:51-52 | digits before others count as many tens as there are others |
| CodeAllocator.SlugIsJoinedWords | api/migrations/0112_organization_admin_role_and_code.py:30-33 | a slug is the upper-cased words of the name joined by single hyphens, or ORG, cut to 40 |
| CodeAllocator.WordsAreRuns | api/migrations/0112_organization_admin_role_and_code.py:32 | a run of letters and digits is one word, and every other character parts the words before it from those after it |
| CodeAllocator.UpperIs | api/migrations/0112_organization_admin_role_and_code.py:32 | upper case moves the small letters and nothing else |
| CodeAllocator.SlugShape | api/migrations/0112_organization_admin_role_and_code.py:30-33 | a slug has 1 to 40 capitals, digits and single hyphens, none of them first, nor last but at the cut |
| CodeAllocator.CandidateReadsBack | api/migrations/0112_organization_admin_role_and_code.py:52 | a numbered code reads back as the base, a hyphen and the number |
| CodeAllocator.TakenBoundsSuffix | api/migrations/0112_organization_admin_role_and_code.py:51-53 | pigeonhole: a base and all its candidates below a suffix need as many taken codes |
| CodeAllocator.FindFree | api/migrations/0112_organization_admin_role_and_code.py:48-54 | the search ends, with a suffix no larger than the taken codes plus one, on the base or the least free suffix |
| CodeAllocator.CodeIsDetermined | api/migrations/0112_organization_admin_role_and_code.py:48-54 | only one code is right for a base and the codes before it |
| CodeAllocator.BackfillCodes | api/migrations/0112_organization_admin_role_and_code.py:36-56 | every organization gets the right code given the earlier ones, all pairwise distinct |
| CodeAllocator.BackfilledCodesFit | api/migrations/0112_organization_admin_role_and_code.py:78-83 | below a billion organizations every code has 1 to 50 characters |
| BoostPricing.HalfEvenUnique | api/models/boost.py:129 | half-even rounding is characterised by nearest and even on ties |
| BoostPricing.MulExact | api/models/boost.py:100-127 | a product of at most 28 digits is computed without rounding |
| BoostPricing.LongIsRounded | api/models/boost.py:100-127 | a longer result is rounded half to even to its leading 28 digits |
| BoostPricing.CostIsRoundedOnce | api/models/boost.py:98-129 | while partial products fit 28 digits the price is the half-even rounding of the exact product |
| BoostPricing.CostIsHalfEven | api/models/boost.py:98-129 | for ordinary settings and any integer duration they always fit, so the price is at most half a cent off |
| BoostPricing.CostMonotone | api/models/boost.py:98-129 | monotone in rate, surcharge, fee and premium targeting, antitone in the discount |
| BoostPricing.ImpressionsAre | api/models/boost.py:131-133 | price times impressions per coin with the fraction cut off, for every product of at most 28 digits |
| BoostPricing.LongImpressionsAre | api/models/boost.py:131-133 | past that, of the product rounded half to even to its leading 28 digits |
| BoostPricing.NegativeImpressionsAre | api/models/boost.py:131-133 | a negative price counts as far down as its opposite counts up |
| BoostPricing.DefaultImpressions | api/models/boost.py:35-37 | the defaults give ten impressions a coin |
| BoostPricing.ImpressionsMonotone | api/models/boost.py:131-133 | expected impressions follow the price through the rounding of the product to 28 digits and the cut to a whole number |
| BoostPricing.DefaultPrice | api/models/boost.py:20-42 | for any duration the defaults charge 55 coins an hour, fee included, less the advertised tier percentage |
| BoostPricing.DurationOrderIff | api/models/boost.py:98-129 | of any two durations one is priced below the other exactly when a rounding boundary parts their discounted hours times the rate |
| BoostPricing.NoLowerForTheWeight | api/models/boost.py:98-129 | never for as many discounted hours or more |
| BoostPricing.LowerPastACent | api/models/boost.py:98-129 | always once the exact prices lie more than a cent apart |
| BoostPricing.DefaultUndercutsIff | api/models/boost.py:20-116 | the durations that the defaults sell for less than a shorter one |
| RewardLedger.CampaignRewards.Award | api/services/coin_config.py:299-356 | pays the largest amount the request, the budget and the ceilings allow; declines exactly when they allow none, finds the engagement paid exactly when it has a grant, and fails exactly when the total would outgrow its column; grant and total move together or not at all |
| RewardLedger.PaysTheMost | api/services/coin_config.py:303-329 | an award of something not yet granted pays the largest allowed amount, and nothing exactly when none is allowed or an allowed one would outgrow the column |
| RewardLedger.PaysNothingAgain | api/services/coin_config.py:330-356 | and nothing for an engagement that has a grant |
| RewardLedger.RemainingIs | api/models/coin_config.py:162-171 | remaining budget and exhaustion for every row, none and false without a budget |
| RewardLedger.CampaignRewards.ApplyChanges | api/services/coin_config.py:423-501 | accepts exactly values that fit their columns with a budget no smaller than what the row read had paid and the stored row has; then saves each field that differs from the row read, and never the distributed total |
| RewardLedger.CampaignRewards.SnapshotForCampaign | api/services/coin_config.py:204-246 | writes the row as read with the defaults over it, unless it was locked |
| RewardRuns.EveryRunIsSafe | api/models/coin_config.py:145-152 | under any interleaving the total stays within a non-zero budget and no engagement has two grants |
| RewardRuns.PaidOnce | api/models/coin_config.py:238-272 | after an engagement is paid, whatever follows, awarding it again changes nothing |
| RewardRuns.Conservation | api/services/coin_config.py:299-344 | coins paid equal the distributed total plus what snapshots wiped |
| RewardRuns.AccountedIff | api/services/coin_config.py:235-244 | the total equals the grants throughout a run exactly when no award pays between an unlocked read and the snapshot save that uses it |
| RewardRuns.BudgetIsHonest | api/models/coin_config.py:162-171 | then the budget bounds what was paid, remaining plus paid is the budget, and exhausted means none remains |
| RewardRuns.SnapshotRace | api/services/coin_config.py:235-297 | one award inside a snapshot lets a budget of any size be overspent |
| RewardRuns.StaleCheckIsHarmless | api/services/coin_config.py:462-468 | as long as the total has not shrunk since the read, an edit judged on an old row is refused only where the constraint would refuse it |
| RewardRuns.EditsAreJudgedWhenSaved | api/services/coin_config.py:462-490 | which holds throughout a run in which no award pays inside a snapshot |
| RewardRuns.UserCeilingHolds | api/services/coin_config.py:313-319 | no run pays a user more than the ceiling in force |
| RewardRuns.DailyCeilingHolds | api/services/coin_config.py:321-326 | nor more than the daily ceiling on any day of either calendar |
| RewardRuns.SeesTodayIff | api/services/coin_config.py:321-369 | the ceiling's query sees exactly the coins of the local day, for every ledger, exactly outside the last three hours of the UTC day |
| RewardRuns.DailyCeilingOutlastsTheDay | api/services/coin_config.py:321-369 | inside them coins earned a day ago, on neither calendar's today, refuse an award |
| RouteTools.Collect | scripts/generate_postman.py:335-343 | appends exactly the depth-first leaves to what the shared list held |
| RouteTools.CollectAll | scripts/generate_postman.py:335-343 | the walk from the root returns a new list of all leaves |
| RouteTools.NormaliseIs | scripts/generate_postman.py:325-332 | a fragment without the carets before it and the dollars after it, and otherwise unchanged |
| RouteTools.LeavesAreSomewhere | scripts/generate_postman.py:335-343 | a route is collected exactly when some address in the tree leads to it, by the fragments on the way, under its own name |
| RouteTools.LeavesAppend | scripts/generate_postman.py:335-343 | in the order of the trees |
| RouteTools.MountingPrepends | scripts/generate_postman.py:325-343 | mounting a tree only prepends to its paths |
| RouteTools.FolderFor | scripts/generate_postman.py:397-401 | the first row whose prefix starts the route, else Other |
| RouteTools.FirstIsLongestIff | scripts/generate_postman.py:397-401 | for any table, the first match is the longest for every route exactly when no row hides a longer one below it |
| RouteFolders.LongestPrefixWins | scripts/generate_postman.py:35-102 | for the table of the script it is, for every route |
| RouteFolders.AdminFolders | scripts/generate_postman.py:36-401 | a route gets an admin folder exactly when it lies under the admin root |
| RouteTools.SegmentsAre | scripts/generate_postman.py:432-438 | every slash parts the segments before it from those after it, what has none is one segment, and a last slash adds an empty one |
| RouteTools.SegmentsRoundTripIff | scripts/generate_postman.py:432-438 | joining the segments gives the path back exactly when it has no leading and no doubled slash |
| CampaignTimeline.TimelineProblems | api/models/campaign.py:157-182 | no problem is reported exactly when every two dates that are set are in order |
| CampaignTimeline.NeighboursSuffice | api/models/campaign.py:173-182 | comparing neighbours among set dates judges all pairs, for a timeline of any length |
| CampaignTimeline.ProblemsName | api/models/campaign.py:173-182 | a sentence is among the problems exactly when it names a date and the next one set, and the first of them is the later |
| CampaignTimeline.Campaign.Clean | api/models/campaign.py:184-194 | refuses exactly when one of the four dates is later than one that should follow it |
| CampaignTimeline.CampaignSays | api/models/campaign.py:150-182 | the six sentences, and the dates each is about |
| CampaignTimeline.BlankingKeepsOrder | api/models/campaign.py:170-175 | unsetting any date of a clean timeline leaves it clean |
| CampaignTimeline.ShiftKeepsOrder | api/models/campaign.py:160-164 | reading the dates in another time zone changes no verdict |
| CampaignStats.UserCampaignStats.UpdateStats | api/models/campaign_extended.py:594-620 | counts and scores come from the posts alone, the streak and participation terms are added once |
| CampaignStats.NoPosts | api/models/campaign_extended.py:594-620 | without posts the total is what the days pay |
| CampaignStats.OneMorePost | api/models/campaign_extended.py:594-612 | what one more approved, rejected or pending post changes, and that a post of another user or campaign changes nothing |
| CampaignStats.OneMoreDay | api/models/campaign_extended.py:613-618 | what one more day of streak or participation changes |
| CampaignStats.AverageIs | api/models/campaign_extended.py:601-604 | average times approved posts is the total without the days |
| CampaignStats.NothingAccumulates | api/models/campaign_extended.py:594-620 | whatever the fields held, the result is the same, and a second call changes nothing |
| CampaignStats.OrderDoesNotMatter | api/models/campaign_extended.py:596-612 | the order in which the posts are read does not matter |

## Left out

- The rest of the selectors, participation rules, prize delivery and CRM calls: only how they check and record in the frequency table is modelled.
- WinAwards.MonthlyAwardCapIff: is about caps of one; under larger monthly caps `WinSeams.PeriodSeam` shows that no run need keep the cap.
- What a caller tests of the campaign before it reaches the check: recent winners of the campaign, a cycle already won, a prize already settled.
- Selections that roll back, and a call that runs its selection twice over the same entries: a selection passes each user at most once and commits.
- Recording with periods chosen by the caller, unknown winner types, and the selection a row points to.
- ThrottleKeys.KeysNeverCollide: covers the scopes declared in the module; other scope names could be made to collide.
- Non-string body fields, non-ASCII blanks, digits and letters, and the framework's own rate parser and throttle classes.
- BoostPricing.CostIsRoundedOnce: says nothing once a partial product exceeds 28 digits, where the result is rounded more than once.
- The order of resolution of coin rules, the platform ceilings, the audit trail, wallets and balances: `Award` takes the requested amount as given.
- CampaignStats.UserCampaignStats.UpdateStats: takes the average as an exact quotient, without the rounding of its column.
- The scoring formulas: straight-line sums with no property beyond their own text.
- `BoostCampaign.save`, `clean_route`, `methods_for`, `is_public`, request bodies, and all transport, storage and provider code.
