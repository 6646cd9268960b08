# B.A.S.T.I.O.N. defence core, modelled and proved in Dafny

B.A.S.T.I.O.N. watches authentication logs, scores the addresses behind them, bans the
dangerous ones at the firewall and keeps its ban table and the firewall in agreement.
This project models that core and proves what it keeps over whole runs.

`dafny verify dfyconfig.toml` checks everything.

## How the model is built

The Python objects that change state are Dafny classes with the same fields
(`Stores`, `Defense`, `Detectors`, `Spray`, `Scorer`, `Maintenance`,
`Correlation`, `Generator`). Each of their methods is proved to take its state where a
function on values says (`Enforcement`, `Reconciliation`, `Runs`, `Detection`,
`Risk`, `Deduplication`, `Incidents`, `Timeline`). The lemmas then prove what matters
about those functions, over every input and every run. Three modules tie them to plain
facts that name no function of the specification: `Outcomes` to clock readings, row
fields and rules, `Scores` to the configured weights, `Contents` to the stored rows.

- Time is an integer number of microseconds. An operation reads the clock once and
  gets it as a parameter, together with an `Env`: whether the firewall is available
  and for which addresses `block_ip` raises. Both may change from step to step.
- The ban table is a sequence and a ban's id is its row number, so ids are fresh.
- A detector's result for one event, and the indicators that match it, are inputs of
  the pipeline step; the detectors are proved on their own.
- The firewall is the in-memory one: a map from address to expiry, evicted lazily when
  it is listed.

## Main results

1. **Two stores, bounded drift** (`Safety`). After every run, a rule of an ACTIVE timed
   ban expires strictly within one second of the ban, and a rule of a permanent ban
   never does, however often bans are re-synced. Without flushes every ACTIVE ban is
   blocked until one second before it expires, even if the firewall is unavailable or
   raises at any step. Conversely, flushes and restarts included, whatever is blocked has
   an ACTIVE ban, or an EXPIRED one that ended less than a second before. And a ban lasts:
   no step makes an ACTIVE row anything else, except an unban of its address, or an expiry
   whose clock has reached the stored one (`Outcomes`).
2. **Unique ACTIVE bans, and what follows.** No address ever has two. So an unban
   sticks through any later expiry, recovery and reconciliation, until a step for the
   address stores an ACTIVE ban again.
3. **Reconciliation heals from any state** (`Reconciliation`), including duplicate
   bans and foreign rules; it counts the symmetric difference exactly and is idempotent.
4. **Sliding windows** (`Detection`). On ordered streams a deque is the qualifying
   history filtered by the window; on arbitrary streams it is a suffix of that history
   which never undercounts; a shorter window always holds a suffix of a longer one.
5. **Limit pushdown** (`Timeline`, `Tails`). Cutting four sources to the limit first and
   merging gives the times of the tail of the full merged history exactly when every row
   that was cut has `limit` gathered entries at its time or later, and its entries exactly
   when every instant is gathered as it is to be shown; for rows in any order of
   insertion, any ties and any limit, for one address and for an incident. Rows inserted
   in time order always meet the first condition. Whatever is shown is stored about the
   address, no more often than it is stored, as many as the limit asks for; and rows of
   other addresses, inserted or deleted anywhere, change nothing (`Contents`).
6. **Check scheduling** (`Maintenance`). The exact longest gap between two expiry checks
   for every reconciliation interval, whatever the firewall does; a lapsed ban is
   released, rule included, within five ticks of an available firewall. The worker, with
   anything happening between its ticks, is one of the runs of results 1 and 2.
7. **Incidents** (`Incidents`). Over every run an incident's score, techniques,
   indicators, severity and time are those recomputed from what was correlated into it;
   one is opened exactly when the activity warrants it and none is active, and whatever
   warranted one leaves its address covered until an operator closes it.
8. **Invisible eviction and a rate bound** (`Deduplication`), **profile as a fold of the
   log** (`ProfileLog`), **explained and monotone scores** (`Risk`, `Scores`, `Policy`).

## Where the code falls short of the plain claim

Each of these, except the last, is proved as an exact condition.

- A ban with a negative duration is stored as permanent while its rule is timed
  (`CreationAgreesIff`).
- Unbanning frees an address exactly when it had at most one ACTIVE ban, and expiry
  spares every live ban exactly when no address has both a lapsed and a live one
  (`UnbanFreesIff`, `ExpirySparesLiveIff`); reachable states satisfy both.
- The comment in the maintenance worker promises an expiry check every 5 seconds. That
  holds while the firewall is available. Whatever the firewall does, a fixed interval
  `r` leaves some check in every `n` ticks exactly when `r >= 5` and `n >= 5 + r % 5`
  (`CheckGapIff`); so the promise holds exactly for the positive multiples of five
  (`FiveTicksIff`), an interval of nine reaches gaps of nine (`NineIsReached`), and
  one below five may never check.
- Three of the timeline's four limited queries cut by insertion, not by time, so rows
  inserted out of time order, as after a replayed log or a line of December read in
  January, can push later ones out: `OutOfOrderMisleads` gives two events and a limit of
  one for which the older is shown. For a positive limit the times shown are right
  exactly when every row that was cut has at least `limit` gathered entries at its time or
  later (`TimelineTimesIff`, `IncidentTimesIff`); rows in time order meet this
  (`InOrderIsOutnumbered`).
- Rows of one source that share a time, as whole-second log stamps produce, come out of
  the generator in reverse order, and the final limit, cutting among them, keeps the
  older ones. `TiesMislead` gives three rows for which the newer login is dropped. The
  entries shown are right exactly when what was gathered of every instant, each query
  read backwards (`GatheredInstant`), ends with what is to be shown of it
  (`TimelineIsTailIff`). For rows in time order that is when the shown part of every
  source reads the same with each instant reversed (`InOrderTimeline`), and for pairwise
  different entries when no shown entry shares its time with its predecessor
  (`ClearIff`). Ties between sources are harmless (`PushdownForIp`).
- A timeline with limit 0 shows only the ban instead of everything or nothing, and a
  negative limit drops entries once per actor and once more from an incident's timeline
  (`TimelineIsTailIff`, `IncidentIsTailIff`).
- A late alert can slip through the deduplication cache after an eviction
  (`LateAlertsSlipThrough`). Alerts may be late by the window and one clock tick, and
  no more, for eviction to be invisible (`EvictionInvisibleIff`) and for accepted alerts
  to be a window apart (`AcceptedSpacedIff`). An alert at time zero is never remembered
  (`ZeroIsForgotten`).
- The score of a trusted source is its explained sum unless its discount is configured
  positive (`ScoreIsExplained`), and its stored success count is rarely the true one
  (`TrustedSuccessesIff`).
- Reopening an incident can give an address two active ones (`StatusChangeIff`).
- `docs/threat-model.md` says that detecting out-of-band firewall changes is not
  implemented; the reconciler does restore missing rules and counts foreign ones, and
  the model follows the code. The docstring of `get_ban_by_ip` speaks of "active or
  unexpired" bans; the query returns ACTIVE ones only, expired or not.

## Model

| member | source | states |
|---|---|---|
| Safety.DriftBounded | src/bastion/response/ban_manager.py:36-62 | over every run with non-negative durations, rules of ACTIVE timed bans stay strictly within a second of the ban's expiry and rules of permanent bans never expire |
| Safety.CreationAgreesIff | src/bastion/response/ban_manager.py:36-58 | a new ban and its rule agree, to the microsecond, exactly when the duration is absent or non-negative |
| Safety.FreshRuleIsNear | src/bastion/response/ban_manager.py:132-135 | truncating the remaining time to whole seconds, at least one, misses the ban's expiry by less than a second |
| Safety.ActiveBansAreBlocked | src/bastion/daemon/reconciliation.py:85-93 | from an empty system without flushes, every ACTIVE ban is blocked at all times up to one second before it expires |
| Safety.BlockedHasCause | src/bastion/response/ban_manager.py:24-138 | after every sound run, restarts and flushes included, a blocked address has an ACTIVE ban, or an EXPIRED one that ended less than a second before |
| Safety.SyncKeepsCause | src/bastion/response/ban_manager.py:117-138 | startup recovery may leave the rule of a ban that lapsed, but only one that ends within a second of the ban |
| Safety.ActiveBansStayUnique | src/bastion/response/engine.py:50-53 | no run ever gives an address two ACTIVE bans |
| Safety.UnbanSticks | src/bastion/response/ban_manager.py:83-96 | after an unban the address is neither blocked nor banned until a step for it stores an ACTIVE ban |
| Safety.RunsElsewhereSpare | src/bastion/response/ban_manager.py:83-138 | runs with no step for the address are among those that spare it |
| Safety.UnbanFreesIff | src/bastion/response/ban_manager.py:85-89 | unbanning leaves an ACTIVE ban behind exactly when the address had two |
| Safety.ExpiryKeepsLiveRules | src/bastion/response/ban_manager.py:98-115 | with unique ACTIVE bans, expiring one never unblocks an address another live ban covers |
| Safety.ExpirySparesLiveIff | src/bastion/response/ban_manager.py:103-106 | in any table, expiry spares all live rules exactly when no address has a lapsed and a live ACTIVE ban |
| Safety.StartupRestores | src/bastion/response/ban_manager.py:117-138 | recovery completes exactly when no live address is refused; lapsed bans are retired, live ones get the rule they deserve, other rules stay |
| Safety.AllowlistSafe | src/bastion/response/policy.py:43-69 | no run of policy-driven steps blocks an allowlisted address or stores an ACTIVE ban for one |
| Safety.HonestResponse | src/bastion/response/engine.py:57-122 | `executed` is reported exactly when the call stored and enforced an ACTIVE ban; otherwise rules and ACTIVE bans are unchanged, and a refusal leaves a FAILED record and mode DISABLED |
| Safety.PassiveRunsOnlyObserve | src/bastion/response/engine.py:100-120 | dry-run, manual and disabled runs never create an ACTIVE ban or block an address that had none |
| Safety.NoEvidenceNoBan | src/bastion/response/policy.py:75-102 | under the defaults an event without detections and indicators changes no ban and no rule |
| Outcomes.RetiredForCause | src/bastion/response/ban_manager.py:83-138 | in every operation an ACTIVE row changes only by an unban of its address or, once the clock has reached its stored expiry, to EXPIRED; nothing else in a stored row ever changes |
| Outcomes.BanLasts | src/bastion/response/models.py:75-79 | over every run an ACTIVE row stays until its address is unbanned or a clock reading reaches its expiry, for ever when it has none |
| Outcomes.BanBlocksUntilDue | src/bastion/response/ban_manager.py:24-138 | from an empty system without flushes such a ban also blocks at every instant up to one second before its expiry |
| Outcomes.ExpiryExactly | src/bastion/response/ban_manager.py:98-115 | an expiry check retires exactly the ACTIVE rows whose stored expiry the clock has reached, removes exactly the rules of their addresses and marks exactly their actors |
| Outcomes.OperatorBanOutcome | src/bastion/services/defense.py:71-94 | a manual ban of an address without one stores exactly one row with the stated score, action and expiry, ACTIVE with its rule or FAILED without; refused or redundant it changes nothing |
| Outcomes.OperatorBanBlocks | src/bastion/services/defense.py:71-94 | a manual ban that the firewall takes blocks its address for the requested duration, or for good when permanent |
| Outcomes.UnbanOutcome | src/bastion/response/ban_manager.py:83-96 | an unban removes the rule of its address alone and marks the latest ACTIVE row, if there is one |
| Outcomes.RuleCommands | src/bastion/firewall/mock.py:37-50 | a flush empties the rules of an available firewall; listing drops exactly the rules whose expiry is past |
| Outcomes.ResponseOutcome | src/bastion/response/engine.py:32-122 | which record each mode leaves for a decision to isolate, with its duration and status, and when a rule is set |
| Outcomes.ResponseAnswer | src/bastion/response/engine.py:38-122 | the reported ban is the stored or the found one; a response is executed exactly when it stored an enforced ban, and its mode becomes DISABLED exactly when enforcement was wanted and failed |
| Outcomes.ResponseActors | src/bastion/response/ban_manager.py:64-79 | storing a ban changes only the address's actor row: ISOLATED when enforced, and a new row with the record's score and action |
| Outcomes.ProcessOutcome | src/bastion/services/pipeline.py:167-208 | a telemetry item is logged, answered as its assessed profile alone would be, and that profile is stored with the first-seen time kept |
| Outcomes.ThreatIsBanned | src/bastion/response/engine.py:57-98 | in automatic mode an event that scores to the threshold, of an address neither allowlisted nor banned, is answered by an ACTIVE ban and a rule lasting as long |
| Outcomes.StartupOutcome | src/bastion/response/ban_manager.py:117-138 | a recovery the firewall takes retires exactly the rows that are due, gives every other ACTIVE ban a rule within a second of its expiry, and leaves other addresses alone |
| Outcomes.ReconcileOutcome | src/bastion/daemon/reconciliation.py:55-119 | a reconciliation the firewall takes retires exactly the rows that are due, blocks every other ACTIVE ban, and keeps only rules of such bans and foreign ones |
| Outcomes.CleanedExactly | src/bastion/daemon/reconciliation.py:70-76 | the reported cleaned addresses are those of exactly the ACTIVE rows that were due, one for each, latest created first |
| Runs.Classify | src/bastion/services/defense.py:71-119 | every step of the system creates at most one ban, for its own target and only without an ACTIVE one, or only retires bans and refreshes rules of live ones |
| Enforcement.ActiveRowsFacts | src/bastion/storage/sqlite.py:380-389 | the active-ban query returns every ACTIVE row exactly once, latest first |
| Enforcement.BanForFacts | src/bastion/storage/sqlite.py:391-406 | the query by address finds the most recent ACTIVE ban, if and only if there is one |
| Reconciliation.ReconcileReports | src/bastion/daemon/reconciliation.py:59-109 | from any stores: healthy exactly when the firewall answers for every missing address; restored is expected minus listed and mismatches the size of the symmetric difference |
| Reconciliation.ReconcileHeals | src/bastion/daemon/reconciliation.py:70-93 | after a healthy reconciliation no ACTIVE ban is lapsed, each is blocked, live records are untouched and rules of addresses not just expired are kept |
| Reconciliation.ReconcileStores | src/bastion/daemon/reconciliation.py:70-98 | rules afterwards are among the listed and the expected ones, and exactly those when healthy |
| Reconciliation.ReconcileTwice | src/bastion/daemon/reconciliation.py:55-109 | a second reconciliation at the same instant changes nothing and reports only foreign rules |
| Reconciliation.ExpectedIsLive | src/bastion/daemon/reconciliation.py:78-80 | the dictionary of expected bans has exactly the addresses with a live ban as keys |
| Reconciliation.ExpiryFacts | src/bastion/response/ban_manager.py:103-113 | expiry makes EXPIRED exactly the ACTIVE rows whose stored expiry the clock has reached, and leaves every other row as it was |
| Stores.SQLiteStorage.SaveBan | src/bastion/storage/sqlite.py:340-368 | a new ban is appended under a fresh id |
| Stores.SQLiteStorage.UpdateBanStatus | src/bastion/storage/sqlite.py:370-378 | changes the status of one row and reports whether it exists |
| Stores.SQLiteStorage.UpsertThreatActor | src/bastion/storage/sqlite.py:190-233 | replaces or inserts the row of the profile's address, keeping the stored first-seen time |
| Stores.Firewall.BlockIp | src/bastion/firewall/mock.py:26-29 | stores a rule timed for every nonzero duration, or raises and changes nothing |
| Stores.Firewall.ListBlockedIps | src/bastion/firewall/mock.py:37-46 | drops exactly the rules that ran out and lists the rest |
| Defense.BanManager.CreateBan | src/bastion/response/ban_manager.py:24-81 | raising leaves the world unchanged; otherwise the record, the profile row and the rule change as specified |
| Defense.BanManager.Unban | src/bastion/response/ban_manager.py:83-96 | removes the rule, retires the latest ACTIVE ban, marks the actor, and reports whether there was a ban |
| Defense.BanManager.CheckExpirations | src/bastion/response/ban_manager.py:98-115 | the loop makes EXPIRED exactly the ACTIVE rows whose stored expiry the clock has reached, unblocks exactly their addresses and returns them in order |
| Defense.BanManager.SyncOnStartup | src/bastion/response/ban_manager.py:117-138 | the loop follows the specified recovery up to a raising address, with the state and count it leaves |
| Defense.ResponseEngine.Process | src/bastion/response/engine.py:32-122 | mode, availability, the already-banned check and the exception path act as specified, with the decision and ban returned |
| Defense.DefenseAppService.BanIp | src/bastion/services/defense.py:71-94 | with an ACTIVE ban, or a refusing firewall, nothing changes; otherwise one row is stored, ACTIVE with its rule under an available firewall and FAILED without one |
| Defense.DefenseAppService.UnbanIp | src/bastion/services/defense.py:96-101 | succeeds exactly when the address had an ACTIVE ban, with the effect of an unban |
| Defense.DefenseAppService.FlushFirewall | src/bastion/services/defense.py:114-119 | clears the rules exactly when the firewall is available |
| Defense.FirewallReconciler.CollectExpected | src/bastion/daemon/reconciliation.py:79-80 | builds the dictionary of live bans, keys in first-seen order, a later row replacing an earlier |
| Defense.FirewallReconciler.RestoreMissing | src/bastion/daemon/reconciliation.py:86-93 | reinstates each missing rule in order and stops at the first address that raises |
| Defense.FirewallReconciler.Reconcile | src/bastion/daemon/reconciliation.py:55-119 | the imperative reconciliation has the specified effect and report, failures included |
| Defense.SentinelPipeline.ProcessRaw | src/bastion/services/pipeline.py:167-208 | saves the event, assesses it against the stored profile, responds, then stores the new profile |
| Maintenance.CheckWithinFive | src/bastion/daemon/runner.py:407-434 | with an available firewall any five consecutive ticks check expiry, whatever interval each tick sees |
| Maintenance.CheckWithinNine | src/bastion/daemon/runner.py:407-434 | intervals of at least five leave at most nine ticks without a check, whatever the firewall does |
| Maintenance.CheckNever | src/bastion/daemon/runner.py:430-434 | an interval below five with an unavailable firewall never checks, from any counter the worker can have |
| Maintenance.CheckExactly | src/bastion/daemon/runner.py:407-434 | for a fixed interval, the number of ticks up to a check: enough whatever the firewall does, and not one less when it is unavailable |
| Maintenance.CheckGapIff | src/bastion/daemon/runner.py:407-434 | every n ticks contain a check, from every counter and whatever the firewall does, exactly when the interval r is at least five and n at least 5 + r % 5 |
| Maintenance.FiveTicksIff | src/bastion/daemon/runner.py:407-410 | the promised check every five ticks holds exactly for intervals that are positive multiples of five |
| Maintenance.NineIsReached | src/bastion/daemon/runner.py:407-434 | with an interval of nine, eight ticks may pass without a check and nine may not |
| Maintenance.StepAccounts | src/bastion/response/ban_manager.py:83-115 | no operation but startup recovery retires a ban and leaves its address with a rule under no ACTIVE ban |
| Maintenance.TickReleases | src/bastion/daemon/runner.py:410-434 | a checking tick retires a lapsed ban and leaves its address without a rule unless another ban of it is ACTIVE |
| Maintenance.CheckReleases | src/bastion/daemon/runner.py:410-434 | ticks that include a check retire every ban that had lapsed before them, whatever runs in between; without a restart its address is then blocked only under another ACTIVE ban |
| Maintenance.ReleasedWithinFiveTicks | src/bastion/daemon/runner.py:399-455 | a lapsed ban is retired, and without a restart its address unblocked unless another ban of it is ACTIVE, within five ticks of an available firewall |
| Maintenance.ExportsAreFrequent | src/bastion/daemon/runner.py:453-455 | from every reachable counter a health export is at most the shorter of the two intervals away |
| Maintenance.ExportExactly | src/bastion/daemon/runner.py:407-455 | the number of ticks to the next export from any counter |
| Maintenance.LostRulesReturn | src/bastion/daemon/runner.py:407-434 | rules lost to a flush outside the daemon are back within one reconciliation interval of an available, unrefusing firewall |
| Maintenance.BastionDaemon.OneTick | src/bastion/daemon/runner.py:407-455 | one pass of the worker loop: next counter, effect on both stores, export or not |
| Maintenance.BastionDaemon.Worker | src/bastion/daemon/runner.py:399-455 | the worker loop, from counter zero, is the specified daemon run and exports health at each exporting tick, with any operations and any change of the firewall between ticks |
| Maintenance.SomeExportIff | src/bastion/daemon/runner.py:453-455 | under fixed intervals, some of the next ticks exports exactly when the worker counts an export in them |
| Maintenance.BastionDaemon.Perform | src/bastion/daemon/runner.py:216-330 | every operation of the daemon, run on its shared objects, takes the two stores where the specification of runs says |
| Maintenance.DaemonIsRun | src/bastion/daemon/runner.py:399-455 | the worker's seconds, ticks included, are a run of operations, so what holds after every run holds of the worker |
| Detection.WindowRefinement | src/bastion/detection/brute_force.py:109-119 | on streams ordered per address the deque is exactly the qualifying events no older than the latest event less the window |
| Detection.RetainedIsSuffix | src/bastion/detection/brute_force.py:60-68 | on arbitrary streams the deque is a suffix of the qualifying history and pushed equals popped plus retained |
| Detection.NoUndercount | src/bastion/detection/brute_force.py:116-119 | whatever was popped is older than the largest time seen for the address less the window |
| Detection.NewestSurvives | src/bastion/detection/brute_force.py:60-66 | a qualifying event is the last entry of its deque right after it is processed |
| Detection.OtherAddressesIrrelevant | src/bastion/detection/brute_force.py:60-66 | events of other addresses never affect a deque |
| Detection.NestedWindows | src/bastion/detection/burst.py:83-86 | on one arbitrary stream the deque under a shorter window is a suffix of the deque under a longer one |
| Detection.WindowHolds | src/bastion/detection/brute_force.py:60-68 | on ordered streams a window holds each event of the address that the detector counts, named by type, flag and username, and that is no older than the latest event less the window, as often as it occurred, and nothing else |
| Detectors.BruteForceDetector.constructor | src/bastion/detection/brute_force.py:15-33 | starts with no history and a positive threshold and window |
| Detectors.BruteForceDetector.Evaluate | src/bastion/detection/brute_force.py:35-88 | counts what is retained of the whole history; detects exactly at the threshold on a qualifying event |
| Detectors.BruteForceDetector.CountActive | src/bastion/detection/brute_force.py:94-107 | evicts from one address's deque only and counts what is left |
| Detectors.BruteForceDetector.Reset | src/bastion/detection/brute_force.py:90-92 | the detector is as if it had been shown nothing |
| Detectors.BurstDetector.Evaluate | src/bastion/detection/burst.py:33-73 | the same over the burst window |
| Detectors.UsernameEnumerationDetector.Evaluate | src/bastion/detection/enumeration.py:33-76 | the same for events that target invalid users |
| Detectors.EvaluateBoth | src/bastion/detection/burst.py:45-73 | shown the same stream, the burst count never exceeds the brute-force count of a window at least as long |
| Detectors.ExpireOld | src/bastion/detection/brute_force.py:109-119 | the popping loop removes exactly the longest stale prefix, for bare times and for (time, username) pairs |
| Spray.CountPerUser | src/bastion/detection/password_spray.py:63-65 | the loop counts each distinct username's attempts, and only those |
| Spray.MaxCount | src/bastion/detection/password_spray.py:68-68 | the largest count, 0 when there is none |
| Spray.PasswordSprayDetector.Evaluate | src/bastion/detection/password_spray.py:35-81 | reports the distinct users in the window; detects exactly when there are enough and none has too many attempts |
| Spray.CountsSumToLength | src/bastion/detection/password_spray.py:63-65 | the per-user counts sum to the length of the deque |
| Spray.EveryUserCounted | src/bastion/detection/password_spray.py:63-67 | a username has a positive count exactly when it is in the window |
| Spray.SprayBounds | src/bastion/detection/password_spray.py:67-70 | a spray has between one and the maximum number of attempts per distinct user |
| Spray.UsersInWindow | src/bastion/detection/password_spray.py:67-67 | the distinct users are the usernames of the events in the window |
| Scorer.RiskEngine.Evaluate | src/bastion/risk/scorer.py:47-284 | the accumulating code yields the assessed profile; an untrusted source's factors list each triggered detection with its detector's configured weight, and the score is their clamped sum |
| Scorer.RiskEngine.Score | src/bastion/risk/scorer.py:111-236 | score and factor list, accumulated side by side, agree with the closed forms |
| Scorer.RiskEngine.ScoreDetections | src/bastion/risk/scorer.py:153-200 | each triggered detection of the four known detectors is listed once, with the weight configured for that detector, and custom detectors never |
| Scorer.RiskEngine.ScoreIocs | src/bastion/risk/scorer.py:215-224 | the loop scores and lists each matched indicator in order |
| Risk.ScoreIsExplained | src/bastion/risk/scorer.py:60-81 | the score is the clamped sum of the listed deltas unless the source is trusted with a positive discount |
| Risk.OrderIrrelevant | src/bastion/risk/scorer.py:153-224 | the order of detections and indicators affects nothing but the order of the factor list, which holds the same factors |
| Risk.DetectionNeverLowers | src/bastion/risk/scorer.py:153-200 | with non-negative weights one more detection never lowers score or severity |
| Risk.IocNeverLowers | src/bastion/risk/scorer.py:215-224 | one more indicator never lowers score or severity |
| Risk.EvidenceFreeBound | src/bastion/risk/scorer.py:115-150 | without detections and indicators the score is at most 30 plus three weights, clamped, whatever the history |
| Risk.EvidenceFreeCeilingReached | src/bastion/risk/scorer.py:115-212 | some event and history reach that ceiling |
| Scores.DetectionsExplained | src/bastion/risk/scorer.py:153-200 | an untrusted profile lists each triggered detection of the four known detectors once, with the weight configured for it, and no custom detector |
| Scores.SignalsExplained | src/bastion/risk/scorer.py:111-212 | it lists failures for up to thirty points, and the other signals exactly when the event or the stored failures show them, each with its configured weight |
| Scores.IocsExplained | src/bastion/risk/scorer.py:215-224 | it lists the matched indicators in order, each with 15 to 30 points by its confidence |
| Scores.DetectionAdds | src/bastion/risk/scorer.py:153-200 | one more triggered detection, anywhere, raises the sum of the listed deltas by exactly the weight of its detector |
| Scores.Verdict | src/bastion/risk/scorer.py:226-284 | score, severity, state and advice follow from the listed deltas, the thresholds, the usernames and the failures; a trusted source scores nothing |
| Scores.Memory | src/bastion/risk/scorer.py:83-109 | what a profile keeps of the stored one and takes from the event |
| Policy.IsolationCriterion | src/bastion/response/policy.py:60-102 | a decision isolates exactly when the address is not allowlisted and the score reaches the threshold; timed isolations are positive and capped |
| Policy.DecisionTable | src/bastion/response/policy.py:60-130 | which action is decided for every score, failure count and allowlist status, with its duration |
| Policy.ContainsIsRange | src/bastion/response/policy.py:43-49 | an allowlisted network is the range of addresses from its base on |
| Policy.DefaultAllowlist | src/bastion/config.py:102-110 | the default allowlist is loopback and the private IPv4 ranges and nothing else |
| Policy.EnforcementWithinAdvice | src/bastion/risk/scorer.py:254-268 | whatever the policy isolates the scorer recommended for isolation, when its high threshold is not above the isolation threshold |
| Policy.EvidenceNeeded | src/bastion/response/policy.py:86-102 | history alone can isolate an address exactly when the evidence-free ceiling reaches the isolation threshold |
| Policy.DefaultsNeedEvidence | src/bastion/risk/scorer.py:22-35 | under the defaults an event without evidence scores at most 75 and never isolates |
| ProfileLog.ProfileIsFoldOfLog | src/bastion/services/pipeline.py:167-208 | after every run from an empty database each stored profile's event, failure, success and username tallies are those recomputed from the event log |
| ProfileLog.RunMatches | src/bastion/services/pipeline.py:167-208 | the same from any state in which they agree |
| ProfileLog.ProcessMatches | src/bastion/risk/scorer.py:83-109 | one telemetry item keeps the tallies in step although a ban may write the row in between |
| ProfileLog.StepSameTallies | src/bastion/response/ban_manager.py:64-79 | no ban operation changes any tally |
| ProfileLog.TrustedSuccessesIff | src/bastion/risk/scorer.py:67-67 | a trusted host's stored success count is the true one exactly when one success precedes its last other event, or it has none |
| Deduplication.EvictionInvisible | src/bastion/correlation/engine.py:57-70 | on streams in time order the evicting cache answers as a cache that never forgets |
| Deduplication.EvictionInvisibleIff | src/bastion/correlation/engine.py:57-70 | eviction changes no answer on streams whose alerts are at most `late` behind, exactly when `late` is at most the window and one clock tick |
| Deduplication.LateAlertsSlipThrough | src/bastion/correlation/engine.py:167-172 | a repetition within the window of an evicted entry is accepted again, for all times at which that can happen |
| Deduplication.AcceptedSpaced | src/bastion/correlation/engine.py:61-67 | accepted alerts of one address and detector are at least a window apart, on streams with no alert at time zero and none late by more than the window and one clock tick |
| Deduplication.AcceptedSpacedIff | src/bastion/correlation/engine.py:57-70 | on all streams without an alert at time zero and at most `late` behind, accepted alerts of a key are a window apart exactly when `late` is at most the window and one clock tick |
| Deduplication.ZeroIsForgotten | src/bastion/correlation/engine.py:63-67 | an alert accepted at time zero counts as no alert, so its repetition is accepted at once |
| Deduplication.AlertRateBounded | src/bastion/correlation/engine.py:61-67 | on the same streams at most floor(span / window) + 1 of them are accepted in any span |
| Correlation.AlertIsRemembered | src/bastion/correlation/engine.py:57-67 | an event gives its time to exactly the detectors that fired without a recent entry; no other entry of the cache changes |
| Correlation.DuplicateIff | src/bastion/correlation/engine.py:57-67 | an event is a duplicate exactly when a detector that fired has an entry less than a window old, or one fired twice, unless the event is at time zero or the window is empty |
| Correlation.CorrelationEngine.CheckDuplicates | src/bastion/correlation/engine.py:57-67 | the lookup loop updates the cache and answers as specified: exactly the detectors that fired without a recent entry get the event's time |
| Correlation.CorrelationEngine.CleanDedupCache | src/bastion/correlation/engine.py:167-172 | deletes exactly the entries older than two windows |
| Correlation.CorrelationEngine.CorrelateIncident | src/bastion/correlation/engine.py:92-165 | gives an incident exactly when the address has an active one or the score is 70, there are two detections or an indicator; it is active, involves the address and its score is at least the activity's |
| Correlation.CorrelationEngine.Correlate | src/bastion/correlation/engine.py:38-90 | one event's effect on cache and incidents, exactly when it is a duplicate and exactly when it has an incident, and no cached entry older than two windows |
| Correlation.IncidentStorage.UpdateStatus | src/bastion/incidents/manager.py:61-78 | changes one incident's status and reports whether it exists |
| Incidents.FindBelowComplete | src/bastion/storage/sqlite.py:684-701 | the query finds the active incident of an address that was seen last, if there is one |
| Incidents.TechniquesExplained | src/bastion/attack/registry.py:49-78 | each technique is collected exactly when its one detector is among the detections |
| Incidents.IncidentOpensIff | src/bastion/correlation/engine.py:105-134 | without an active incident of the address one is opened exactly for a score of 70, two detections or an indicator; it is OPEN, with the address, severity, score, techniques and indicators of the activity |
| Incidents.IncidentAbsorbs | src/bastion/correlation/engine.py:138-161 | with one, the one seen last takes the activity in and no other changes; a High or Critical severity replaces its own |
| Incidents.ActivityIsCovered | src/bastion/correlation/engine.py:102-165 | after an activity the address has an active incident exactly when it had one or the activity warranted one |
| Incidents.WarrantedIsCovered | src/bastion/correlation/engine.py:102-165 | whatever warranted an incident leaves its address with an active one for the rest of a run in which none is closed |
| Incidents.IncidentsAreExplained | src/bastion/correlation/engine.py:138-144 | after every run an incident's severity is that of its last High or Critical contribution, otherwise of its first, and it was last seen at its last contribution |
| Incidents.IncidentsAggregate | src/bastion/correlation/engine.py:138-161 | after every run an incident's score is the maximum, its techniques and indicators the unions of what was correlated into it |
| Incidents.ActiveIncidentsStayUnique | src/bastion/correlation/engine.py:102-112 | runs that never reopen an incident leave each address at most one active incident |
| Incidents.StatusChangeIff | src/bastion/incidents/manager.py:61-78 | a status change keeps that exactly when it does not activate an incident beside another active one of an address |
| Incidents.IncidentsOnlyGrow | src/bastion/correlation/engine.py:141-155 | score, techniques and indicators of an incident never shrink |
| Timeline.SortStable | src/bastion/timeline/generator.py:119-120 | sorting orders the entries by time and keeps those of one instant in their order |
| Timeline.SortConcat | src/bastion/timeline/generator.py:119-120 | sorting two lists together merges their sorted forms, the first list's entries first within an instant |
| Timeline.ShownOccurs | src/bastion/timeline/generator.py:119-121 | the shares computed for the sources say how many last entries of each make up the last k of everything |
| Timeline.MergeFirstAgree | src/bastion/timeline/generator.py:119-121 | sources that end with the same times merge to the same last k times, and to the same last k entries exactly when each source ends with the same share of them |
| Timeline.SortReversed | src/bastion/storage/sqlite.py:105-105 | a time-ordered source read latest first and sorted again has each instant's entries reversed, at stated places |
| Timeline.Pushdown | src/bastion/timeline/generator.py:119-121 | limiting every source to its latest k, merging and limiting again gives the latest k of everything, whatever ties there are |
| Timeline.ClearIff | src/bastion/timeline/generator.py:31-121 | for rows in time order and pairwise different entries in each source, clear of ties means that no shown entry shares its time with the one before it in its source |
| Timeline.TiesMislead | src/bastion/timeline/generator.py:36-121 | two events of one instant and a ban, for which a limit of two shows the older event in place of the newer |
| Timeline.ZeroLimitShowsBan | src/bastion/timeline/generator.py:120-121 | a zero limit shows the active ban and nothing else |
| Timeline.TailIsSlice | src/bastion/timeline/generator.py:121-121 | the tail in the specification is the slice of the last `limit` entries, with the slice's results for zero and negative limits |
| Generator.TimelineGenerator.ForIp | src/bastion/timeline/generator.py:31-121 | the appending loops, the sort and the slice compute the specified timeline: in time order, only entries stored about the address, as many as a positive limit and the rows allow, all of them as often as stored within it |
| Generator.TimelineGenerator.ForIncident | src/bastion/timeline/generator.py:123-153 | a missing incident gives an empty list; otherwise the loop over related actors computes the specified timeline, in time order, of the opening and entries stored about the actors |
| Contents.ShownIsStored | src/bastion/timeline/generator.py:31-121 | an address's timeline is in time order, shows no entry more often than rows of the address are stored for it, and as many as the limit and the rows allow, for positive, zero and negative limits |
| Contents.AllIsShown | src/bastion/timeline/generator.py:31-121 | a limit no smaller than what is stored shows each entry exactly as often as it is stored |
| Contents.NegativeLimitDrops | src/bastion/timeline/generator.py:121-121 | a negative limit drops that many of the earliest, and dropped and shown together are everything stored |
| Contents.ShownHasRow | src/bastion/storage/sqlite.py:95-97 | every entry is a stored row of the address, of its kind's table, with its time and text, or the active ban |
| Contents.OthersAreInvisible | src/bastion/storage/sqlite.py:95-97 | a row or ban of another address, inserted or deleted anywhere, changes nothing |
| Contents.IncidentIsStored | src/bastion/timeline/generator.py:123-153 | the same counts for an incident, its opening and its actors |
| Contents.IncidentHasRow | src/bastion/timeline/generator.py:123-153 | every entry of an incident's timeline is marked with it and is its opening or stored about one of its actors |
| Contents.OthersNotInIncident | src/bastion/timeline/generator.py:145-150 | rows of addresses that are not among the actors change nothing |
| Tails.TimelineTimesIff | src/bastion/timeline/generator.py:31-121 | for rows in any order of insertion, the times of the timeline are those of the tail of everything stored exactly when every row cut by a query has at least `limit` gathered entries at its time or later; for limit zero, exactly when only a ban is stored |
| Tails.TimelineIsTailIff | src/bastion/timeline/generator.py:31-121 | for rows in any order, its entries are those of the tail exactly when what was gathered of every instant ends with what is to be shown of it; for limit zero, exactly when only a ban is stored |
| Tails.GatheredInstant | src/bastion/timeline/generator.py:36-117 | what is gathered of an instant is what each query kept of it, each read backwards, source by source |
| Tails.OutOfOrderMisleads | src/bastion/storage/sqlite.py:105-105 | two events inserted against their times, for which a limit of one shows the older |
| Tails.InOrderIsOutnumbered | src/bastion/storage/sqlite.py:105-105 | rows inserted in time order meet the condition on cut rows |
| Tails.InOrderTimeline | src/bastion/timeline/generator.py:31-121 | for rows inserted in time order and any ties, the times are right for every nonzero limit and the entries exactly when the shown ones are clear of ties |
| Tails.PushdownForIp | src/bastion/timeline/generator.py:31-121 | times distinct within each source suffice for every nonzero limit, in any order of insertion, when every row cut has `limit` later gathered entries; ties between sources are harmless |
| Tails.InOrderPushdown | src/bastion/timeline/generator.py:31-121 | increasing times within each source suffice for every nonzero limit |
| Tails.IncidentTimesIff | src/bastion/timeline/generator.py:123-153 | for actors' rows in any order, the times of an incident's timeline are those of the tail of its creation and all actors' histories exactly when, for a positive limit, every row cut for any actor is outnumbered; for zero, every actor has only a ban; below zero, all histories are empty or all is dropped |
| Tails.IncidentIsTailIff | src/bastion/timeline/generator.py:123-153 | its entries are those of the tail exactly when, for a positive limit, every instant is gathered as it is to be shown, and otherwise in the same cases |
| Tails.InOrderIncident | src/bastion/timeline/generator.py:123-153 | for actors' rows in time order and a positive limit the times are right, and the entries exactly when what is shown of every actor is clear of ties |

## Left out

- Threads: every operation is one atomic step, since the profile read and write in the ban manager is not locked as a unit.
- Storage faults: database calls never fail and an unblock never raises.
- The nftables backend, whose subprocess calls are foreign code; the in-memory firewall stands for it.
- Network text: CIDR and address parsing is not modelled, an allowlist is a list of parsed prefixes, and IPv4-mapped IPv6 addresses are plain IPv6.
- Timestamps as text: rows are ordered by their time, not by their ISO string.
- Floating point: instants and spans are whole microseconds; the indicator points use integer division, which agrees with the float formula on every percentage.
- Free text: reasons, summaries, titles and metadata other than the two entries that some branch reads are not kept.
- Detection engine loop, IOC lookup and alert formatting in the pipeline: results and matches are inputs of a step.
- Incident aliases: an actor is its address, without the "actor-" prefix, and incidents opened by hand with several actors are not part of the runs.
- Correlation after the profile is stored: indicator and incident lists added to a profile there are never written back, so the model drops them.
- Services targeted by an actor are stored but not part of the recomputed tallies.
- Actor state: it is written as the code does, but no claim ties it to a ban, because creating a ban uses the requested status for a new profile and the actual one for an old profile.
- Safety.AllowlistSafe: excludes operator bans, which do not consult the policy.
- Safety.DriftBounded: excludes negative operator durations, for which CreationAgreesIff shows the disagreement.
- Deduplication.AcceptedSpaced: excludes events at time zero, which the cache cannot tell from an absent entry.
- Incidents of one address seen last at the same time: SQL leaves open which is found; the model finds the one opened first.
- Detector names are compared as written; the technique registry also strips and lower-cases them.
- Order of audit rows with equal times: SQL leaves it open; the model returns the row inserted later first.
- Timeline entries keep their time, type, one text and the incident they are marked with; source, actor id and details are not kept.
- Maintenance.CheckReleases: says nothing about the rule when the daemon restarts in between, because startup recovery retires a lapsed ban without unblocking its address; Safety.BlockedHasCause bounds how long such a rule lasts.
- Operator commands run in a process of their own on the same stores; here they are operations of the daemon's shared objects.
- CLI, configuration loading, health files, journal and log collectors, ATT&CK texts, IOC editing, audit writing: easy members.
