/** The daemon's maintenance worker: one counter schedules expiry checks,
    reconciliations and health exports, a tick per second. */
module Maintenance {
  import opened Domain
  import opened Risk
  import opened Policy
  import opened Enforcement
  import opened Reconciliation
  import opened Runs
  import opened Defense
  import opened Outcomes

  /** One second of a running daemon: what else happened while the worker slept, then
      the tick with its surroundings and the intervals configured at that moment. */
  datatype Second = Second(between: seq<Timed>, env: Env, reconcileEvery: int, exportEvery: int)

  const CHECK_EVERY := 5

  predicate ChecksNow(counter: nat) {
    (counter + 1) % CHECK_EVERY == 0
  }

  predicate ReconcilesNow(counter: nat, reconcileEvery: int) {
    counter + 1 >= reconcileEvery
  }

  function NextCounter(counter: nat, reconcileEvery: int): nat {
    if ReconcilesNow(counter, reconcileEvery) then 0 else counter + 1
  }

  predicate ExportsNow(counter: nat, reconcileEvery: int, exportEvery: int)
    requires exportEvery > 0
  {
    NextCounter(counter, reconcileEvery) % exportEvery == 0
  }

  ghost predicate ExportsConfigured(seconds: seq<Second>) {
    forall k :: 0 <= k < |seconds| ==> seconds[k].exportEvery > 0
  }

  /** How many of the ticks export. */
  ghost function ExportsIn(counter: nat, seconds: seq<Second>): nat
    requires ExportsConfigured(seconds)
    decreases |seconds|
  {
    if seconds == [] then 0
    else
      var s := seconds[0];
      (if ExportsNow(counter, s.reconcileEvery, s.exportEvery) then 1 else 0) +
      ExportsIn(NextCounter(counter, s.reconcileEvery), seconds[1..])
  }

  function Tick(w: World, counter: nat, env: Env, reconcileEvery: int): World {
    var checked := if ChecksNow(counter) then CheckExpirations(w, env.now) else w;
    if ReconcilesNow(counter, reconcileEvery) then Reconcile(checked, env).0 else checked
  }

  function DaemonRun(cfg: Config, w: World, counter: nat, seconds: seq<Second>): World
    decreases |seconds|
  {
    if seconds == [] then w
    else
      var s := seconds[0];
      DaemonRun(cfg, Tick(Run(cfg, w, s.between), counter, s.env, s.reconcileEvery),
                NextCounter(counter, s.reconcileEvery), seconds[1..])
  }

  /** The operations of one tick, and of a stretch of seconds, as a run. */
  function TickSteps(counter: nat, env: Env, reconcileEvery: int): seq<Timed> {
    (if ChecksNow(counter) then [Timed(Expire, env)] else []) +
    (if ReconcilesNow(counter, reconcileEvery) then [Timed(ReconcileRules, env)] else [])
  }

  function DaemonSteps(counter: nat, seconds: seq<Second>): seq<Timed>
    decreases |seconds|
  {
    if seconds == [] then []
    else
      var s := seconds[0];
      s.between + TickSteps(counter, s.env, s.reconcileEvery) +
      DaemonSteps(NextCounter(counter, s.reconcileEvery), seconds[1..])
  }

  lemma {:induction false} TickIsRun(cfg: Config, w: World, counter: nat, env: Env, reconcileEvery: int)
    ensures Tick(w, counter, env, reconcileEvery) == Run(cfg, w, TickSteps(counter, env, reconcileEvery))
  {
    var first := if ChecksNow(counter) then [Timed(Expire, env)] else [];
    var second := if ReconcilesNow(counter, reconcileEvery) then [Timed(ReconcileRules, env)] else [];
    RunConcat(cfg, w, first, second);
  }

  /** The worker's seconds are a run like any other, so whatever holds of all runs
      holds of the worker. */
  lemma {:induction false} DaemonIsRun(cfg: Config, w: World, counter: nat, seconds: seq<Second>)
    ensures DaemonRun(cfg, w, counter, seconds) == Run(cfg, w, DaemonSteps(counter, seconds))
    decreases |seconds|
  {
    if seconds != [] {
      var s := seconds[0];
      var steps, rest := TickSteps(counter, s.env, s.reconcileEvery),
                         DaemonSteps(NextCounter(counter, s.reconcileEvery), seconds[1..]);
      RunConcat(cfg, w, s.between + steps, rest);
      RunConcat(cfg, w, s.between, steps);
      TickIsRun(cfg, Run(cfg, w, s.between), counter, s.env, s.reconcileEvery);
      DaemonIsRun(cfg, Run(cfg, w, s.between + steps), NextCounter(counter, s.reconcileEvery), seconds[1..]);
    }
  }

  // ---------------------------------------------------------------- the daemon

  class BastionDaemon {
    const pipeline: SentinelPipeline
    const service: DefenseAppService
    const reconciler: FirewallReconciler
    var healthExports: nat

    /** All parts share one ban manager. */
    constructor (pipeline: SentinelPipeline, service: DefenseAppService, reconciler: FirewallReconciler)
      requires pipeline.responseEngine.banManager == service.banManager == reconciler.banManager
      ensures this.pipeline == pipeline && this.service == service && this.reconciler == reconciler
      ensures Wired() && healthExports == 0
    {
      this.pipeline, this.service, this.reconciler := pipeline, service, reconciler;
      healthExports := 0;
    }

    predicate Wired() {
      pipeline.responseEngine.banManager == service.banManager == reconciler.banManager
    }

    ghost predicate Valid()
      reads reconciler.banManager.storage
    {
      Wired() && reconciler.banManager.storage.Valid()
    }

    /** The two stores as they are now. */
    ghost function Now(): World
      reads reconciler.banManager.storage, reconciler.banManager.firewall
    {
      Snapshot(reconciler.banManager.storage, reconciler.banManager.firewall)
    }

    /** One operation of any part of the daemon, in the surroundings it meets. */
    method Perform(step: Step, env: Env)
      requires Valid()
      modifies reconciler.banManager.storage, reconciler.banManager.firewall
      ensures Valid()
      ensures Now() == Exec(pipeline.Config(), old(Now()), step, env)
    {
      var manager := reconciler.banManager;
      manager.firewall.Settle(env.available, env.refused);
      match step {
        case Process(event, detections, iocs) =>
          var _ := pipeline.ProcessRaw(event, detections, iocs, env.now);
        case React(profile, mode) =>
          var _, _ := pipeline.responseEngine.Process(profile, Some(mode), env.now);
        case BanByOperator(ip, duration, permanent) =>
          var _ := service.BanIp(ip, duration, permanent, env.now);
        case UnbanByOperator(ip) =>
          var _ := service.UnbanIp(ip);
        case Expire =>
          var _ := manager.CheckExpirations(env.now);
        case Startup =>
          var _ := manager.SyncOnStartup(env.now);
        case ReconcileRules =>
          var _ := reconciler.Reconcile(env.now);
        case FlushRules =>
          var _ := service.FlushFirewall(env.now);
        case ListRules =>
          var _ := manager.firewall.ListBlockedIps(env.now);
      }
    }

    /** A whole run of operations, one after the other. */
    method PerformAll(run: seq<Timed>)
      requires Valid()
      modifies reconciler.banManager.storage, reconciler.banManager.firewall
      ensures Valid()
      ensures Now() == Run(pipeline.Config(), old(Now()), run)
    {
      ghost var outcome := Run(pipeline.Config(), Now(), run);
      assert run[0..] == run;
      for k := 0 to |run|
        invariant Valid() && Run(pipeline.Config(), Now(), run[k..]) == outcome
      {
        assert run[k..][1..] == run[k + 1..];
        Perform(run[k].step, run[k].env);
      }
    }

    /** The body of the worker's loop. */
    method OneTick(reconcileCounter: nat, now: int, reconcileEvery: int, exportEvery: int) returns (counter: nat)
      requires Valid() && exportEvery > 0
      modifies reconciler.banManager.storage`bans, reconciler.banManager.storage`actors
      modifies reconciler.banManager.firewall`rules, `healthExports
      ensures Valid()
      ensures counter == NextCounter(reconcileCounter, reconcileEvery)
      ensures Now() == Tick(old(Now()), reconcileCounter, Surroundings(reconciler.banManager.firewall, now),
                            reconcileEvery)
      ensures healthExports ==
              old(healthExports) + if ExportsNow(reconcileCounter, reconcileEvery, exportEvery) then 1 else 0
    {
      counter := reconcileCounter + 1;
      if counter % 5 == 0 {
        var _ := reconciler.banManager.CheckExpirations(now);
      }
      if counter >= reconcileEvery {
        counter := 0;
        var _ := reconciler.Reconcile(now);
      }
      if counter % exportEvery == 0 {
        healthExports := healthExports + 1;
      }
    }

    /** The worker over a finite stretch of seconds, whatever the rest of the daemon and
        the outside world do in between. */
    method Worker(seconds: seq<Second>)
      requires Valid() && ExportsConfigured(seconds)
      modifies reconciler.banManager.storage, reconciler.banManager.firewall, `healthExports
      ensures Valid()
      ensures Now() == DaemonRun(pipeline.Config(), old(Now()), 0, seconds)
      ensures healthExports == old(healthExports) + ExportsIn(0, seconds)
    {
      ghost var outcome := DaemonRun(pipeline.Config(), Now(), 0, seconds);
      ghost var exports := healthExports + ExportsIn(0, seconds);
      var reconcileCounter := 0;
      assert seconds[0..] == seconds;
      for k := 0 to |seconds|
        invariant Valid() && DaemonRun(pipeline.Config(), Now(), reconcileCounter, seconds[k..]) == outcome
        invariant healthExports + ExportsIn(reconcileCounter, seconds[k..]) == exports
      {
        var s := seconds[k];
        assert seconds[k..][1..] == seconds[k + 1..];
        PerformAll(s.between);
        reconciler.banManager.firewall.Settle(s.env.available, s.env.refused);
        reconcileCounter := OneTick(reconcileCounter, s.env.now, s.reconcileEvery, s.exportEvery);
      }
    }
  }

  // ---------------------------------------------------------------- when expiry is checked

  /** Some tick checks expirations, directly or by a reconciliation that gets through. */
  predicate SomeCheck(counter: nat, seconds: seq<Second>)
    decreases |seconds|
  {
    seconds != [] &&
    (ChecksNow(counter) ||
     (ReconcilesNow(counter, seconds[0].reconcileEvery) && seconds[0].env.available) ||
     SomeCheck(NextCounter(counter, seconds[0].reconcileEvery), seconds[1..]))
  }

  ghost predicate AlwaysAvailable(seconds: seq<Second>) {
    forall k :: 0 <= k < |seconds| ==> seconds[k].env.available
  }

  ghost predicate IntervalsAtLeast(seconds: seq<Second>, least: int) {
    forall k :: 0 <= k < |seconds| ==> seconds[k].reconcileEvery >= least
  }

  /** While the firewall is available any five consecutive ticks contain a check, even
      if the reconciliation interval changes from tick to tick. */
  lemma {:induction false} CheckWithinFive(counter: nat, seconds: seq<Second>)
    requires AlwaysAvailable(seconds)
    requires |seconds| >= CHECK_EVERY - counter % CHECK_EVERY
    ensures SomeCheck(counter, seconds)
    decreases |seconds|
  {
    if !ChecksNow(counter) && !ReconcilesNow(counter, seconds[0].reconcileEvery) {
      CheckWithinFive(counter + 1, seconds[1..]);
    }
  }

  /** Whatever the firewall does, intervals of at least five seconds leave no more
      than nine consecutive ticks without a check. */
  lemma {:induction false} CheckWithinNine(counter: nat, seconds: seq<Second>)
    requires IntervalsAtLeast(seconds, CHECK_EVERY)
    requires |seconds| >= (if counter < CHECK_EVERY then CHECK_EVERY - counter else 9 - counter % CHECK_EVERY)
    ensures SomeCheck(counter, seconds)
    decreases |seconds|
  {
    if !ChecksNow(counter) {
      var next := NextCounter(counter, seconds[0].reconcileEvery);
      CheckWithinNine(next, seconds[1..]);
    }
  }

  /** With an interval below five and the firewall unavailable, expiry is never checked. */
  lemma {:induction false} CheckNever(counter: nat, seconds: seq<Second>, interval: int)
    requires Reachable(counter, interval) && interval < CHECK_EVERY
    requires FixedInterval(seconds, interval) && NeverAvailable(seconds)
    ensures !SomeCheck(counter, seconds)
    decreases |seconds|
  {
    if seconds != [] {
      CheckNever(NextCounter(counter, interval), seconds[1..], interval);
    }
  }

  // ---------------------------------------------------------------- the exact gap for a fixed interval

  ghost predicate FixedInterval(seconds: seq<Second>, interval: int) {
    forall k :: 0 <= k < |seconds| ==> seconds[k].reconcileEvery == interval
  }

  ghost predicate NeverAvailable(seconds: seq<Second>) {
    forall k :: 0 <= k < |seconds| ==> !seconds[k].env.available
  }

  /** The counters the worker can have between two ticks. */
  predicate Reachable(counter: nat, interval: int) {
    counter == 0 || counter < interval
  }

  /** The ticks up to a check that does not rely on the firewall: the next multiple of
      five if the counter gets there before it is reset, otherwise five after the reset. */
  function TicksToCheck(counter: nat, interval: int): int {
    if counter < interval - interval % CHECK_EVERY then CHECK_EVERY - counter % CHECK_EVERY
    else interval - counter + CHECK_EVERY
  }

  lemma {:induction false} TicksCountDown(counter: nat, interval: int)
    requires Reachable(counter, interval) && interval >= CHECK_EVERY
    ensures if ChecksNow(counter) then TicksToCheck(counter, interval) == 1
            else TicksToCheck(NextCounter(counter, interval), interval) == TicksToCheck(counter, interval) - 1
    ensures Reachable(NextCounter(counter, interval), interval)
    ensures 1 <= TicksToCheck(counter, interval) <= CHECK_EVERY + interval % CHECK_EVERY
  {
  }

  /** That many ticks contain a check whatever the firewall does, and fewer do not when
      it is unavailable. */
  lemma {:induction false} CheckExactly(counter: nat, seconds: seq<Second>, interval: int)
    requires Reachable(counter, interval) && interval >= CHECK_EVERY && FixedInterval(seconds, interval)
    ensures |seconds| >= TicksToCheck(counter, interval) ==> SomeCheck(counter, seconds)
    ensures |seconds| < TicksToCheck(counter, interval) && NeverAvailable(seconds) ==> !SomeCheck(counter, seconds)
    decreases |seconds|
  {
    TicksCountDown(counter, interval);
    if seconds != [] && !ChecksNow(counter) {
      CheckExactly(NextCounter(counter, interval), seconds[1..], interval);
    }
  }

  /** Any `ticks` consecutive ticks with this interval contain a check, from every
      counter the worker can have and whatever the firewall does. */
  ghost predicate AlwaysChecked(interval: int, ticks: nat) {
    forall counter: nat, seconds: seq<Second> ::
      Reachable(counter, interval) && |seconds| == ticks && FixedInterval(seconds, interval) ==>
        SomeCheck(counter, seconds)
  }

  /** Ticks that no firewall answers. */
  function DarkSeconds(interval: int, ticks: nat): (seconds: seq<Second>)
    ensures |seconds| == ticks && FixedInterval(seconds, interval) && NeverAvailable(seconds)
  {
    seq(ticks, _ => Second([], Env(0, false, {}), interval, 1))
  }

  /** The exact gap: with a fixed interval some check happens within `ticks` ticks,
      whatever the firewall does, exactly when the interval is at least five and
      `ticks` at least five more than its remainder by five. */
  lemma {:induction false} CheckGapIff(interval: int, ticks: nat)
    ensures AlwaysChecked(interval, ticks) <==>
            interval >= CHECK_EVERY && ticks >= CHECK_EVERY + interval % CHECK_EVERY
  {
    if interval < CHECK_EVERY {
      CheckNever(0, DarkSeconds(interval, ticks), interval);
    } else {
      forall counter: nat, seconds: seq<Second> |
        Reachable(counter, interval) && |seconds| == ticks && FixedInterval(seconds, interval) &&
        ticks >= CHECK_EVERY + interval % CHECK_EVERY
        ensures SomeCheck(counter, seconds)
      {
        TicksCountDown(counter, interval);
        CheckExactly(counter, seconds, interval);
      }
      if ticks < CHECK_EVERY + interval % CHECK_EVERY {
        var worst: nat := if interval % CHECK_EVERY == 0 then 0 else interval - interval % CHECK_EVERY;
        CheckExactly(worst, DarkSeconds(interval, ticks), interval);
      }
    }
  }

  /** The worker's promise of a check every five ticks holds with a fixed interval,
      whatever the firewall does, exactly for the positive multiples of five. */
  lemma {:induction false} FiveTicksIff(interval: int)
    ensures AlwaysChecked(interval, CHECK_EVERY) <==> interval > 0 && interval % CHECK_EVERY == 0
  {
    CheckGapIff(interval, CHECK_EVERY);
  }

  /** Nine ticks are reached: with an interval of nine, eight are not enough. */
  lemma {:induction false} NineIsReached()
    ensures AlwaysChecked(9, 9) && !AlwaysChecked(9, 8)
  {
    CheckGapIff(9, 9);
    CheckGapIff(9, 8);
  }

  // ---------------------------------------------------------------- what a check achieves

  /** The row of a ban keeps its expiry, and a retired ban is never ACTIVE again. */
  ghost predicate RowKept(w: World, w': World, i: nat) {
    i < |w.bans| && i < |w'.bans| && w'.bans[i].expiresAt == w.bans[i].expiresAt &&
    (w'.bans[i].status == Active ==> w.bans[i].status == Active)
  }

  lemma {:induction false} StepKeepsRow(cfg: Config, w: World, s: Step, env: Env, i: nat)
    requires i < |w.bans|
    ensures RowKept(w, Exec(cfg, w, s, env), i)
  {
    var w' := Exec(cfg, w, s, env);
    Classify(cfg, w, s, env);
    if !Maintains(w, w', env.now) { assert w'.bans[i] == w'.bans[..|w.bans|][i]; }
  }

  lemma {:induction false} RunKeepsRow(cfg: Config, w: World, run: seq<Timed>, i: nat)
    requires i < |w.bans|
    ensures RowKept(w, Run(cfg, w, run), i)
    decreases |run|
  {
    if run != [] {
      StepKeepsRow(cfg, w, run[0].step, run[0].env, i);
      RunKeepsRow(cfg, Exec(cfg, w, run[0].step, run[0].env), run[1..], i);
    }
  }

  lemma {:induction false} TickKeepsRow(w: World, counter: nat, env: Env, reconcileEvery: int, i: nat)
    requires i < |w.bans|
    ensures RowKept(w, Tick(w, counter, env, reconcileEvery), i)
    ensures TickChecks(counter, env, reconcileEvery) && Lapsed(w.bans[i], env.now) ==>
              Tick(w, counter, env, reconcileEvery).bans[i].status != Active
  {
  }

  predicate TickChecks(counter: nat, env: Env, reconcileEvery: int) {
    ChecksNow(counter) || (ReconcilesNow(counter, reconcileEvery) && env.available)
  }

  lemma {:induction false} DaemonKeepsRow(cfg: Config, w: World, counter: nat, seconds: seq<Second>, i: nat)
    requires i < |w.bans|
    ensures RowKept(w, DaemonRun(cfg, w, counter, seconds), i)
    decreases |seconds|
  {
    if seconds != [] {
      var s := seconds[0];
      var slept := Run(cfg, w, s.between);
      RunKeepsRow(cfg, w, s.between, i);
      TickKeepsRow(slept, counter, s.env, s.reconcileEvery, i);
      DaemonKeepsRow(cfg, Tick(slept, counter, s.env, s.reconcileEvery),
                     NextCounter(counter, s.reconcileEvery), seconds[1..], i);
    }
  }

  // ---------------------------------------------------------------- released addresses

  /** An address has a rule only while one of its bans is ACTIVE. */
  ghost predicate NoOrphan(w: World, ip: Ip) {
    ip in w.rules ==> HasActive(w.bans, ip)
  }

  /** A ban that is ACTIVE, or whose address has been left without an orphaned rule. */
  ghost predicate Accounted(w: World, i: nat) {
    i < |w.bans| && (w.bans[i].status == Active || NoOrphan(w, w.bans[i].sourceIp))
  }

  lemma {:induction false} ExpireAccounts(w: World, now: int, i: nat)
    requires i < |w.bans|
    ensures Accounted(w, i) ==> Accounted(CheckExpirations(w, now), i)
    ensures Doomed(w.bans[i], now) ==> NoOrphan(CheckExpirations(w, now), w.bans[i].sourceIp)
  {
    var ip := w.bans[i].sourceIp;
    ExpiryFacts(w.bans, now);
    if Doomed(w.bans[i], now) { assert ip in DoomedIps(w.bans, now); }
    if ip in CheckExpirations(w, now).rules && HasActive(w.bans, ip) {
      var j :| 0 <= j < |w.bans| && w.bans[j].status == Active && w.bans[j].sourceIp == ip;
      assert Doomed(w.bans[j], now) ==> ip in DoomedIps(w.bans, now);
      assert CheckExpirations(w, now).bans[j] == w.bans[j];
    }
  }

  lemma {:induction false} ReconcileAccounts(w: World, env: Env, i: nat)
    requires i < |w.bans|
    ensures Accounted(w, i) ==> Accounted(Reconcile(w, env).0, i)
    ensures env.available && Doomed(w.bans[i], env.now) ==> NoOrphan(Reconcile(w, env).0, w.bans[i].sourceIp)
  {
    if env.available {
      var ip, checked, w' := w.bans[i].sourceIp, CheckExpirations(w, env.now), Reconcile(w, env).0;
      ReconcileStores(w, env);
      ExpiryFacts(w.bans, env.now);
      ExpireAccounts(w, env.now, i);
      if ip in LiveIps(w.bans, env.now) {
        var j :| 0 <= j < |w.bans| && Live(w.bans[j], env.now) && w.bans[j].sourceIp == ip;
        assert w'.bans[j] == w.bans[j];
      } else if ip in w'.rules {
        assert ip in ListedIps(w, env.now);
        assert ip in checked.rules;
      }
    }
  }

  lemma {:induction false} UnbanAccounts(w: World, ip: Ip, i: nat)
    requires Accounted(w, i)
    ensures Accounted(Unban(w, ip), i)
  {
    BanForFacts(w.bans, ip);
    var w' := Unban(w, ip);
    if w.bans[i].sourceIp != ip && HasActive(w.bans, w.bans[i].sourceIp) {
      var j :| 0 <= j < |w.bans| && w.bans[j].status == Active && w.bans[j].sourceIp == w.bans[i].sourceIp;
      assert w'.bans[j] == w.bans[j];
    }
  }

  lemma {:induction false} CreateAccounts(w: World, w': World, ip: Ip, now: int, duration: Option<int>, i: nat)
    requires Accounted(w, i) && Creates(w, w', ip, now, duration)
    ensures Accounted(w', i)
  {
    assert w'.bans[i] == w'.bans[..|w.bans|][i];
    if HasActive(w.bans, w.bans[i].sourceIp) {
      var j :| 0 <= j < |w.bans| && w.bans[j].status == Active && w.bans[j].sourceIp == w.bans[i].sourceIp;
      assert w'.bans[j] == w'.bans[..|w.bans|][j];
    }
  }

  /** Only startup recovery retires a ban and leaves its rule behind. */
  lemma {:induction false} StepAccounts(cfg: Config, w: World, s: Step, env: Env, i: nat)
    requires Accounted(w, i) && !s.Startup?
    ensures Accounted(Exec(cfg, w, s, env), i)
  {
    match s
    case Process(e, detections, iocs) =>
      var saved := w.(events := w.events + [e]);
      var p := Assess(cfg.scoring, e, ProfileOf(saved, e.sourceIp), detections, iocs);
      if cfg.mode.Some? { RespondAccounts(cfg.policy, saved, env, p, cfg.mode.value, i); }
    case React(p, mode) => RespondAccounts(cfg.policy, w, env, p, mode, i);
    case BanByOperator(ip, duration, permanent) =>
      BanForFacts(w.bans, ip);
      if Creates(w, Exec(cfg, w, s, env), ip, env.now, Wanted(cfg, w, s)) {
        CreateAccounts(w, Exec(cfg, w, s, env), ip, env.now, Wanted(cfg, w, s), i);
      }
    case UnbanByOperator(ip) => UnbanAccounts(w, ip, i);
    case Expire => ExpireAccounts(w, env.now, i);
    case ReconcileRules => ReconcileAccounts(w, env, i);
    case FlushRules =>
    case ListRules =>
  }

  lemma {:induction false} RespondAccounts(cfg: PolicyConfig, w: World, env: Env, p: Profile, mode: Mode, i: nat)
    requires Accounted(w, i)
    ensures Accounted(Respond(cfg, w, env, p, mode).0, i)
  {
    RespondCreates(cfg, w, env, p, mode);
    var w' := Respond(cfg, w, env, p, mode).0;
    if w' != w { CreateAccounts(w, w', p.sourceIp, env.now, Decide(cfg, p, mode).duration, i); }
  }

  predicate NoRestart(run: seq<Timed>) {
    forall k :: 0 <= k < |run| ==> !run[k].step.Startup?
  }

  predicate NoRestarts(seconds: seq<Second>) {
    forall k :: 0 <= k < |seconds| ==> NoRestart(seconds[k].between)
  }

  lemma {:induction false} RunAccounts(cfg: Config, w: World, run: seq<Timed>, i: nat)
    requires Accounted(w, i) && NoRestart(run)
    ensures Accounted(Run(cfg, w, run), i)
    decreases |run|
  {
    if run != [] {
      StepAccounts(cfg, w, run[0].step, run[0].env, i);
      RunAccounts(cfg, Exec(cfg, w, run[0].step, run[0].env), run[1..], i);
    }
  }

  /** A tick that checks leaves the address of a lapsed ban without a rule, unless
      another ban of it is ACTIVE. */
  lemma {:induction false} TickReleases(w: World, counter: nat, env: Env, reconcileEvery: int, i: nat)
    requires Accounted(w, i)
    ensures var w' := Tick(w, counter, env, reconcileEvery);
      Accounted(w', i) &&
      (TickChecks(counter, env, reconcileEvery) && Lapsed(w.bans[i], env.now) ==>
         w'.bans[i].status != Active && NoOrphan(w', w.bans[i].sourceIp))
  {
    var checked := if ChecksNow(counter) then CheckExpirations(w, env.now) else w;
    ExpireAccounts(w, env.now, i);
    ReconcileAccounts(checked, env, i);
    TickKeepsRow(w, counter, env, reconcileEvery, i);
    assert checked.bans[i].sourceIp == w.bans[i].sourceIp;
    assert Tick(w, counter, env, reconcileEvery).bans[i].sourceIp == w.bans[i].sourceIp;
  }

  lemma {:induction false} DaemonAccounts(cfg: Config, w: World, counter: nat, seconds: seq<Second>, i: nat)
    requires Accounted(w, i) && NoRestarts(seconds)
    ensures Accounted(DaemonRun(cfg, w, counter, seconds), i)
    decreases |seconds|
  {
    if seconds != [] {
      var s := seconds[0];
      RunAccounts(cfg, w, s.between, i);
      TickReleases(Run(cfg, w, s.between), counter, s.env, s.reconcileEvery, i);
      DaemonAccounts(cfg, Tick(Run(cfg, w, s.between), counter, s.env, s.reconcileEvery),
                     NextCounter(counter, s.reconcileEvery), seconds[1..], i);
    }
  }

  /** A ban that lapsed before some ticks that include a check is not ACTIVE after them,
      whatever else the daemon does in between. Unless the daemon restarts, its address
      is then blocked only under another ACTIVE ban. */
  lemma {:induction false} CheckReleases(cfg: Config, w: World, counter: nat, seconds: seq<Second>, i: nat)
    requires i < |w.bans| && SomeCheck(counter, seconds)
    requires forall k :: 0 <= k < |seconds| ==> Lapsed(w.bans[i], seconds[k].env.now)
    ensures var w' := DaemonRun(cfg, w, counter, seconds);
      i < |w'.bans| && w'.bans[i].status != Active &&
      (w.bans[i].status == Active && NoRestarts(seconds) ==> NoOrphan(w', w'.bans[i].sourceIp))
    decreases |seconds|
  {
    StopsBeingActive(cfg, w, counter, seconds, i);
    if w.bans[i].status == Active && NoRestarts(seconds) {
      DaemonAccounts(cfg, w, counter, seconds, i);
    }
  }

  lemma {:induction false} StopsBeingActive(cfg: Config, w: World, counter: nat, seconds: seq<Second>, i: nat)
    requires i < |w.bans| && SomeCheck(counter, seconds)
    requires forall k :: 0 <= k < |seconds| ==> Lapsed(w.bans[i], seconds[k].env.now)
    ensures i < |DaemonRun(cfg, w, counter, seconds).bans|
    ensures DaemonRun(cfg, w, counter, seconds).bans[i].status != Active
    decreases |seconds|
  {
    var s := seconds[0];
    var slept := Run(cfg, w, s.between);
    RunKeepsRow(cfg, w, s.between, i);
    TickKeepsRow(slept, counter, s.env, s.reconcileEvery, i);
    var w' := Tick(slept, counter, s.env, s.reconcileEvery);
    var next := NextCounter(counter, s.reconcileEvery);
    if w'.bans[i].status != Active {
      DaemonKeepsRow(cfg, w', next, seconds[1..], i);
    } else {
      assert forall k :: 0 <= k < |seconds[1..]| ==> seconds[1..][k] == seconds[k + 1];
      StopsBeingActive(cfg, w', next, seconds[1..], i);
    }
  }

  /** An expired ban is released within five ticks of an available firewall: its row is
      retired and, unless the daemon restarts, its address keeps a rule only under
      another ACTIVE ban. */
  lemma {:induction false} ReleasedWithinFiveTicks(cfg: Config, w: World, counter: nat, seconds: seq<Second>, i: nat)
    requires i < |w.bans| && |seconds| == 5 && AlwaysAvailable(seconds)
    requires forall k :: 0 <= k < |seconds| ==> Lapsed(w.bans[i], seconds[k].env.now)
    ensures var w' := DaemonRun(cfg, w, counter, seconds);
      i < |w'.bans| && w'.bans[i].status != Active &&
      (w.bans[i].status == Active && NoRestarts(seconds) ==> NoOrphan(w', w'.bans[i].sourceIp))
  {
    CheckWithinFive(counter, seconds);
    CheckReleases(cfg, w, counter, seconds, i);
  }

  // ---------------------------------------------------------------- lost rules come back

  /** Rules lost in any way, by a flush from outside for example, are back within one
      reconciliation interval: whatever happened before, after the tick that completes the
      interval with an available firewall that refuses nothing, every ACTIVE ban's address
      is blocked. */
  lemma {:induction false} LostRulesReturn(cfg: Config, w: World, counter: nat, seconds: seq<Second>, interval: int)
    requires counter < interval && |seconds| == interval - counter && FixedInterval(seconds, interval)
    requires seconds[|seconds| - 1].env.available && seconds[|seconds| - 1].env.refused == {}
    ensures var w' := DaemonRun(cfg, w, counter, seconds);
      forall i :: 0 <= i < |w'.bans| && w'.bans[i].status == Active ==>
        BlocksAt(w'.rules, w'.bans[i].sourceIp, seconds[|seconds| - 1].env.now)
    decreases |seconds|
  {
    var s := seconds[0];
    var slept := Run(cfg, w, s.between);
    if |seconds| == 1 {
      var checked := if ChecksNow(counter) then CheckExpirations(slept, s.env.now) else slept;
      ReconcileOutcome(cfg, checked, s.env);
    } else {
      assert seconds[1..][|seconds| - 2] == seconds[|seconds| - 1];
      var w1, rest := Tick(slept, counter, s.env, s.reconcileEvery), seconds[1..];
      assert DaemonRun(cfg, w, counter, seconds) == DaemonRun(cfg, w1, counter + 1, rest);
      LostRulesReturn(cfg, w1, counter + 1, rest, interval);
    }
  }

  // ---------------------------------------------------------------- health exports

  /** Some of the next `ticks` ticks exports, under fixed intervals. */
  predicate SomeExport(counter: nat, reconcileEvery: int, exportEvery: int, ticks: nat)
    requires exportEvery > 0
    decreases ticks
  {
    ticks > 0 &&
    (ExportsNow(counter, reconcileEvery, exportEvery) ||
     SomeExport(NextCounter(counter, reconcileEvery), reconcileEvery, exportEvery, ticks - 1))
  }

  /** Some of the ticks export exactly when the worker counts an export. */
  lemma {:induction false} SomeExportIff(counter: nat, seconds: seq<Second>, reconcileEvery: int, exportEvery: int)
    requires ExportsConfigured(seconds) && exportEvery > 0 && FixedInterval(seconds, reconcileEvery)
    requires forall k :: 0 <= k < |seconds| ==> seconds[k].exportEvery == exportEvery
    ensures SomeExport(counter, reconcileEvery, exportEvery, |seconds|) <==> ExportsIn(counter, seconds) > 0
    decreases |seconds|
  {
    if seconds != [] {
      SomeExportIff(NextCounter(counter, reconcileEvery), seconds[1..], reconcileEvery, exportEvery);
    }
  }

  lemma {:induction false} RemainderStep(c: nat, h: nat)
    requires h > 0
    ensures (c + 1) % h == if c % h + 1 == h then 0 else c % h + 1
  {
    var q, r := c / h, c % h;
    assert c + 1 == h * q + (r + 1);
    if r + 1 == h {
      assert c + 1 == h * (q + 1);
      RemainderUnique(c + 1, h, q + 1, 0);
    } else {
      RemainderUnique(c + 1, h, q, r + 1);
    }
  }

  lemma {:induction false} RemainderUnique(n: nat, h: nat, q: nat, r: nat)
    requires h > 0 && r < h && n == h * q + r
    ensures n % h == r
  {
    var d := q - n / h;
    DistributeOver(h, n / h, d);
    assert n % h == h * d + r;
    if d > 0 {
      MultipleIsLarge(h, d);
    } else if d < 0 {
      MultipleIsLarge(h, -d);
    }
  }

  lemma {:induction false} DistributeOver(h: nat, a: int, d: int)
    ensures h * (a + d) == h * a + h * d
  {
  }

  lemma {:induction false} MultipleIsLarge(h: nat, d: int)
    requires d > 0
    ensures h * d >= h
  {
  }

  /** The ticks up to the next export: to the next multiple of the export interval, or to
      the reset of the counter if that comes first. */
  lemma {:induction false} ExportExactly(counter: nat, reconcileEvery: nat, exportEvery: nat, ticks: nat)
    requires counter < reconcileEvery && exportEvery > 0
    ensures SomeExport(counter, reconcileEvery, exportEvery, ticks) <==>
            ticks >= reconcileEvery - counter || ticks >= exportEvery - counter % exportEvery
    decreases ticks
  {
    RemainderStep(counter, exportEvery);
    if ticks > 0 {
      if ReconcilesNow(counter, reconcileEvery) {
        RemainderUnique(0, exportEvery, 0, 0);
      } else {
        ExportExactly(counter + 1, reconcileEvery, exportEvery, ticks - 1);
      }
    }
  }

  /** From any counter the worker can reach, exports are at most as far apart as the
      shorter of the two intervals. */
  lemma {:induction false} ExportsAreFrequent(counter: nat, reconcileEvery: nat, exportEvery: nat)
    requires counter < reconcileEvery && exportEvery > 0
    ensures SomeExport(counter, reconcileEvery, exportEvery,
                       if reconcileEvery < exportEvery then reconcileEvery else exportEvery)
    ensures NextCounter(counter, reconcileEvery) < reconcileEvery
  {
    ExportExactly(counter, reconcileEvery, exportEvery,
                  if reconcileEvery < exportEvery then reconcileEvery else exportEvery);
  }
}
