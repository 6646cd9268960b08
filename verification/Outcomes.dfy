/** What each operation does to the two stores, told by clock readings, row fields and
    rule expiries alone, and how long a ban lasts over whole runs. */
module Outcomes {
  import opened Domain
  import opened Risk
  import opened Policy
  import opened Enforcement
  import opened Reconciliation
  import opened Runs
  import opened Safety

  // ---------------------------------------------------------------- bans last until they are due

  lemma {:induction false} ExpirySpares(w: World, now: int, i: nat)
    requires i < |w.bans|
    ensures var b, b' := w.bans[i], CheckExpirations(w, now).bans[i];
      b' == if b.status == Active && b.expiresAt.Some? && now >= b.expiresAt.value then b.(status := Expired) else b
  {
  }

  lemma {:induction false} ReconcileSpares(w: World, env: Env, i: nat)
    requires i < |w.bans|
    ensures |Reconcile(w, env).0.bans| == |w.bans|
    ensures var b, b' := w.bans[i], Reconcile(w, env).0.bans[i];
      b' == if env.available && b.status == Active && b.expiresAt.Some? && env.now >= b.expiresAt.value then
              b.(status := Expired)
            else b
  {
    if env.available { ReconcileStores(w, env); }
  }

  lemma {:induction false} RecoverySpares(w: World, env: Env, rows: seq<nat>, synced: nat, i: nat)
    requires RowsInTable(w.bans, rows) && i < |w.bans|
    ensures |SyncRows(w, env, rows, synced).0.bans| == |w.bans|
    ensures var b, b' := w.bans[i], SyncRows(w, env, rows, synced).0.bans[i];
      b' == b || (b' == b.(status := Expired) && i in rows && b.expiresAt.Some? && env.now >= b.expiresAt.value)
    decreases |rows|
  {
    if rows != [] {
      var b := w.bans[rows[0]];
      if Lapsed(b, env.now) {
        RecoverySpares(w.(bans := SetStatus(w.bans, rows[0], Expired)), env, rows[1..], synced, i);
      } else if b.sourceIp !in env.refused {
        RecoverySpares(w.(rules := w.rules[b.sourceIp := FreshRule(b, env.now)]), env, rows[1..], synced + 1, i);
      }
    }
  }

  lemma {:induction false} StartupSpares(w: World, env: Env, i: nat)
    requires i < |w.bans|
    ensures |SyncOnStartup(w, env).0.bans| == |w.bans|
    ensures var b, b' := w.bans[i], SyncOnStartup(w, env).0.bans[i];
      b' == b || (b' == b.(status := Expired) && b.status == Active && b.expiresAt.Some? &&
                  env.now >= b.expiresAt.value)
  {
    var rows := ActiveRows(w.bans);
    ActiveRowsFacts(w.bans);
    forall k | 0 <= k < |rows| ensures rows[k] < |w.bans| { assert rows[k] in rows; }
    RecoverySpares(w, env, rows, 0, i);
  }

  lemma {:induction false} UnbanSpares(w: World, ip: Ip, i: nat)
    requires i < |w.bans|
    ensures |Unban(w, ip).bans| == |w.bans|
    ensures var b, b' := w.bans[i], Unban(w, ip).bans[i];
      b' == b || (b' == b.(status := Unbanned) && b.status == Active && b.sourceIp == ip)
  {
    BanForFacts(w.bans, ip);
  }

  /** A row leaves ACTIVE only by an unban of its address, or EXPIRED once the clock has
      reached the expiry stored in it; nothing else in a stored row ever changes. */
  lemma {:induction false} RetiredForCause(cfg: Config, w: World, s: Step, env: Env, i: nat)
    requires i < |w.bans|
    ensures i < |Exec(cfg, w, s, env).bans|
    ensures var b, b' := w.bans[i], Exec(cfg, w, s, env).bans[i];
      b' == b ||
      (b.status == Active && b' == b.(status := Unbanned) && s == UnbanByOperator(b.sourceIp)) ||
      (b.status == Active && b' == b.(status := Expired) &&
       b.expiresAt.Some? && env.now >= b.expiresAt.value && (s.Expire? || s.Startup? || s.ReconcileRules?))
  {
    var w' := Exec(cfg, w, s, env);
    match s
    case Process(_, _, _) => CreatorKeepsRows(cfg, w, s, env, i);
    case React(_, _) => CreatorKeepsRows(cfg, w, s, env, i);
    case BanByOperator(_, _, _) => CreatorKeepsRows(cfg, w, s, env, i);
    case UnbanByOperator(ip) => UnbanSpares(w, ip, i);
    case Expire => ExpirySpares(w, env.now, i);
    case Startup => StartupSpares(w, env, i);
    case ReconcileRules => ReconcileSpares(w, env, i);
    case FlushRules =>
    case ListRules =>
  }

  lemma {:induction false} CreatorKeepsRows(cfg: Config, w: World, s: Step, env: Env, i: nat)
    requires i < |w.bans| && (s.Process? || s.React? || s.BanByOperator?)
    ensures i < |Exec(cfg, w, s, env).bans| && Exec(cfg, w, s, env).bans[i] == w.bans[i]
  {
  }

  /** No step unbans the address, and no clock reading reaches the expiry. */
  predicate LeftAlone(run: seq<Timed>, ip: Ip, expiresAt: Option<int>) {
    forall k :: 0 <= k < |run| ==>
      run[k].step != UnbanByOperator(ip) && (expiresAt.Some? ==> run[k].env.now < expiresAt.value)
  }

  /** An ACTIVE row stays as it is until its address is unbanned or its expiry is
      reached; for ever when it has none. */
  lemma {:induction false} BanLasts(cfg: Config, w: World, run: seq<Timed>, i: nat)
    requires i < |w.bans| && LeftAlone(run, w.bans[i].sourceIp, w.bans[i].expiresAt)
    ensures i < |Run(cfg, w, run).bans| && Run(cfg, w, run).bans[i] == w.bans[i]
    decreases |run|
  {
    if run != [] {
      RetiredForCause(cfg, w, run[0].step, run[0].env, i);
      assert run[0].step != UnbanByOperator(w.bans[i].sourceIp);
      assert forall k :: 0 <= k < |run[1..]| ==> run[1..][k] == run[k + 1];
      BanLasts(cfg, Exec(cfg, w, run[0].step, run[0].env), run[1..], i);
    }
  }

  /** From an empty system and without flushes, an ACTIVE ban that is not unbanned is not
      only still ACTIVE while no clock reading reaches its expiry: its address has a rule
      that blocks at every instant up to one second before. */
  lemma {:induction false} BanBlocksUntilDue(cfg: Config, before: seq<Timed>, after: seq<Timed>, clock: int, i: nat,
                                             t: int)
    requires SoundRun(cfg, before + after) && Undisturbed(before + after, clock)
    requires var w := Run(cfg, EMPTY_WORLD, before);
      i < |w.bans| && w.bans[i].status == Active && LeftAlone(after, w.bans[i].sourceIp, w.bans[i].expiresAt) &&
      ClockAfter(before + after, clock) <= t &&
      (w.bans[i].expiresAt.Some? ==> t <= w.bans[i].expiresAt.value - 1_000_000)
    ensures var b, w' := Run(cfg, EMPTY_WORLD, before).bans[i], Run(cfg, EMPTY_WORLD, before + after);
      i < |w'.bans| && w'.bans[i] == b &&
      b.sourceIp in w'.rules && (w'.rules[b.sourceIp].None? || t <= w'.rules[b.sourceIp].value)
  {
    RunConcat(cfg, EMPTY_WORLD, before, after);
    BanLasts(cfg, Run(cfg, EMPTY_WORLD, before), after, i);
    ActiveBansAreBlocked(cfg, before + after, clock, i, t);
  }

  /** An expiry check retires exactly the ACTIVE rows whose expiry the clock has reached,
      and unblocks exactly their addresses. */
  lemma {:induction false} ExpiryExactly(cfg: Config, w: World, env: Env)
    ensures var w' := Exec(cfg, w, Expire, env);
      && w'.events == w.events
      && |w'.bans| == |w.bans|
      && (forall i :: 0 <= i < |w.bans| ==>
            var b := w.bans[i];
            w'.bans[i] == if b.status == Active && b.expiresAt.Some? && env.now >= b.expiresAt.value then
                            b.(status := Expired)
                          else b)
      && (forall ip :: ip in w'.rules <==> ip in w.rules && !DueFor(w.bans, env.now, ip))
      && (forall ip :: ip in w'.rules ==> w'.rules[ip] == w.rules[ip])
      && (forall ip :: ip in w'.actors <==> ip in w.actors)
      && (forall ip :: ip in w.actors ==>
            w'.actors[ip] == if DueFor(w.bans, env.now, ip) then w.actors[ip].(state := ExpiredState)
                             else w.actors[ip])
  {
  }

  /** Some ACTIVE ban of the address has reached its expiry. */
  ghost predicate DueFor(bans: seq<BanRecord>, now: int, ip: Ip) {
    exists i :: 0 <= i < |bans| && bans[i].sourceIp == ip && bans[i].status == Active &&
                bans[i].expiresAt.Some? && now >= bans[i].expiresAt.value
  }

  // ---------------------------------------------------------------- what an operator's commands do

  /** A manual ban: refused or redundant it changes nothing; otherwise it stores one row,
      ACTIVE with a rule when the firewall is available and FAILED without one when not. */
  lemma {:induction false} OperatorBanOutcome(cfg: Config, w: World, env: Env, ip: Ip, duration: int, permanent: bool)
    ensures var w' := Exec(cfg, w, BanByOperator(ip, duration, permanent), env);
      var b := BanRecord(
        ip, if permanent then 100 else 85, env.now,
        if permanent || duration <= 0 then None else Some(env.now + duration * 1_000_000),
        if permanent then PermanentBan else TemporaryIsolation,
        if env.available then Active else Failed);
      var rule := if permanent || duration == 0 then None else Some(env.now + duration * 1_000_000);
      if HasActive(w.bans, ip) || (env.available && ip in env.refused) then w' == w
      else
        && w'.bans == w.bans + [b]
        && w'.rules == (if env.available then w.rules[ip := rule] else w.rules)
        && w'.events == w.events
        && (forall other :: other != ip ==> (other in w'.actors <==> other in w.actors))
        && (forall other :: other != ip && other in w.actors ==> w'.actors[other] == w.actors[other])
        && ip in w'.actors
        && w'.actors[ip] == (
             if ip !in w.actors then
               Profile(ip, env.now, env.now, 0, 0, 0, {}, {}, b.threatScore, Critical, Isolated, [], b.action)
             else if env.available then w.actors[ip].(state := Isolated)
             else w.actors[ip])
  {
    BanForFacts(w.bans, ip);
  }

  /** A manual ban that succeeds blocks its address from now on, and a timed one until the
      requested duration is over. */
  lemma {:induction false} OperatorBanBlocks(cfg: Config, w: World, env: Env, ip: Ip, duration: int, permanent: bool,
                                             t: int)
    requires !HasActive(w.bans, ip) && env.available && ip !in env.refused
    requires env.now <= t && (permanent || (duration >= 0 && (duration > 0 ==> t <= env.now + duration * 1_000_000)))
    ensures var w' := Exec(cfg, w, BanByOperator(ip, duration, permanent), env);
      HasActive(w'.bans, ip) && ip in w'.rules && (w'.rules[ip].None? || t <= w'.rules[ip].value)
  {
    OperatorBanOutcome(cfg, w, env, ip, duration, permanent);
    assert Exec(cfg, w, BanByOperator(ip, duration, permanent), env).bans[|w.bans|].status == Active;
  }

  /** An unban removes the rule and marks the latest ACTIVE row of the address, if any. */
  lemma {:induction false} UnbanOutcome(cfg: Config, w: World, env: Env, ip: Ip)
    ensures var w' := Exec(cfg, w, UnbanByOperator(ip), env);
      && ip !in w'.rules
      && (forall other :: other != ip ==> (other in w'.rules <==> other in w.rules))
      && (forall other :: other in w'.rules ==> w'.rules[other] == w.rules[other])
      && w'.events == w.events
      && (forall other :: other in w'.actors <==> other in w.actors)
      && (forall other :: other in w.actors ==>
            w'.actors[other] == if other == ip then w.actors[other].(state := Released) else w.actors[other])
      && (!HasActive(w.bans, ip) ==> w'.bans == w.bans)
      && (HasActive(w.bans, ip) ==>
            exists i :: 0 <= i < |w.bans| && LatestActive(w.bans, ip, i) &&
                        w'.bans == w.bans[i := w.bans[i].(status := Unbanned)])
  {
    BanForFacts(w.bans, ip);
    if HasActive(w.bans, ip) {
      var i := BanFor(w.bans, ip).value;
      assert LatestActive(w.bans, ip, i);
    }
  }

  ghost predicate LatestActive(bans: seq<BanRecord>, ip: Ip, i: int) {
    0 <= i < |bans| && bans[i].status == Active && bans[i].sourceIp == ip &&
    forall j :: 0 <= j < |bans| && bans[j].status == Active && bans[j].sourceIp == ip ==>
      bans[j].createdAt <= bans[i].createdAt
  }

  /** A flush empties an available firewall and does nothing else; listing drops exactly
      the rules whose own expiry has passed. */
  lemma {:induction false} RuleCommands(cfg: Config, w: World, env: Env)
    ensures Exec(cfg, w, FlushRules, env) == if env.available then World(w.bans, w.actors, w.events, map[]) else w
    ensures var w' := Exec(cfg, w, ListRules, env);
      && w' == World(w.bans, w.actors, w.events, w'.rules)
      && (forall ip :: ip in w'.rules <==> ip in w.rules && (w.rules[ip].None? || w.rules[ip].value >= env.now))
      && (forall ip :: ip in w'.rules ==> w'.rules[ip] == w.rules[ip])
  {
  }

  // ---------------------------------------------------------------- what a response does

  /** Which record a decision to isolate leaves, and with which rule: enforced only in
      automatic mode by a firewall that takes it, otherwise a FAILED, SIMULATED or
      PENDING_APPROVAL row and no rule. */
  lemma {:induction false} ResponseOutcome(cfg: Config, w: World, env: Env, p: Profile, mode: Mode)
    ensures var w' := Exec(cfg, w, React(p, mode), env);
      var isolates := !Allowlisted(cfg.policy, p.sourceIp) &&
                      (p.threatScore >= cfg.policy.isolationThreshold || (p.threatScore >= 100 &&
                                                                          p.authFailures >= 30));
      var permanent := p.threatScore >= 100 && p.authFailures >= 30;
      var enforced := mode == Automatic && env.available && p.sourceIp !in env.refused;
      if !isolates || mode == Disabled || HasActive(w.bans, p.sourceIp) then w' == w
      else
        && |w'.bans| == |w.bans| + 1 && w'.bans[..|w.bans|] == w.bans
        && var b := w'.bans[|w.bans|];
        && b.sourceIp == p.sourceIp && b.threatScore == p.threatScore && b.createdAt == env.now
        && b.action == (if permanent then PermanentBan else TemporaryIsolation)
        && b.expiresAt == DueAfter(env.now, IsolationSeconds(cfg.policy, p))
        && b.status == (match mode
                        case Automatic => if enforced then Active else Failed
                        case DryRun => Simulated
                        case _ => PendingApproval)
        && w'.events == w.events
        && (!enforced ==> w'.rules == w.rules)
        && (enforced && (permanent || IsolationSeconds(cfg.policy, p).value >= 0) ==>
              w'.rules == w.rules[p.sourceIp := b.expiresAt])
  {
    BanForFacts(w.bans, p.sourceIp);
  }

  /** The threat actors after a ban was stored: only the address's row changes, to ISOLATED
      when the ban is enforced; a new row starts with the record's score and action. */
  lemma {:induction false} ResponseActors(cfg: Config, w: World, env: Env, p: Profile, mode: Mode)
    ensures var w' := Exec(cfg, w, React(p, mode), env);
      var enforced := mode == Automatic && env.available && p.sourceIp !in env.refused;
      |w'.bans| > |w.bans| ==>
        && (forall ip :: ip != p.sourceIp ==> (ip in w'.actors <==> ip in w.actors))
        && (forall ip :: ip != p.sourceIp && ip in w.actors ==> w'.actors[ip] == w.actors[ip])
        && p.sourceIp in w'.actors
        && w'.actors[p.sourceIp] == (
             if p.sourceIp !in w.actors then
               Profile(p.sourceIp, env.now, env.now, 0, 0, 0, {}, {}, p.threatScore, SeverityOf(p.threatScore),
                       if enforced then Isolated else Neutral, [], w'.bans[|w.bans|].action)
             else if enforced then w.actors[p.sourceIp].(state := Isolated)
             else w.actors[p.sourceIp])
  {
  }

  /** What a response reports: the ban it stored or found, whether it was executed, and a
      disabled mode when it should have been and was not. */
  lemma {:induction false} ResponseAnswer(cfg: PolicyConfig, w: World, env: Env, p: Profile, mode: Mode)
    ensures var (_, d, ban) := Respond(cfg, w, env, p, mode);
      var isolates := !Allowlisted(cfg, p.sourceIp) &&
                      (p.threatScore >= cfg.isolationThreshold || (p.threatScore >= 100 && p.authFailures >= 30));
      var creates := isolates && mode != Disabled && !HasActive(w.bans, p.sourceIp);
      var enforced := mode == Automatic && env.available && p.sourceIp !in env.refused;
      && (ban.None? <==> !isolates || mode == Disabled)
      && (creates ==> ban == Some(|w.bans|))
      && (ban.Some? && !creates ==> LatestActive(w.bans, p.sourceIp, ban.value))
      && (d.executed <==> creates && enforced)
      && d.mode == (if creates && mode == Automatic && !enforced then Disabled else mode)
      && d == Decide(cfg, p, mode).(executed := d.executed, mode := d.mode)
  {
    BanForFacts(w.bans, p.sourceIp);
  }

  /** None for a permanent ban; otherwise the longer of two durations for fifteen stored
      failures or more, and never more than the maximum. */
  function IsolationSeconds(cfg: PolicyConfig, p: Profile): Option<int> {
    if p.threatScore >= 100 && p.authFailures >= 30 then None
    else
      var wanted := if p.authFailures >= 15 then cfg.repeatOffenderDuration else cfg.defaultDuration;
      Some(if wanted < cfg.maxDuration then wanted else cfg.maxDuration)
  }

  function DueAfter(now: int, seconds: Option<int>): Option<int> {
    if seconds.None? || seconds.value <= 0 then None else Some(now + seconds.value * 1_000_000)
  }

  /** One telemetry item: the event is logged, the response is the one to the profile
      assessed from it, and that profile is stored. */
  lemma {:induction false} ProcessOutcome(cfg: Config, w: World, env: Env, e: SecurityEvent,
                                          detections: seq<DetectionResult>, iocs: seq<Ioc>)
    ensures var w' := Exec(cfg, w, Process(e, detections, iocs), env);
      var stored := if e.sourceIp in w.actors then Some(w.actors[e.sourceIp]) else None;
      var p := Assess(cfg.scoring, e, stored, detections, iocs);
      && w'.events == w.events + [e]
      && e.sourceIp in w'.actors && w'.actors[e.sourceIp] == p.(firstSeen := w'.actors[e.sourceIp].firstSeen)
      && w'.actors[e.sourceIp].firstSeen == (
           if stored.Some? then stored.value.firstSeen else if w'.bans == w.bans then e.timestamp else env.now)
      && (cfg.mode.None? ==> w'.bans == w.bans && w'.rules == w.rules)
      && (cfg.mode.Some? ==>
            var reacted := Exec(cfg, w, React(p, cfg.mode.value), env);
            w'.bans == reacted.bans && w'.rules == reacted.rules)
  {
    if cfg.mode.Some? {
      var stored := if e.sourceIp in w.actors then Some(w.actors[e.sourceIp]) else None;
      ResponseIgnoresLog(cfg.policy, w, w.events + [e], env, Assess(cfg.scoring, e, stored, detections, iocs),
                         cfg.mode.value);
    }
  }

  /** The response neither reads nor writes the event log, and keeps when an actor was
      first seen; a new actor is first seen when it is banned. */
  lemma {:induction false} ResponseIgnoresLog(cfg: PolicyConfig, w: World, log: seq<SecurityEvent>, env: Env,
                                              p: Profile, mode: Mode)
    ensures var w1, w2 := Respond(cfg, w, env, p, mode).0, Respond(cfg, w.(events := log), env, p, mode).0;
      w2 == w1.(events := log) &&
      (p.sourceIp in w.actors ==>
         p.sourceIp in w1.actors && w1.actors[p.sourceIp].firstSeen == w.actors[p.sourceIp].firstSeen) &&
      (p.sourceIp !in w.actors ==>
         (p.sourceIp in w1.actors <==> w1.bans != w.bans) &&
         (p.sourceIp in w1.actors ==> w1.actors[p.sourceIp].firstSeen == env.now))
  {
  }

  /** An event whose score reaches the isolation threshold, of an address that is neither
      allowlisted nor banned, is answered in automatic mode by an ACTIVE ban and a rule
      that lasts as long, if the firewall takes it. */
  lemma {:induction false} ThreatIsBanned(cfg: Config, w: World, env: Env, e: SecurityEvent,
                                          detections: seq<DetectionResult>, iocs: seq<Ioc>)
    requires ValidPolicy(cfg.policy) && cfg.mode == Some(Automatic)
    requires env.available && e.sourceIp !in env.refused
    requires !Allowlisted(cfg.policy, e.sourceIp) && !HasActive(w.bans, e.sourceIp)
    requires var stored := if e.sourceIp in w.actors then Some(w.actors[e.sourceIp]) else None;
      Assess(cfg.scoring, e, stored, detections, iocs).threatScore >= cfg.policy.isolationThreshold
    ensures var w' := Exec(cfg, w, Process(e, detections, iocs), env);
      && |w'.bans| == |w.bans| + 1
      && var b := w'.bans[|w.bans|];
      && b.status == Active && b.sourceIp == e.sourceIp && b.createdAt == env.now
      && (b.expiresAt.Some? ==>
            env.now + cfg.policy.defaultDuration * 1_000_000 <= b.expiresAt.value <=
            env.now + cfg.policy.maxDuration * 1_000_000)
      && w'.rules == w.rules[e.sourceIp := b.expiresAt]
  {
    var stored := if e.sourceIp in w.actors then Some(w.actors[e.sourceIp]) else None;
    var p := Assess(cfg.scoring, e, stored, detections, iocs);
    ProcessOutcome(cfg, w, env, e, detections, iocs);
    ResponseOutcome(cfg, w, env, p, Automatic);
  }

  // ---------------------------------------------------------------- what recovery and reconciliation do

  /** A rule as good as its ban: none for a permanent ban, else within a second of it. */
  predicate Fits(rule: Option<int>, expiresAt: Option<int>) {
    if expiresAt.None? then rule.None?
    else rule.Some? && expiresAt.value - 1_000_000 < rule.value < expiresAt.value + 1_000_000
  }

  /** Startup recovery that the firewall takes entirely: rows that are due are EXPIRED, all
      other ACTIVE bans have a fitting rule, other addresses keep what they had. */
  lemma {:induction false} StartupOutcome(cfg: Config, w: World, env: Env)
    requires UniqueActive(w.bans)
    requires forall i :: 0 <= i < |w.bans| && w.bans[i].status == Active && w.bans[i].sourceIp in env.refused ==>
               w.bans[i].expiresAt.Some? && env.now >= w.bans[i].expiresAt.value
    ensures var w' := Exec(cfg, w, Startup, env);
      && |w'.bans| == |w.bans|
      && (forall i :: 0 <= i < |w.bans| ==>
            var b := w.bans[i];
            w'.bans[i] == if b.status == Active && b.expiresAt.Some? && env.now >= b.expiresAt.value then
                            b.(status := Expired)
                          else b)
      && (forall i :: 0 <= i < |w'.bans| && w'.bans[i].status == Active ==>
            w'.bans[i].sourceIp in w'.rules && Fits(w'.rules[w'.bans[i].sourceIp], w'.bans[i].expiresAt))
      && (forall ip :: !HasActive(w'.bans, ip) ==>
            (ip in w'.rules <==> ip in w.rules) && (ip in w.rules ==> w'.rules[ip] == w.rules[ip]))
  {
    StartupRestores(w, env);
    ExpiryFacts(w.bans, env.now);
    var w' := Exec(cfg, w, Startup, env);
    forall i: nat | i < |w.bans| && w'.bans[i].status == Active
      ensures w'.bans[i].sourceIp in w'.rules && Fits(w'.rules[w'.bans[i].sourceIp], w'.bans[i].expiresAt)
    {
      assert Live(w.bans[i], env.now);
      FreshRuleIsNear(w.bans[i], env.now);
    }
    forall ip | ip in LiveIps(w.bans, env.now) ensures HasActive(w'.bans, ip) {
      LiveStaysActive(w, w', env.now, ip);
    }
  }

  lemma {:induction false} LiveStaysActive(w: World, w': World, now: int, ip: Ip)
    requires w'.bans == ExpireRecords(w.bans, now) && ip in LiveIps(w.bans, now)
    ensures HasActive(w'.bans, ip)
  {
    var i :| 0 <= i < |w.bans| && Live(w.bans[i], now) && w.bans[i].sourceIp == ip;
    assert w'.bans[i].status == Active && w'.bans[i].sourceIp == ip;
  }

  lemma {:induction false} DoomedIsDue(bans: seq<BanRecord>, now: int, ip: Ip)
    ensures ip in DoomedIps(bans, now) <==> DueFor(bans, now, ip)
  {
    if ip in DoomedIps(bans, now) {
      var i :| 0 <= i < |bans| && Doomed(bans[i], now) && bans[i].sourceIp == ip;
    }
  }

  /** A reconciliation with an available firewall that takes every address: rows that are
      due are EXPIRED, every other ACTIVE ban is blocked, and a rule that stays or comes
      belongs to such a ban or is a foreign one that has not run out. Without the
      firewall nothing happens. */
  lemma {:induction false} ReconcileOutcome(cfg: Config, w: World, env: Env)
    requires env.refused == {}
    ensures var w' := Exec(cfg, w, ReconcileRules, env);
      if !env.available then w' == w
      else
        && |w'.bans| == |w.bans|
        && (forall i :: 0 <= i < |w.bans| ==>
              var b := w.bans[i];
              w'.bans[i] == if b.status == Active && b.expiresAt.Some? && env.now >= b.expiresAt.value then
                              b.(status := Expired)
                            else b)
        && (forall i :: 0 <= i < |w'.bans| && w'.bans[i].status == Active ==>
              BlocksAt(w'.rules, w'.bans[i].sourceIp, env.now))
        && (forall ip :: ip in w'.rules ==>
              HasActive(w'.bans, ip) || (ip in w.rules && w'.rules[ip] == w.rules[ip] && !DueFor(w.bans, env.now, ip)))
        && (forall ip :: BlocksAt(w.rules, ip, env.now) && !DueFor(w.bans, env.now, ip) ==>
              ip in w'.rules && w'.rules[ip] == w.rules[ip])
  {
    if env.available {
      var w' := Exec(cfg, w, ReconcileRules, env);
      ReconcileRows(w, env);
      forall ip
        ensures ip in w'.rules ==>
          HasActive(w'.bans, ip) || (ip in w.rules && w'.rules[ip] == w.rules[ip] && !DueFor(w.bans, env.now, ip))
        ensures BlocksAt(w.rules, ip, env.now) && !DueFor(w.bans, env.now, ip) ==>
          ip in w'.rules && w'.rules[ip] == w.rules[ip]
      {
        ReconcileRule(w, env, ip);
      }
    }
  }

  /** The rows after such a reconciliation, and that its ACTIVE ones are blocked. */
  lemma {:induction false} ReconcileRows(w: World, env: Env)
    requires env.available && env.refused == {}
    ensures var w' := Reconcile(w, env).0;
      && |w'.bans| == |w.bans|
      && (forall i :: 0 <= i < |w.bans| ==>
            var b := w.bans[i];
            w'.bans[i] == if b.status == Active && b.expiresAt.Some? && env.now >= b.expiresAt.value then
                            b.(status := Expired)
                          else b)
      && (forall i :: 0 <= i < |w'.bans| && w'.bans[i].status == Active ==>
            BlocksAt(w'.rules, w'.bans[i].sourceIp, env.now))
  {
    ReconcileReports(w, env);
    ReconcileHeals(w, env);
    ReconcileStores(w, env);
  }

  lemma {:induction false} ReconcileRule(w: World, env: Env, ip: Ip)
    requires env.available && env.refused == {}
    ensures var w' := Reconcile(w, env).0;
      && (ip in w'.rules ==>
            HasActive(w'.bans, ip) || (ip in w.rules && w'.rules[ip] == w.rules[ip] && !DueFor(w.bans, env.now, ip)))
      && (BlocksAt(w.rules, ip, env.now) && !DueFor(w.bans, env.now, ip) ==>
            ip in w'.rules && w'.rules[ip] == w.rules[ip])
  {
    ReconcileStores(w, env);
    DoomedIsDue(w.bans, env.now, ip);
    if ip in LiveIps(w.bans, env.now) { LiveStaysActive(w, Reconcile(w, env).0, env.now, ip); }
  }

  predicate BlocksAt(rules: Rules, ip: Ip, now: int) {
    ip in rules && (rules[ip].None? || now <= rules[ip].value)
  }

  /** Different rows, the latest created first. */
  ghost predicate RowsInOrder(bans: seq<BanRecord>, ids: seq<nat>) {
    (forall k :: 0 <= k < |ids| ==> ids[k] < |bans|) &&
    forall j, k :: 0 <= j < k < |ids| ==> ids[j] != ids[k] && bans[ids[j]].createdAt >= bans[ids[k]].createdAt
  }

  lemma {:induction false} RowsSnoc(bans: seq<BanRecord>, ids: seq<nat>, last: nat)
    requires RowsInOrder(bans, ids) && last < |bans|
    requires forall r: nat :: r in ids ==> r < |bans| && r != last && bans[r].createdAt >= bans[last].createdAt
    ensures RowsInOrder(bans, ids + [last])
  {
    forall k | 0 <= k < |ids| ensures ids[k] != last && bans[ids[k]].createdAt >= bans[last].createdAt {
      assert ids[k] in ids;
    }
  }

  lemma {:induction false} RowsBefore(bans: seq<BanRecord>, before: seq<nat>, last: nat, r: nat)
    requires RowsInOrder(bans, before + [last]) && last < |bans| && r in before
    ensures r < |bans| && r != last && bans[r].createdAt >= bans[last].createdAt
  {
    var rows := before + [last];
    assert forall k :: 0 <= k < |before| ==> before[k] == rows[k];
    var k :| 0 <= k < |before| && before[k] == r;
    assert rows[|before|] == last;
  }

  lemma {:induction false} RowsPrefix(bans: seq<BanRecord>, before: seq<nat>, last: nat)
    requires RowsInOrder(bans, before + [last])
    ensures RowsInOrder(bans, before) && last < |bans|
  {
    assert forall k :: 0 <= k < |before| ==> before[k] == (before + [last])[k];
    assert (before + [last])[|before|] == last;
  }

  lemma {:induction false} ExpiredIpsOf(bans: seq<BanRecord>, rows: seq<nat>, now: int) returns (ids: seq<nat>)
    requires RowsInOrder(bans, rows)
    ensures RowsInOrder(bans, ids)
    ensures |ExpiredIps(bans, rows, now)| == |ids|
    ensures forall k :: 0 <= k < |ids| ==> ExpiredIps(bans, rows, now)[k] == bans[ids[k]].sourceIp
    ensures forall r: nat :: r in ids <==> r in rows && r < |bans| && Lapsed(bans[r], now)
  {
    if rows == [] {
      ids := [];
    } else {
      var before, last := rows[..|rows| - 1], rows[|rows| - 1];
      assert rows == before + [last];
      RowsPrefix(bans, before, last);
      ids := ExpiredIpsOf(bans, before, now);
      if Lapsed(bans[last], now) {
        forall r: nat | r in ids ensures r < |bans| && r != last && bans[r].createdAt >= bans[last].createdAt {
          RowsBefore(bans, before, last, r);
        }
        RowsSnoc(bans, ids, last);
        ids := ids + [last];
      }
    }
  }

  lemma {:induction false} OncePerRow(rows: seq<nat>, j: nat, k: nat)
    requires forall r: nat :: multiset(rows)[r] <= 1
    requires j < k < |rows|
    ensures rows[j] != rows[k]
  {
    var a, b := rows[..k], rows[k..];
    assert rows == a + b;
    assert a[j] == rows[j] && b[0] == rows[k];
    assert multiset(rows)[rows[k]] == multiset(a)[rows[k]] + multiset(b)[rows[k]];
    assert multiset(a)[a[j]] > 0 && multiset(b)[b[0]] > 0;
  }

  lemma {:induction false} ActiveRowsInOrder(bans: seq<BanRecord>)
    ensures RowsInOrder(bans, ActiveRows(bans))
  {
    var rows := ActiveRows(bans);
    ActiveRowsFacts(bans);
    forall k | 0 <= k < |rows| ensures rows[k] < |bans| { assert rows[k] in rows; }
    forall j, k | 0 <= j < k < |rows| ensures rows[j] != rows[k] { OncePerRow(rows, j, k); }
  }

  /** What a healthy reconciliation reports as cleaned: the addresses of exactly the ACTIVE
      rows that were due, one for each, latest created first. */
  lemma {:induction false} CleanedExactly(w: World, env: Env) returns (ids: seq<nat>)
    requires Reconcile(w, env).1.healthy
    ensures RowsInOrder(w.bans, ids)
    ensures forall i: nat :: i in ids <==>
              && i < |w.bans| && w.bans[i].status == Active
              && w.bans[i].expiresAt.Some? && env.now >= w.bans[i].expiresAt.value
    ensures var cleaned := Reconcile(w, env).1.expiredCleaned;
      |cleaned| == |ids| && forall k :: 0 <= k < |ids| ==> cleaned[k] == w.bans[ids[k]].sourceIp
  {
    ActiveRowsFacts(w.bans);
    ActiveRowsInOrder(w.bans);
    ids := ExpiredIpsOf(w.bans, ActiveRows(w.bans), env.now);
  }
}
