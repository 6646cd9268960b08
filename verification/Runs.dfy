/** Whole runs of the defence: every interleaving of event processing, operator
    commands, expiry, startup recovery, reconciliation and out-of-band flushes. */
module Runs {
  import opened Domain
  import opened Risk
  import opened Policy
  import opened Enforcement
  import opened Reconciliation

  /** `mode` is None when the pipeline has no response engine. */
  datatype Config = Config(scoring: ScoringConfig, policy: PolicyConfig, mode: Option<Mode>)

  datatype Step =
    | Process(event: SecurityEvent, detections: seq<DetectionResult>, iocs: seq<Ioc>)
    | React(profile: Profile, mode: Mode)
    | BanByOperator(ip: Ip, duration: int, permanent: bool)
    | UnbanByOperator(ip: Ip)
    | Expire
    | Startup
    | ReconcileRules
    | FlushRules
    | ListRules

  datatype Timed = Timed(step: Step, env: Env)

  function ProfileOf(w: World, ip: Ip): Option<Profile> {
    if ip in w.actors then Some(w.actors[ip]) else None
  }

  /** One telemetry item: save the event, assess it, respond, store the profile. */
  function ProcessEvent(cfg: Config, w: World, env: Env, e: SecurityEvent,
                        detections: seq<DetectionResult>, iocs: seq<Ioc>): World {
    var saved := w.(events := w.events + [e]);
    var p := Assess(cfg.scoring, e, ProfileOf(saved, e.sourceIp), detections, iocs);
    var responded := if cfg.mode.Some? then Respond(cfg.policy, saved, env, p, cfg.mode.value).0 else saved;
    responded.(actors := Upsert(responded.actors, p))
  }

  function Exec(cfg: Config, w: World, s: Step, env: Env): World {
    match s
    case Process(e, detections, iocs) => ProcessEvent(cfg, w, env, e, detections, iocs)
    case React(p, mode) => Respond(cfg.policy, w, env, p, mode).0
    case BanByOperator(ip, duration, permanent) => OperatorBan(w, env, ip, duration, permanent)
    case UnbanByOperator(ip) => Unban(w, ip)
    case Expire => CheckExpirations(w, env.now)
    case Startup => SyncOnStartup(w, env).0
    case ReconcileRules => Reconcile(w, env).0
    case FlushRules => Flush(w, env)
    case ListRules => w.(rules := EvictStale(w.rules, env.now))
  }

  function Run(cfg: Config, w: World, run: seq<Timed>): World
    decreases |run|
  {
    if run == [] then w else Run(cfg, Exec(cfg, w, run[0].step, run[0].env), run[1..])
  }

  /** A run in two parts. */
  lemma {:induction false} RunConcat(cfg: Config, w: World, a: seq<Timed>, b: seq<Timed>)
    ensures Run(cfg, w, a + b) == Run(cfg, Run(cfg, w, a), b)
    decreases |a|
  {
    if a == [] {
      assert a + b == b;
    } else {
      assert (a + b)[1..] == a[1..] + b;
      RunConcat(cfg, Exec(cfg, w, a[0].step, a[0].env), a[1..], b);
    }
  }

  // ---------------------------------------------------------------- invariants

  /** At most one ban per address is ACTIVE. */
  ghost predicate UniqueActive(bans: seq<BanRecord>) {
    forall i, j :: 0 <= i < j < |bans| && bans[i].status == Active && bans[j].status == Active ==>
      bans[i].sourceIp != bans[j].sourceIp
  }

  /** A rule expires strictly within a second of its ban; never for a permanent ban. */
  predicate Near(b: BanRecord, expiry: Option<int>) {
    match b.expiresAt
    case None => expiry.None?
    case Some(t) => expiry.Some? && t - SECOND < expiry.value < t + SECOND
  }

  ghost predicate InSync(w: World) {
    forall i :: 0 <= i < |w.bans| && w.bans[i].status == Active && w.bans[i].sourceIp in w.rules ==>
      Near(w.bans[i], w.rules[w.bans[i].sourceIp])
  }

  /** A ban left without a rule has less than a second to go. */
  ghost predicate Covered(w: World, clock: int) {
    forall i :: 0 <= i < |w.bans| && w.bans[i].status == Active ==>
      w.bans[i].sourceIp in w.rules || DueBefore(w.bans[i], clock)
  }

  predicate DueBefore(b: BanRecord, clock: int) {
    b.expiresAt.Some? && b.expiresAt.value - SECOND < clock
  }

  // ---------------------------------------------------------------- what a step can do

  /** No ban is added; ACTIVE bans may be retired. */
  ghost predicate OnlyRetires(bans: seq<BanRecord>, bans': seq<BanRecord>) {
    && |bans'| == |bans|
    && (forall i :: 0 <= i < |bans| ==> bans'[i] == bans[i].(status := bans'[i].status))
    && (forall i :: 0 <= i < |bans| && bans'[i].status == Active ==> bans[i].status == Active)
  }

  ghost predicate Refreshed(bans: seq<BanRecord>, now: int, ip: Ip, rule: Option<int>) {
    exists i :: 0 <= i < |bans| && Live(bans[i], now) && bans[i].sourceIp == ip && rule == FreshRule(bans[i], now)
  }

  /** Every rule is an old one or belongs to a ban that is live. */
  ghost predicate OnlyRefreshes(bans: seq<BanRecord>, now: int, rules: Rules, rules': Rules) {
    forall ip :: ip in rules' ==>
      (ip in rules && rules'[ip] == rules[ip]) || Refreshed(bans, now, ip, rules'[ip])
  }

  /** A step that creates no ban. */
  ghost predicate Maintains(w: World, w': World, now: int) {
    OnlyRetires(w.bans, w'.bans) && OnlyRefreshes(w.bans, now, w.rules, w'.rules)
  }

  /** A step that creates one ban for `ip`; only an ACTIVE one comes with a rule, and
      only if the address had no ACTIVE ban. */
  ghost predicate Creates(w: World, w': World, ip: Ip, now: int, duration: Option<int>) {
    && |w'.bans| == |w.bans| + 1
    && w'.bans[..|w.bans|] == w.bans
    && var b := w'.bans[|w.bans|];
    && b.sourceIp == ip
    && b.expiresAt == RecordExpiry(now, duration)
    && (b.status == Active ==> !HasActive(w.bans, ip))
    && w'.rules == if b.status == Active then w.rules[ip := RuleExpiry(now, duration)] else w.rules
  }

  /** Rules of bans that stay ACTIVE are only ever dropped when they ran out. */
  ghost predicate KeepsRules(w: World, w': World, now: int) {
    forall i :: 0 <= i < |w.bans| && i < |w'.bans| && w'.bans[i].status == Active && w'.bans[i].sourceIp in w.rules ==>
      w'.bans[i].sourceIp in w'.rules || RuleStale(w.rules[w'.bans[i].sourceIp], now)
  }

  lemma {:induction false} MaintainsTrans(w: World, w1: World, w2: World, now: int)
    requires Maintains(w, w1, now) && Maintains(w1, w2, now)
    ensures Maintains(w, w2, now)
  {
  }

  lemma {:induction false} UnbanMaintains(w: World, ip: Ip, now: int)
    ensures Maintains(w, Unban(w, ip), now)
  {
  }

  lemma {:induction false} ExpireMaintains(w: World, now: int)
    ensures Maintains(w, CheckExpirations(w, now), now)
  {
  }

  lemma {:induction false} SyncMaintains(w: World, env: Env, rows: seq<nat>, synced: nat)
    requires forall k :: 0 <= k < |rows| ==> rows[k] < |w.bans|
    requires forall k :: 0 <= k < |rows| ==> w.bans[rows[k]].status == Active || Lapsed(w.bans[rows[k]], env.now)
    ensures Maintains(w, SyncRows(w, env, rows, synced).0, env.now)
    decreases |rows|
  {
    if rows != [] {
      var b := w.bans[rows[0]];
      if Lapsed(b, env.now) {
        var w1 := w.(bans := SetStatus(w.bans, rows[0], Expired));
        SyncMaintains(w1, env, rows[1..], synced);
        MaintainsTrans(w, w1, SyncRows(w, env, rows, synced).0, env.now);
      } else if b.sourceIp !in env.refused {
        var w1 := w.(rules := w.rules[b.sourceIp := FreshRule(b, env.now)]);
        assert Refreshed(w.bans, env.now, b.sourceIp, FreshRule(b, env.now));
        SyncMaintains(w1, env, rows[1..], synced + 1);
        MaintainsTrans(w, w1, SyncRows(w, env, rows, synced).0, env.now);
      }
    }
  }

  lemma {:induction false} StartupMaintains(w: World, env: Env)
    ensures Maintains(w, SyncOnStartup(w, env).0, env.now)
  {
    var rows := ActiveRows(w.bans);
    ActiveRowsFacts(w.bans);
    forall k | 0 <= k < |rows| ensures rows[k] < |w.bans| && w.bans[rows[k]].status == Active {
      assert rows[k] in rows;
    }
    SyncMaintains(w, env, rows, 0);
  }

  /** Reinstated rules belong to the bans they were computed from. */
  lemma {:induction false} ReinstateOrigin(ban: map<Ip, BanRecord>, env: Env, keys: seq<Ip>, rules: Rules, ip: Ip)
    ensures var rules' := Reinstate(ban, env, keys, rules).0;
      ip in rules' ==> (ip in rules && rules'[ip] == rules[ip]) ||
                       (ip in ban && rules'[ip] == FreshRule(ban[ip], env.now))
  {
    if keys != [] {
      ReinstateOrigin(ban, env, keys[..|keys| - 1], rules, ip);
    }
  }

  lemma {:induction false} ReconcileMaintains(w: World, env: Env)
    ensures Maintains(w, Reconcile(w, env).0, env.now)
  {
    if env.available {
      var cleaned := CheckExpirations(w, env.now);
      ExpireMaintains(w, env.now);
      var rules' := Reconcile(w, env).0.rules;
      forall ip | ip in rules' && !(ip in cleaned.rules && rules'[ip] == cleaned.rules[ip])
        ensures Refreshed(cleaned.bans, env.now, ip, rules'[ip])
      {
        HealOrigin(cleaned, env, ExpiredIps(w.bans, ActiveRows(w.bans), env.now), ip);
      }
      MaintainsTrans(w, cleaned, Reconcile(w, env).0, env.now);
    }
  }

  lemma {:induction false} HealOrigin(w: World, env: Env, cleanedIps: seq<Ip>, ip: Ip)
    ensures var e := ExpectedBans(w.bans, ActiveRows(w.bans), env.now);
      var rules' := Heal(e, env, EvictStale(w.rules, env.now), cleanedIps).0;
      ip in rules' ==> (ip in w.rules && rules'[ip] == w.rules[ip]) || Refreshed(w.bans, env.now, ip, rules'[ip])
  {
    var rows := ActiveRows(w.bans);
    var e := ExpectedBans(w.bans, rows, env.now);
    var rules := EvictStale(w.rules, env.now);
    ReinstateOrigin(e.ban, env, MissingKeys(e.keys, rules.Keys), rules, ip);
    if ip in e.ban {
      ActiveRowsFacts(w.bans);
      ExpectedFacts(w.bans, rows, env.now);
      var k := ExpectedStored(w.bans, rows, env.now, ip);
      assert rows[k] in rows;
      assert Live(w.bans[rows[k]], env.now);
    }
  }

  // ---------------------------------------------------------------- classification of steps

  /** The duration a creating step asks the firewall for. */
  function Wanted(cfg: Config, w: World, s: Step): Option<int> {
    match s
    case Process(e, detections, iocs) =>
      if cfg.mode.None? then None
      else Decide(cfg.policy, Assess(cfg.scoring, e, ProfileOf(w, e.sourceIp), detections, iocs),
                  cfg.mode.value).duration
    case React(p, mode) => Decide(cfg.policy, p, mode).duration
    case BanByOperator(_, duration, permanent) => if permanent then None else Some(duration)
    case _ => None
  }

  /** The only address a step can create a ban for. */
  function Target(s: Step): Option<Ip> {
    match s
    case Process(e, _, _) => Some(e.sourceIp)
    case React(p, _) => Some(p.sourceIp)
    case BanByOperator(ip, _, _) => Some(ip)
    case _ => None
  }

  lemma {:induction false} RespondCreates(cfg: PolicyConfig, w: World, env: Env, p: Profile, mode: Mode)
    ensures var w' := Respond(cfg, w, env, p, mode).0;
      w' == w || Creates(w, w', p.sourceIp, env.now, Decide(cfg, p, mode).duration)
  {
    BanForFacts(w.bans, p.sourceIp);
  }

  /** Every step either creates one ban, for its target, or maintains the stores. */
  lemma {:induction false} Classify(cfg: Config, w: World, s: Step, env: Env)
    ensures var w' := Exec(cfg, w, s, env);
      Maintains(w, w', env.now) ||
      (Target(s).Some? && Creates(w, w', Target(s).value, env.now, Wanted(cfg, w, s)))
  {
    match s
    case Process(e, detections, iocs) =>
      var saved := w.(events := w.events + [e]);
      var p := Assess(cfg.scoring, e, ProfileOf(saved, e.sourceIp), detections, iocs);
      if cfg.mode.Some? { RespondCreates(cfg.policy, saved, env, p, cfg.mode.value); }
    case React(p, mode) => RespondCreates(cfg.policy, w, env, p, mode);
    case BanByOperator(ip, duration, permanent) => BanForFacts(w.bans, ip);
    case UnbanByOperator(ip) => UnbanMaintains(w, ip, env.now);
    case Expire => ExpireMaintains(w, env.now);
    case Startup => StartupMaintains(w, env);
    case ReconcileRules => ReconcileMaintains(w, env);
    case FlushRules =>
    case ListRules =>
  }
}
