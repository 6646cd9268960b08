/** Safety of whole runs: uniqueness of ACTIVE bans, bounded drift between the two
    stores, coverage, what unbanning guarantees, and the allowlist. */
module Safety {
  import opened Domain
  import opened Risk
  import opened Policy
  import opened Enforcement
  import opened Reconciliation
  import opened Runs

  // ---------------------------------------------------------------- drift

  /** Whole seconds left, at least one, never miss the ban's own expiry by a second. */
  lemma {:induction false} FreshRuleIsNear(b: BanRecord, now: int)
    requires !Lapsed(b, now)
    ensures Near(b, FreshRule(b, now))
  {
  }

  /** A new ban and its rule agree exactly unless the duration is negative, in which
      case the record is permanent and the rule is not. */
  lemma {:induction false} CreationAgreesIff(now: int, duration: Option<int>, b: BanRecord)
    requires b.expiresAt == RecordExpiry(now, duration)
    ensures Near(b, RuleExpiry(now, duration)) <==> duration.None? || duration.value >= 0
    ensures duration.None? || duration.value >= 0 ==> b.expiresAt == RuleExpiry(now, duration)
  {
  }

  predicate SoundDuration(duration: Option<int>) {
    duration.None? || duration.value >= 0
  }

  lemma {:induction false} MaintenanceKeepsSync(w: World, w': World, now: int)
    requires UniqueActive(w.bans) && InSync(w) && Maintains(w, w', now)
    ensures UniqueActive(w'.bans) && InSync(w')
  {
  }

  lemma {:induction false} CreationKeepsUnique(w: World, w': World, ip: Ip, now: int, duration: Option<int>)
    requires UniqueActive(w.bans) && Creates(w, w', ip, now, duration)
    ensures UniqueActive(w'.bans)
  {
  }

  lemma {:induction false} CreationKeepsSync(w: World, w': World, ip: Ip, now: int, duration: Option<int>)
    requires InSync(w) && Creates(w, w', ip, now, duration) && SoundDuration(duration)
    ensures InSync(w')
  {
  }

  /** Operators may ask for any non-negative duration; the policy must be valid. */
  predicate SoundStep(cfg: Config, s: Step) {
    ValidPolicy(cfg.policy) && (s.BanByOperator? ==> s.duration >= 0)
  }

  predicate SoundRun(cfg: Config, run: seq<Timed>) {
    forall k :: 0 <= k < |run| ==> SoundStep(cfg, run[k].step)
  }

  lemma {:induction false} WantedIsSound(cfg: Config, w: World, s: Step)
    requires SoundStep(cfg, s)
    ensures SoundDuration(Wanted(cfg, w, s))
  {
  }

  /** At most one ban per address is ACTIVE after every run. */
  lemma {:induction false} ActiveBansStayUnique(cfg: Config, w: World, run: seq<Timed>)
    requires UniqueActive(w.bans)
    ensures UniqueActive(Run(cfg, w, run).bans)
    decreases |run|
  {
    if run != [] {
      var w' := Exec(cfg, w, run[0].step, run[0].env);
      UniqueStep(cfg, w, run[0].step, run[0].env);
      ActiveBansStayUnique(cfg, w', run[1..]);
    }
  }

  lemma {:induction false} UniqueStep(cfg: Config, w: World, s: Step, env: Env)
    requires UniqueActive(w.bans)
    ensures UniqueActive(Exec(cfg, w, s, env).bans)
  {
    var w' := Exec(cfg, w, s, env);
    Classify(cfg, w, s, env);
    if Maintains(w, w', env.now) {
      assert forall i :: 0 <= i < |w.bans| ==> w'.bans[i].sourceIp == w.bans[i].sourceIp;
    } else {
      CreationKeepsUnique(w, w', Target(s).value, env.now, Wanted(cfg, w, s));
    }
  }

  /** Drift stays under a second over every run, however often bans are re-synced,
      and whatever the clock and the firewall do. */
  lemma {:induction false} DriftBounded(cfg: Config, w: World, run: seq<Timed>)
    requires UniqueActive(w.bans) && InSync(w) && SoundRun(cfg, run)
    ensures UniqueActive(Run(cfg, w, run).bans) && InSync(Run(cfg, w, run))
    decreases |run|
  {
    if run != [] {
      var s, env := run[0].step, run[0].env;
      var w' := Exec(cfg, w, s, env);
      assert SoundStep(cfg, s);
      Classify(cfg, w, s, env);
      if Maintains(w, w', env.now) {
        MaintenanceKeepsSync(w, w', env.now);
      } else {
        WantedIsSound(cfg, w, s);
        CreationKeepsUnique(w, w', Target(s).value, env.now, Wanted(cfg, w, s));
        CreationKeepsSync(w, w', Target(s).value, env.now, Wanted(cfg, w, s));
      }
      assert forall k :: 0 <= k < |run[1..]| ==> run[1..][k] == run[k + 1];
      DriftBounded(cfg, w', run[1..]);
    }
  }

  // ---------------------------------------------------------------- startup recovery

  ghost predicate RowsInTable(bans: seq<BanRecord>, rows: seq<nat>) {
    forall k :: 0 <= k < |rows| ==> rows[k] < |bans|
  }

  predicate UnlapsedFor(bans: seq<BanRecord>, id: nat, now: int, ip: Ip) {
    id < |bans| && !Lapsed(bans[id], now) && bans[id].sourceIp == ip
  }

  /** Recovery completes exactly when no unexpired row's address is refused; the table
      then has the given rows checked for expiry. */
  lemma {:induction false} SyncTable(w: World, env: Env, rows: seq<nat>, synced: nat)
    requires RowsInTable(w.bans, rows)
    ensures var (w', out) := SyncRows(w, env, rows, synced);
      && (out.Some? <==> forall k, ip :: 0 <= k < |rows| && UnlapsedFor(w.bans, rows[k], env.now, ip) ==>
          ip !in env.refused)
      && |w'.bans| == |w.bans|
      && (out.Some? ==> forall i: nat :: i < |w.bans| ==>
            w'.bans[i] == if i in rows && Lapsed(w.bans[i], env.now) then w.bans[i].(status := Expired) else w.bans[i])
    decreases |rows|
  {
    if rows != [] {
      var b := w.bans[rows[0]];
      var rest := rows[1..];
      assert rows == [rows[0]] + rest;
      assert UnlapsedFor(w.bans, rows[0], env.now, b.sourceIp) <==> !Lapsed(b, env.now);
      if Lapsed(b, env.now) {
        var w1 := w.(bans := SetStatus(w.bans, rows[0], Expired));
        SyncTable(w1, env, rest, synced);
        assert forall k, ip :: 0 <= k < |rest| ==>
          (UnlapsedFor(w1.bans, rest[k], env.now, ip) <==> UnlapsedFor(w.bans, rows[k + 1], env.now, ip));
      } else if b.sourceIp !in env.refused {
        SyncTable(w.(rules := w.rules[b.sourceIp := FreshRule(b, env.now)]), env, rest, synced + 1);
        assert forall k, ip :: 0 <= k < |rest| ==>
          (UnlapsedFor(w.bans, rest[k], env.now, ip) <==> UnlapsedFor(w.bans, rows[k + 1], env.now, ip));
      }
    }
  }

  /** A completed recovery leaves an address with the rule all its unexpired rows agree
      on, or, without such a row, with the rule it had. */
  lemma {:induction false} SyncRule(w: World, env: Env, rows: seq<nat>, synced: nat, ip: Ip, rule: Option<int>)
    requires RowsInTable(w.bans, rows)
    requires forall k :: 0 <= k < |rows| && UnlapsedFor(w.bans, rows[k], env.now, ip) ==>
               FreshRule(w.bans[rows[k]], env.now) == rule
    ensures var (w', out) := SyncRows(w, env, rows, synced);
      out.Some? ==>
        if exists k :: 0 <= k < |rows| && UnlapsedFor(w.bans, rows[k], env.now, ip) then
          ip in w'.rules && w'.rules[ip] == rule
        else (ip in w'.rules <==> ip in w.rules) && (ip in w.rules ==> w'.rules[ip] == w.rules[ip])
    decreases |rows|
  {
    if rows != [] {
      var b := w.bans[rows[0]];
      var rest := rows[1..];
      if Lapsed(b, env.now) {
        var w1 := w.(bans := SetStatus(w.bans, rows[0], Expired));
        assert forall k :: 0 <= k < |rest| ==>
          (UnlapsedFor(w1.bans, rest[k], env.now, ip) <==> UnlapsedFor(w.bans, rows[k + 1], env.now, ip));
        SyncRule(w1, env, rest, synced, ip, rule);
      } else if b.sourceIp !in env.refused {
        var w1 := w.(rules := w.rules[b.sourceIp := FreshRule(b, env.now)]);
        assert forall k :: 0 <= k < |rest| ==>
          (UnlapsedFor(w1.bans, rest[k], env.now, ip) <==> UnlapsedFor(w.bans, rows[k + 1], env.now, ip));
        SyncRule(w1, env, rest, synced + 1, ip, rule);
      }
    }
  }

  /** Startup recovery in a reachable state: lapsed bans are retired and every live ban's
      address gets a rule for the time that remains. It completes exactly when the
      firewall takes them all. Rules of retired bans are left in place. */
  lemma {:induction false} StartupRestores(w: World, env: Env)
    requires UniqueActive(w.bans)
    ensures var (w', out) := SyncOnStartup(w, env);
      && (out.Some? <==> LiveIps(w.bans, env.now) !! env.refused)
      && (out.Some? ==>
            && w'.bans == ExpireRecords(w.bans, env.now)
            && (forall i :: 0 <= i < |w.bans| && Live(w.bans[i], env.now) ==>
                  w.bans[i].sourceIp in w'.rules && w'.rules[w.bans[i].sourceIp] == FreshRule(w.bans[i], env.now))
            && (forall ip :: ip !in LiveIps(w.bans, env.now) ==>
                  (ip in w'.rules <==> ip in w.rules) && (ip in w.rules ==> w'.rules[ip] == w.rules[ip])))
  {
    var rows := ActiveRows(w.bans);
    ActiveRowsFacts(w.bans);
    forall k | 0 <= k < |rows| ensures rows[k] < |w.bans| && w.bans[rows[k]].status == Active {
      assert rows[k] in rows;
    }
    SyncTable(w, env, rows, 0);
    forall i: nat | i < |w.bans| && Live(w.bans[i], env.now)
      ensures exists k :: 0 <= k < |rows| && rows[k] == i && UnlapsedFor(w.bans, rows[k], env.now, w.bans[i].sourceIp)
    {
      assert i in rows;
    }
    var (w', out) := SyncOnStartup(w, env);
    forall i: nat | out.Some? && i < |w.bans| && Live(w.bans[i], env.now)
      ensures w.bans[i].sourceIp in w'.rules && w'.rules[w.bans[i].sourceIp] == FreshRule(w.bans[i], env.now)
    {
      SyncRule(w, env, rows, 0, w.bans[i].sourceIp, FreshRule(w.bans[i], env.now));
    }
    forall ip | out.Some? && ip !in LiveIps(w.bans, env.now)
      ensures (ip in w'.rules <==> ip in w.rules) && (ip in w.rules ==> w'.rules[ip] == w.rules[ip])
    {
      assert forall k :: 0 <= k < |rows| ==> !UnlapsedFor(w.bans, rows[k], env.now, ip) by {
        assert forall k :: 0 <= k < |rows| && UnlapsedFor(w.bans, rows[k], env.now, ip) ==>
          Live(w.bans[rows[k]], env.now);
      }
      SyncRule(w, env, rows, 0, ip, None);
    }
    if out.Some? { assert w'.bans == ExpireRecords(w.bans, env.now); }
  }

  // ---------------------------------------------------------------- coverage

  /** Clock readings never go back and nobody flushes the firewall. */
  predicate Undisturbed(run: seq<Timed>, clock: int)
    decreases |run|
  {
    run != [] ==> run[0].env.now >= clock && !run[0].step.FlushRules? && Undisturbed(run[1..], run[0].env.now)
  }

  function ClockAfter(run: seq<Timed>, clock: int): int {
    if run == [] then clock else run[|run| - 1].env.now
  }

  lemma {:induction false} SyncKeepsRules(w: World, env: Env, rows: seq<nat>, synced: nat)
    ensures w.rules.Keys <= SyncRows(w, env, rows, synced).0.rules.Keys
    decreases |rows|
  {
    if rows != [] && rows[0] < |w.bans| {
      var b := w.bans[rows[0]];
      if Lapsed(b, env.now) {
        SyncKeepsRules(w.(bans := SetStatus(w.bans, rows[0], Expired)), env, rows[1..], synced);
      } else if b.sourceIp !in env.refused {
        SyncKeepsRules(w.(rules := w.rules[b.sourceIp := FreshRule(b, env.now)]), env, rows[1..], synced + 1);
      }
    } else if rows != [] {
      SyncKeepsRules(w, env, rows[1..], synced);
    }
  }

  /** Expiring one ban never removes the rule of an address another live ban covers. */
  lemma {:induction false} ExpiryKeepsLiveRules(w: World, now: int)
    requires UniqueActive(w.bans)
    ensures KeepsRules(w, CheckExpirations(w, now), now)
  {
  }

  /** In any table, expiry spares the rules of all live bans exactly when no address
      has both a lapsed and a live ACTIVE ban. */
  lemma {:induction false} ExpirySparesLiveIff(w: World, now: int)
    requires LiveIps(w.bans, now) <= w.rules.Keys
    ensures LiveIps(w.bans, now) <= CheckExpirations(w, now).rules.Keys
       <==> LiveIps(w.bans, now) !! DoomedIps(w.bans, now)
  {
  }

  lemma {:induction false} ReconcileKeepsRules(w: World, env: Env)
    requires UniqueActive(w.bans)
    ensures KeepsRules(w, Reconcile(w, env).0, env.now)
  {
    if env.available {
      var w' := Reconcile(w, env).0;
      ReconcileStores(w, env);
      ExpiryFacts(w.bans, env.now);
      forall i | 0 <= i < |w.bans| && w'.bans[i].status == Active && w'.bans[i].sourceIp in w.rules &&
                 !RuleStale(w.rules[w'.bans[i].sourceIp], env.now)
        ensures w'.bans[i].sourceIp in w'.rules
      {
        assert Live(w.bans[i], env.now);
        assert w.bans[i].sourceIp in ListedIps(w, env.now);
      }
    }
  }

  lemma {:induction false} UnbanKeepsRules(w: World, ip: Ip, now: int)
    requires UniqueActive(w.bans)
    ensures KeepsRules(w, Unban(w, ip), now)
  {
    BanForFacts(w.bans, ip);
  }

  lemma {:induction false} StepKeepsRules(cfg: Config, w: World, s: Step, env: Env)
    requires UniqueActive(w.bans) && !s.FlushRules?
    ensures KeepsRules(w, Exec(cfg, w, s, env), env.now)
  {
    match s
    case Process(e, detections, iocs) =>
      var saved := w.(events := w.events + [e]);
      var p := Assess(cfg.scoring, e, ProfileOf(saved, e.sourceIp), detections, iocs);
      if cfg.mode.Some? { RespondCreates(cfg.policy, saved, env, p, cfg.mode.value); }
    case React(p, mode) => RespondCreates(cfg.policy, w, env, p, mode);
    case BanByOperator(ip, duration, permanent) =>
    case UnbanByOperator(ip) => UnbanKeepsRules(w, ip, env.now);
    case Expire => ExpiryKeepsLiveRules(w, env.now);
    case Startup => SyncKeepsRules(w, env, ActiveRows(w.bans), 0);
    case ReconcileRules => ReconcileKeepsRules(w, env);
    case ListRules =>
  }

  lemma {:induction false} MaintenanceKeepsCover(w: World, w': World, clock: int, now: int)
    requires InSync(w) && Covered(w, clock) && clock <= now && KeepsRules(w, w', now) && Maintains(w, w', now)
    ensures Covered(w', now)
  {
  }

  lemma {:induction false} CreationKeepsCover(w: World, w': World, ip: Ip, clock: int, now: int, duration: Option<int>)
    requires Covered(w, clock) && clock <= now && Creates(w, w', ip, now, duration)
    ensures Covered(w', now)
  {
  }

  lemma {:induction false} CoverageHolds(cfg: Config, w: World, clock: int, run: seq<Timed>)
    requires UniqueActive(w.bans) && InSync(w) && Covered(w, clock)
    requires SoundRun(cfg, run) && Undisturbed(run, clock)
    ensures Covered(Run(cfg, w, run), ClockAfter(run, clock))
    decreases |run|
  {
    if run != [] {
      var s, env := run[0].step, run[0].env;
      var w' := Exec(cfg, w, s, env);
      Classify(cfg, w, s, env);
      if Maintains(w, w', env.now) {
        StepKeepsRules(cfg, w, s, env);
        MaintenanceKeepsCover(w, w', clock, env.now);
      } else {
        CreationKeepsCover(w, w', Target(s).value, clock, env.now, Wanted(cfg, w, s));
      }
      assert run[..1] == [run[0]];
      DriftBounded(cfg, w, run[..1]);
      assert Run(cfg, w, run[..1]) == w' by { assert run[..1][1..] == []; }
      assert forall k :: 0 <= k < |run[1..]| ==> run[1..][k] == run[k + 1];
      CoverageHolds(cfg, w', env.now, run[1..]);
    }
  }

  /** From an empty system, without flushes: at every instant from the last step up
      to one second before it expires, an ACTIVE ban's address is blocked; a permanent
      one for ever. The firewall may be unavailable, or refuse, at any step. */
  lemma {:induction false} ActiveBansAreBlocked(cfg: Config, run: seq<Timed>, clock: int, i: nat, t: int)
    requires SoundRun(cfg, run) && Undisturbed(run, clock)
    requires var w := Run(cfg, EMPTY_WORLD, run);
      i < |w.bans| && w.bans[i].status == Active && ClockAfter(run, clock) <= t &&
      (w.bans[i].expiresAt.Some? ==> t <= w.bans[i].expiresAt.value - SECOND)
    ensures var w := Run(cfg, EMPTY_WORLD, run);
      Blocked(w.rules, w.bans[i].sourceIp, t)
  {
    CoverageHolds(cfg, EMPTY_WORLD, clock, run);
    DriftBounded(cfg, EMPTY_WORLD, run);
  }

  // ---------------------------------------------------------------- every rule has a cause

  /** The rule ends less than a second after a ban of the address that has EXPIRED. */
  ghost predicate LeftByExpired(bans: seq<BanRecord>, ip: Ip, rule: Option<int>) {
    rule.Some? && exists i :: 0 <= i < |bans| && ExpiredSoon(bans[i], ip, rule.value)
  }

  predicate ExpiredSoon(b: BanRecord, ip: Ip, expiry: int) {
    b.status == Expired && b.sourceIp == ip && b.expiresAt.Some? && expiry < b.expiresAt.value + SECOND
  }

  ghost predicate Caused(w: World, ip: Ip) {
    ip in w.rules ==> HasActive(w.bans, ip) || LeftByExpired(w.bans, ip, w.rules[ip])
  }

  /** Only ACTIVE rows change, and an EXPIRED row stays. */
  ghost predicate KeepsExpired(bans: seq<BanRecord>, bans': seq<BanRecord>) {
    |bans| <= |bans'| && forall i :: 0 <= i < |bans| && bans[i].status == Expired ==> bans'[i] == bans[i]
  }

  lemma {:induction false} StillLeft(bans: seq<BanRecord>, bans': seq<BanRecord>, ip: Ip, rule: Option<int>)
    requires KeepsExpired(bans, bans') && LeftByExpired(bans, ip, rule)
    ensures LeftByExpired(bans', ip, rule)
  {
    var i :| 0 <= i < |bans| && ExpiredSoon(bans[i], ip, rule.value);
    assert ExpiredSoon(bans'[i], ip, rule.value);
  }

  lemma {:induction false} CreationKeepsCause(w: World, w': World, target: Ip, now: int, duration: Option<int>, ip: Ip)
    requires Caused(w, ip) && Creates(w, w', target, now, duration)
    ensures Caused(w', ip)
  {
    assert forall i :: 0 <= i < |w.bans| ==> w'.bans[i] == w'.bans[..|w.bans|][i];
    if ip in w.rules && LeftByExpired(w.bans, ip, w.rules[ip]) { StillLeft(w.bans, w'.bans, ip, w.rules[ip]); }
    if HasActive(w.bans, ip) {
      var i :| 0 <= i < |w.bans| && w.bans[i].status == Active && w.bans[i].sourceIp == ip;
      assert w'.bans[i].status == Active;
    }
    if ip in w'.rules && (ip !in w.rules || w'.rules[ip] != w.rules[ip]) {
      assert w'.bans[|w.bans|].status == Active && w'.bans[|w.bans|].sourceIp == ip;
    }
  }

  lemma {:induction false} UnbanKeepsCause(w: World, target: Ip, ip: Ip)
    requires Caused(w, ip)
    ensures Caused(Unban(w, target), ip)
  {
    var w' := Unban(w, target);
    BanForFacts(w.bans, target);
    if ip != target {
      if ip in w.rules && LeftByExpired(w.bans, ip, w.rules[ip]) { StillLeft(w.bans, w'.bans, ip, w.rules[ip]); }
      if HasActive(w.bans, ip) {
        var i :| 0 <= i < |w.bans| && w.bans[i].status == Active && w.bans[i].sourceIp == ip;
        assert w'.bans[i] == w.bans[i];
      }
    }
  }

  lemma {:induction false} ExpiryKeepsCause(w: World, now: int, ip: Ip)
    requires Caused(w, ip)
    ensures Caused(CheckExpirations(w, now), ip)
    ensures ip in CheckExpirations(w, now).rules ==> ip !in DoomedIps(w.bans, now)
  {
    var w' := CheckExpirations(w, now);
    ExpiryFacts(w.bans, now);
    if ip in w'.rules {
      if LeftByExpired(w.bans, ip, w.rules[ip]) { StillLeft(w.bans, w'.bans, ip, w.rules[ip]); }
      if HasActive(w.bans, ip) {
        var i :| 0 <= i < |w.bans| && w.bans[i].status == Active && w.bans[i].sourceIp == ip;
        assert Doomed(w.bans[i], now) ==> ip in DoomedIps(w.bans, now);
        assert w'.bans[i] == w.bans[i];
      }
    }
  }

  lemma {:induction false} ReconcileKeepsCause(w: World, env: Env, ip: Ip)
    requires Caused(w, ip)
    ensures Caused(Reconcile(w, env).0, ip)
  {
    if env.available {
      var w' := Reconcile(w, env).0;
      ReconcileStores(w, env);
      ExpiryFacts(w.bans, env.now);
      ExpiryKeepsCause(w, env.now, ip);
      if ip in LiveIps(w.bans, env.now) {
        var i :| 0 <= i < |w.bans| && Live(w.bans[i], env.now) && w.bans[i].sourceIp == ip;
        assert w'.bans[i].status == Active && w'.bans[i].sourceIp == ip;
      } else if ip in w'.rules {
        assert ip in ListedIps(w, env.now);
        assert w'.rules[ip] == w.rules[ip] == CheckExpirations(w, env.now).rules[ip];
      }
    }
  }

  /** Recovery may leave the rule of a ban that lapsed, but that rule is about to end. */
  lemma {:induction false} SyncKeepsCause(w: World, env: Env, rows: seq<nat>, synced: nat, ip: Ip)
    requires InSync(w) && UniqueActive(w.bans) && Caused(w, ip)
    requires forall k :: 0 <= k < |rows| ==>
      rows[k] < |w.bans| &&
      (w.bans[rows[k]].status == Active || (w.bans[rows[k]].status == Expired && Lapsed(w.bans[rows[k]], env.now)))
    ensures Caused(SyncRows(w, env, rows, synced).0, ip)
    decreases |rows|
  {
    if rows != [] {
      var b := w.bans[rows[0]];
      if Lapsed(b, env.now) {
        var w1 := w.(bans := SetStatus(w.bans, rows[0], Expired));
        LapsedLeaves(w, rows[0], ip);
        SyncKeepsCause(w1, env, rows[1..], synced, ip);
      } else if b.sourceIp !in env.refused {
        var w1 := w.(rules := w.rules[b.sourceIp := FreshRule(b, env.now)]);
        FreshRuleIsNear(b, env.now);
        assert w1.bans[rows[0]].status == Active;
        SyncKeepsCause(w1, env, rows[1..], synced + 1, ip);
      }
    }
  }

  lemma {:induction false} LapsedLeaves(w: World, id: nat, ip: Ip)
    requires id < |w.bans| && w.bans[id].expiresAt.Some?
    requires w.bans[id].status == Active || w.bans[id].status == Expired
    requires InSync(w) && UniqueActive(w.bans) && Caused(w, ip)
    ensures var w' := w.(bans := SetStatus(w.bans, id, Expired));
      InSync(w') && UniqueActive(w'.bans) && Caused(w', ip)
  {
    var w' := w.(bans := SetStatus(w.bans, id, Expired));
    if ip in w.rules {
      if LeftByExpired(w.bans, ip, w.rules[ip]) {
        StillLeft(w.bans, w'.bans, ip, w.rules[ip]);
      } else {
        var i :| 0 <= i < |w.bans| && w.bans[i].status == Active && w.bans[i].sourceIp == ip;
        if i == id {
          assert ExpiredSoon(w'.bans[id], ip, w.rules[ip].value);
        } else {
          assert w'.bans[i] == w.bans[i];
        }
      }
    }
  }

  lemma {:induction false} StepKeepsCause(cfg: Config, w: World, s: Step, env: Env, ip: Ip)
    requires InSync(w) && UniqueActive(w.bans) && Caused(w, ip)
    ensures Caused(Exec(cfg, w, s, env), ip)
  {
    match s
    case Process(e, detections, iocs) =>
      var saved := w.(events := w.events + [e]);
      var p := Assess(cfg.scoring, e, ProfileOf(saved, e.sourceIp), detections, iocs);
      if cfg.mode.Some? { ResponseKeepsCause(cfg.policy, saved, env, p, cfg.mode.value, ip); }
    case React(p, mode) => ResponseKeepsCause(cfg.policy, w, env, p, mode, ip);
    case BanByOperator(target, duration, permanent) =>
      BanForFacts(w.bans, target);
      var w' := Exec(cfg, w, s, env);
      if Creates(w, w', target, env.now, Wanted(cfg, w, s)) {
        CreationKeepsCause(w, w', target, env.now, Wanted(cfg, w, s), ip);
      }
    case UnbanByOperator(target) => UnbanKeepsCause(w, target, ip);
    case Expire => ExpiryKeepsCause(w, env.now, ip);
    case Startup =>
      ActiveRowsFacts(w.bans);
      var rows := ActiveRows(w.bans);
      forall k | 0 <= k < |rows| ensures rows[k] < |w.bans| && w.bans[rows[k]].status == Active {
        assert rows[k] in rows;
      }
      SyncKeepsCause(w, env, rows, 0, ip);
    case ReconcileRules => ReconcileKeepsCause(w, env, ip);
    case FlushRules =>
    case ListRules =>
  }

  lemma {:induction false} ResponseKeepsCause(cfg: PolicyConfig, w: World, env: Env, p: Profile, mode: Mode, ip: Ip)
    requires Caused(w, ip)
    ensures Caused(Respond(cfg, w, env, p, mode).0, ip)
  {
    RespondCreates(cfg, w, env, p, mode);
    var w' := Respond(cfg, w, env, p, mode).0;
    if w' != w { CreationKeepsCause(w, w', p.sourceIp, env.now, Decide(cfg, p, mode).duration, ip); }
  }

  lemma {:induction false} CauseHolds(cfg: Config, w: World, run: seq<Timed>, ip: Ip)
    requires UniqueActive(w.bans) && InSync(w) && SoundRun(cfg, run) && Caused(w, ip)
    ensures Caused(Run(cfg, w, run), ip)
    decreases |run|
  {
    if run != [] {
      var s, env := run[0].step, run[0].env;
      StepKeepsCause(cfg, w, s, env, ip);
      assert run[..1] == [run[0]];
      DriftBounded(cfg, w, run[..1]);
      assert Run(cfg, w, run[..1]) == Exec(cfg, w, s, env) by { assert run[..1][1..] == []; }
      assert forall k :: 0 <= k < |run[1..]| ==> run[1..][k] == run[k + 1];
      CauseHolds(cfg, Exec(cfg, w, s, env), run[1..], ip);
    }
  }

  /** From an empty system, restarts and flushes included: what is blocked at any instant
      has an ACTIVE ban, or an EXPIRED one that ended less than a second before. */
  lemma {:induction false} BlockedHasCause(cfg: Config, run: seq<Timed>, ip: Ip, t: int)
    requires SoundRun(cfg, run) && Blocked(Run(cfg, EMPTY_WORLD, run).rules, ip, t)
    ensures var bans := Run(cfg, EMPTY_WORLD, run).bans;
      HasActive(bans, ip) ||
      exists i :: 0 <= i < |bans| && bans[i].status == Expired && bans[i].sourceIp == ip &&
                  bans[i].expiresAt.Some? && t < bans[i].expiresAt.value + SECOND
  {
    CauseHolds(cfg, EMPTY_WORLD, run, ip);
    var w := Run(cfg, EMPTY_WORLD, run);
    if !HasActive(w.bans, ip) {
      var i :| 0 <= i < |w.bans| && ExpiredSoon(w.bans[i], ip, w.rules[ip].value);
      assert w.bans[i].status == Expired;
    }
  }

  // ---------------------------------------------------------------- unbanning

  ghost predicate Free(w: World, ip: Ip) {
    ip !in w.rules && !HasActive(w.bans, ip)
  }

  /** Unbanning leaves the address without an ACTIVE ban exactly when it had at most one. */
  lemma {:induction false} UnbanFreesIff(w: World, ip: Ip)
    ensures ip !in Unban(w, ip).rules
    ensures HasActive(Unban(w, ip).bans, ip) <==>
            exists i, j :: 0 <= i < j < |w.bans| && ActiveFor(w.bans[i], ip) && ActiveFor(w.bans[j], ip)
  {
    BanForFacts(w.bans, ip);
    var bans' := Unban(w, ip).bans;
    if HasActive(bans', ip) {
      var i :| 0 <= i < |bans'| && bans'[i].status == Active && bans'[i].sourceIp == ip;
      assert ActiveFor(w.bans[i], ip);
      var k := BanFor(w.bans, ip).value;
      assert ActiveFor(w.bans[k], ip) && k != i;
    }
    if i, j :| 0 <= i < j < |w.bans| && ActiveFor(w.bans[i], ip) && ActiveFor(w.bans[j], ip) {
      var k := BanFor(w.bans, ip).value;
      assert bans'[if k == i then j else i].status == Active;
    }
  }

  predicate ActiveFor(b: BanRecord, ip: Ip) {
    b.status == Active && b.sourceIp == ip
  }

  /** The step gives the address no ACTIVE ban: it is for another address, or what it
      stored for this one is only simulated, failed or awaiting approval. */
  ghost predicate StepSpares(cfg: Config, w: World, s: Step, env: Env, ip: Ip) {
    Target(s) != Some(ip) || !HasActive(Exec(cfg, w, s, env).bans, ip)
  }

  ghost predicate Spares(cfg: Config, w: World, run: seq<Timed>, ip: Ip)
    decreases |run|
  {
    run == [] ||
    (StepSpares(cfg, w, run[0].step, run[0].env, ip) &&
     Spares(cfg, Exec(cfg, w, run[0].step, run[0].env), run[1..], ip))
  }

  lemma {:induction false} FreeStep(cfg: Config, w: World, s: Step, env: Env, ip: Ip)
    requires Free(w, ip) && StepSpares(cfg, w, s, env, ip)
    ensures Free(Exec(cfg, w, s, env), ip)
  {
    var w' := Exec(cfg, w, s, env);
    Classify(cfg, w, s, env);
    if Maintains(w, w', env.now) {
      MaintenanceKeepsFree(w, w', env.now, ip);
    } else {
      CreationKeepsFree(w, w', Target(s).value, env.now, Wanted(cfg, w, s), ip);
    }
  }

  lemma {:induction false} MaintenanceKeepsFree(w: World, w': World, now: int, ip: Ip)
    requires Free(w, ip) && Maintains(w, w', now)
    ensures Free(w', ip)
  {
  }

  lemma {:induction false} CreationKeepsFree(w: World, w': World, target: Ip, now: int, duration: Option<int>, ip: Ip)
    requires Free(w, ip) && Creates(w, w', target, now, duration)
    requires target != ip || !HasActive(w'.bans, ip)
    ensures Free(w', ip)
  {
    if target == ip { assert w'.bans[|w.bans|].status != Active; }
  }

  lemma {:induction false} FreeRun(cfg: Config, w: World, run: seq<Timed>, ip: Ip)
    requires Free(w, ip) && Spares(cfg, w, run, ip)
    ensures Free(Run(cfg, w, run), ip)
    decreases |run|
  {
    if run != [] {
      FreeStep(cfg, w, run[0].step, run[0].env, ip);
      FreeRun(cfg, Exec(cfg, w, run[0].step, run[0].env), run[1..], ip);
    }
  }

  /** After an unban in any reachable state the address is neither blocked nor banned
      until a step for it stores an ACTIVE ban: no expiry, startup recovery,
      reconciliation, step for another address or event that leads to no ban does it. */
  lemma {:induction false} UnbanSticks(cfg: Config, before: seq<Timed>, ip: Ip, after: seq<Timed>)
    requires Spares(cfg, Unban(Run(cfg, EMPTY_WORLD, before), ip), after, ip)
    ensures Free(Run(cfg, Unban(Run(cfg, EMPTY_WORLD, before), ip), after), ip)
  {
    var w := Run(cfg, EMPTY_WORLD, before);
    ActiveBansStayUnique(cfg, EMPTY_WORLD, before);
    UnbanFreesIff(w, ip);
    FreeRun(cfg, Unban(w, ip), after, ip);
  }

  /** Runs with nothing aimed at an address spare it. */
  lemma {:induction false} RunsElsewhereSpare(cfg: Config, w: World, run: seq<Timed>, ip: Ip)
    requires forall k :: 0 <= k < |run| ==> Target(run[k].step) != Some(ip)
    ensures Spares(cfg, w, run, ip)
    decreases |run|
  {
    if run != [] {
      assert forall k :: 0 <= k < |run[1..]| ==> run[1..][k] == run[k + 1];
      RunsElsewhereSpare(cfg, Exec(cfg, w, run[0].step, run[0].env), run[1..], ip);
    }
  }

  // ---------------------------------------------------------------- allowlist

  ghost predicate AllowlistSpared(cfg: PolicyConfig, w: World) {
    forall ip :: Allowlisted(cfg, ip) ==> Free(w, ip)
  }

  lemma {:induction false} AllowlistStep(cfg: Config, w: World, s: Step, env: Env)
    requires AllowlistSpared(cfg.policy, w) && !s.BanByOperator?
    ensures AllowlistSpared(cfg.policy, Exec(cfg, w, s, env))
  {
    forall ip | Allowlisted(cfg.policy, ip) ensures Free(Exec(cfg, w, s, env), ip) {
      if Target(s) != Some(ip) { FreeStep(cfg, w, s, env, ip); }
    }
  }

  /** No run of policy-driven steps ever blocks an allowlisted address or stores an
      ACTIVE ban for one. */
  lemma {:induction false} AllowlistSafe(cfg: Config, w: World, run: seq<Timed>)
    requires AllowlistSpared(cfg.policy, w)
    requires forall k :: 0 <= k < |run| ==> !run[k].step.BanByOperator?
    ensures AllowlistSpared(cfg.policy, Run(cfg, w, run))
    decreases |run|
  {
    if run != [] {
      AllowlistStep(cfg, w, run[0].step, run[0].env);
      assert forall k :: 0 <= k < |run[1..]| ==> run[1..][k] == run[k + 1];
      AllowlistSafe(cfg, Exec(cfg, w, run[0].step, run[0].env), run[1..]);
    }
  }

  // ---------------------------------------------------------------- honest enforcement

  /** `executed` is reported exactly when this call created an ACTIVE ban, and then
      the ban is stored and blocked. A refusing or unavailable firewall leaves the
      rules and the ACTIVE bans alone and is owned up to. */
  lemma {:induction false} HonestResponse(cfg: PolicyConfig, w: World, env: Env, p: Profile, mode: Mode)
    requires ValidPolicy(cfg)
    ensures var (w', d, id) := Respond(cfg, w, env, p, mode);
      && w'.events == w.events
      && (d.executed <==>
            Isolating(d.action) && mode == Automatic && !HasActive(w.bans, p.sourceIp) &&
            env.available && p.sourceIp !in env.refused)
      && (d.executed ==>
            id == Some(|w.bans|) && |w'.bans| == |w.bans| + 1 &&
            ActiveFor(w'.bans[|w.bans|], p.sourceIp) && Blocked(w'.rules, p.sourceIp, env.now))
      && (!d.executed ==>
            w'.rules == w.rules && forall ip :: HasActive(w'.bans, ip) <==> HasActive(w.bans, ip))
      && (Isolating(d.action) && mode == Automatic && !d.executed && !HasActive(w.bans, p.sourceIp) ==>
            d.mode == Disabled && id == Some(|w.bans|) && |w'.bans| == |w.bans| + 1 &&
            w'.bans[|w.bans|].status == Failed)
  {
    BanForFacts(w.bans, p.sourceIp);
    IsolationCriterion(cfg, p, mode);
    var w' := Respond(cfg, w, env, p, mode).0;
    if |w'.bans| == |w.bans| + 1 {
      assert forall i :: 0 <= i < |w.bans| ==> w'.bans[i] == w.bans[i];
    }
  }

  /** An event without detections and indicators changes no ban and no rule under
      the default weights, thresholds and any mode. */
  lemma {:induction false} NoEvidenceNoBan(cfg: Config, w: World, env: Env, e: SecurityEvent,
                                           detections: seq<DetectionResult>)
    requires cfg.scoring == DEFAULT_SCORING && cfg.policy == DEFAULT_POLICY && NoneDetected(detections)
    ensures var w' := ProcessEvent(cfg, w, env, e, detections, []);
      w'.bans == w.bans && w'.rules == w.rules
  {
    if cfg.mode.Some? {
      DefaultsNeedEvidence(e, ProfileOf(w, e.sourceIp), detections, cfg.mode.value);
    }
  }

  /** The step may only simulate, ask for approval or do nothing. */
  predicate Passive(cfg: Config, s: Step) {
    match s
    case Process(_, _, _) => cfg.mode != Some(Automatic)
    case React(_, mode) => mode != Automatic
    case BanByOperator(_, _, _) => false
    case _ => true
  }

  /** Nothing beyond what `w` already bans or blocks. */
  ghost predicate Within(w: World, w': World) {
    (forall ip :: HasActive(w'.bans, ip) ==> HasActive(w.bans, ip)) &&
    (forall ip :: ip in w'.rules ==> ip in w.rules || HasActive(w.bans, ip))
  }

  lemma {:induction false} PassiveRespond(cfg: PolicyConfig, w: World, env: Env, p: Profile, mode: Mode)
    requires mode != Automatic
    ensures Within(w, Respond(cfg, w, env, p, mode).0)
  {
  }

  lemma {:induction false} PassiveStep(cfg: Config, w: World, s: Step, env: Env)
    requires Passive(cfg, s)
    ensures Within(w, Exec(cfg, w, s, env))
  {
    var w' := Exec(cfg, w, s, env);
    if s.Process? {
      var e := s.event;
      var saved := w.(events := w.events + [e]);
      var p := Assess(cfg.scoring, e, ProfileOf(saved, e.sourceIp), s.detections, s.iocs);
      if cfg.mode.Some? { PassiveRespond(cfg.policy, saved, env, p, cfg.mode.value); }
    } else if s.React? {
      PassiveRespond(cfg.policy, w, env, s.profile, s.mode);
    } else {
      Classify(cfg, w, s, env);
      forall ip | HasActive(w'.bans, ip) ensures HasActive(w.bans, ip) {
        var i :| 0 <= i < |w'.bans| && w'.bans[i].status == Active && w'.bans[i].sourceIp == ip;
        assert ActiveFor(w.bans[i], ip);
      }
    }
  }

  /** Runs in the dry-run, manual and disabled modes, without operator bans, never
      create an ACTIVE ban and never block an address that had none. */
  lemma {:induction false} PassiveRunsOnlyObserve(cfg: Config, w: World, run: seq<Timed>)
    requires forall k :: 0 <= k < |run| ==> Passive(cfg, run[k].step)
    ensures Within(w, Run(cfg, w, run))
    decreases |run|
  {
    if run != [] {
      var w' := Exec(cfg, w, run[0].step, run[0].env);
      PassiveStep(cfg, w, run[0].step, run[0].env);
      assert forall k :: 0 <= k < |run[1..]| ==> run[1..][k] == run[k + 1];
      PassiveRunsOnlyObserve(cfg, w', run[1..]);
    }
  }
}
