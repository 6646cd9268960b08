/** The stored profile is a fold of the event log, although ban operations write the
    same rows in between. */
module ProfileLog {
  import opened Domain
  import opened Risk
  import opened Policy
  import opened Enforcement
  import opened Reconciliation
  import opened Runs

  // ---------------------------------------------------------------- recomputing from the log

  datatype Tally = Tally(events: nat, failures: nat, successes: nat, users: set<string>)

  const NO_TALLY := Tally(0, 0, 0, {})

  function Count(t: Tally, e: SecurityEvent): Tally {
    Tally(t.events + 1,
          t.failures + if IsFailure(e) then 1 else 0,
          t.successes + if e.eventType == AuthSuccess then 1 else 0,
          if e.username != "" then t.users + {e.username} else t.users)
  }

  /** Trusted hosts are tallied otherwise: no failures, no usernames, and every event
      that is not a further success restarts the success count at one. */
  function CountTrusted(t: Tally, e: SecurityEvent): Tally {
    Tally(t.events + 1, 0, if t.events > 0 && e.eventType == AuthSuccess then t.successes + 1 else 1, {})
  }

  function Recompute(log: seq<SecurityEvent>, ip: Ip, trusted: bool): Tally {
    if log == [] then NO_TALLY
    else
      var t := Recompute(log[..|log| - 1], ip, trusted);
      var e := log[|log| - 1];
      if e.sourceIp != ip then t else if trusted then CountTrusted(t, e) else Count(t, e)
  }

  function TallyOf(p: Profile): Tally {
    Tally(p.totalEvents, p.authFailures, p.authSuccesses, p.usernames)
  }

  function StoredTally(actors: map<Ip, Profile>, ip: Ip): Tally {
    if ip in actors then TallyOf(actors[ip]) else NO_TALLY
  }

  /** What is stored for every address is what its events add up to; an address with
      events has a row. */
  ghost predicate MatchesLog(cfg: Config, w: World) {
    forall ip ::
      StoredTally(w.actors, ip) == Recompute(w.events, ip, ip in cfg.scoring.trustedIps)
  }

  // ---------------------------------------------------------------- steps

  /** Ban operations may mark rows and add empty ones, but no count changes. */
  ghost predicate SameTallies(actors: map<Ip, Profile>, actors': map<Ip, Profile>) {
    forall ip :: StoredTally(actors', ip) == StoredTally(actors, ip)
  }

  lemma {:induction false} RespondSameTallies(cfg: PolicyConfig, w: World, env: Env, p: Profile, mode: Mode)
    ensures var w' := Respond(cfg, w, env, p, mode).0;
      SameTallies(w.actors, w'.actors) && w'.events == w.events
  {
  }

  lemma {:induction false} SyncKeepsActors(w: World, env: Env, rows: seq<nat>, synced: nat)
    ensures var w' := SyncRows(w, env, rows, synced).0;
      w'.actors == w.actors && w'.events == w.events
    decreases |rows|
  {
    if rows != [] && rows[0] < |w.bans| {
      var b := w.bans[rows[0]];
      if Lapsed(b, env.now) {
        SyncKeepsActors(w.(bans := SetStatus(w.bans, rows[0], Expired)), env, rows[1..], synced);
      } else if b.sourceIp !in env.refused {
        SyncKeepsActors(w.(rules := w.rules[b.sourceIp := FreshRule(b, env.now)]), env, rows[1..], synced + 1);
      }
    } else if rows != [] {
      SyncKeepsActors(w, env, rows[1..], synced);
    }
  }

  lemma {:induction false} StepSameTallies(cfg: Config, w: World, s: Step, env: Env)
    requires !s.Process?
    ensures var w' := Exec(cfg, w, s, env);
      SameTallies(w.actors, w'.actors) && w'.events == w.events
  {
    if s.React? {
      RespondSameTallies(cfg.policy, w, env, s.profile, s.mode);
    } else if s.Startup? {
      SyncKeepsActors(w, env, ActiveRows(w.bans), 0);
    }
  }

  lemma {:induction false} AssessCounts(cfg: ScoringConfig, actors: map<Ip, Profile>, e: SecurityEvent,
                     existing: Option<Profile>, detections: seq<DetectionResult>, iocs: seq<Ioc>, t: Tally)
    requires t == if existing.Some? then TallyOf(existing.value) else NO_TALLY
    requires e.sourceIp in cfg.trustedIps ==> t.failures == 0 && t.users == {} && (t.events == 0 ==> t.successes == 0)
    ensures TallyOf(Assess(cfg, e, existing, detections, iocs)) ==
            if e.sourceIp in cfg.trustedIps then CountTrusted(t, e) else Count(t, e)
  {
  }

  lemma {:induction false} TrustedTally(log: seq<SecurityEvent>, ip: Ip)
    ensures var t := Recompute(log, ip, true);
      t.failures == 0 && t.users == {} && (t.events == 0 ==> t.successes == 0)
  {
    if log != [] { TrustedTally(log[..|log| - 1], ip); }
  }

  lemma {:induction false} ProcessMatches(cfg: Config, w: World, env: Env, e: SecurityEvent,
                       detections: seq<DetectionResult>, iocs: seq<Ioc>)
    requires MatchesLog(cfg, w)
    ensures MatchesLog(cfg, ProcessEvent(cfg, w, env, e, detections, iocs))
  {
    var w' := ProcessEvent(cfg, w, env, e, detections, iocs);
    var saved := w.(events := w.events + [e]);
    var existing := ProfileOf(saved, e.sourceIp);
    var p := Assess(cfg.scoring, e, existing, detections, iocs);
    if cfg.mode.Some? { RespondSameTallies(cfg.policy, saved, env, p, cfg.mode.value); }
    assert saved.events[..|w.events|] == w.events;
    forall ip ensures StoredTally(w'.actors, ip) == Recompute(w'.events, ip, ip in cfg.scoring.trustedIps) {
      assert StoredTally(w.actors, ip) == Recompute(w.events, ip, ip in cfg.scoring.trustedIps);
      if ip == e.sourceIp {
        TrustedTally(w.events, ip);
        AssessCounts(cfg.scoring, w.actors, e, existing, detections, iocs, StoredTally(w.actors, ip));
      }
    }
  }

  lemma {:induction false} RunMatches(cfg: Config, w: World, run: seq<Timed>)
    requires MatchesLog(cfg, w)
    ensures MatchesLog(cfg, Run(cfg, w, run))
    decreases |run|
  {
    if run != [] {
      var s, env := run[0].step, run[0].env;
      if s.Process? {
        ProcessMatches(cfg, w, env, s.event, s.detections, s.iocs);
      } else {
        StepSameTallies(cfg, w, s, env);
      }
      RunMatches(cfg, Exec(cfg, w, s, env), run[1..]);
    }
  }

  /** After every run from an empty database the profile table is the fold of the event
      log, whatever bans, expiries and recoveries happened in between. */
  lemma {:induction false} ProfileIsFoldOfLog(cfg: Config, run: seq<Timed>)
    ensures MatchesLog(cfg, Run(cfg, EMPTY_WORLD, run))
  {
    RunMatches(cfg, EMPTY_WORLD, run);
  }

  // ---------------------------------------------------------------- trusted hosts

  /** How many successes of `ip` precede its last other event; 1 when there is none. */
  function SuccessesBeforeLastOther(log: seq<SecurityEvent>, ip: Ip): nat {
    if log == [] then 1
    else
      var e := log[|log| - 1];
      if e.sourceIp == ip && e.eventType != AuthSuccess then Recompute(log[..|log| - 1], ip, false).successes
      else SuccessesBeforeLastOther(log[..|log| - 1], ip)
  }

  lemma {:induction false} TrustedSuccesses(log: seq<SecurityEvent>, ip: Ip)
    ensures var stored, actual := Recompute(log, ip, true), Recompute(log, ip, false);
      && stored.events == actual.events
      && (actual.events == 0 ==> actual.successes == 0 && SuccessesBeforeLastOther(log, ip) == 1)
      && (actual.events > 0 ==> stored.successes + SuccessesBeforeLastOther(log, ip) == actual.successes + 1)
  {
    if log != [] { TrustedSuccesses(log[..|log| - 1], ip); }
  }

  /** The success count stored for a trusted host that was seen is the true one exactly
      when its log has no event but successes, or exactly one success before the last
      other event. */
  lemma {:induction false} TrustedSuccessesIff(log: seq<SecurityEvent>, ip: Ip)
    requires Recompute(log, ip, true).events > 0
    ensures Recompute(log, ip, true).successes == Recompute(log, ip, false).successes
       <==> SuccessesBeforeLastOther(log, ip) == 1
  {
    TrustedSuccesses(log, ip);
  }
}
