/** Reconciliation: what comparing the ban table with the live firewall rules does,
    from any state of either store. */
module Reconciliation {
  import opened Domain
  import opened Enforcement

  datatype Report = Report(
    healthy: bool,
    expectedActive: nat,
    firewallBlocked: nat,
    restored: seq<Ip>,
    expiredCleaned: seq<Ip>,
    mismatches: nat)

  const UNHEALTHY := Report(false, 0, 0, [], [], 0)

  /** A dictionary that remembers the order in which its keys were first inserted. */
  datatype Expected = Expected(keys: seq<Ip>, ban: map<Ip, BanRecord>)

  /** The live bans by address; a later row replaces an earlier one of the same address. */
  function ExpectedBans(bans: seq<BanRecord>, rows: seq<nat>, now: int): Expected {
    if rows == [] then Expected([], map[])
    else
      var before := ExpectedBans(bans, rows[..|rows| - 1], now);
      var id := rows[|rows| - 1];
      if id >= |bans| || Lapsed(bans[id], now) then before
      else
        var ip := bans[id].sourceIp;
        Expected(if ip in before.ban then before.keys else before.keys + [ip], before.ban[ip := bans[id]])
  }

  function ExpiredIps(bans: seq<BanRecord>, rows: seq<nat>, now: int): seq<Ip> {
    if rows == [] then []
    else
      var before := ExpiredIps(bans, rows[..|rows| - 1], now);
      var id := rows[|rows| - 1];
      if id < |bans| && Lapsed(bans[id], now) then before + [bans[id].sourceIp] else before
  }

  /** The keys whose rule has to be reinstated, in order. */
  function MissingKeys(keys: seq<Ip>, listed: set<Ip>): seq<Ip> {
    if keys == [] then []
    else
      var before := MissingKeys(keys[..|keys| - 1], listed);
      if keys[|keys| - 1] in listed then before else before + [keys[|keys| - 1]]
  }

  function FreshRule(b: BanRecord, now: int): Option<int> {
    RuleExpiry(now, Remaining(b, now))
  }

  /** Reinstate the rules of the given keys, up to the first refused address if any. */
  function Reinstate(ban: map<Ip, BanRecord>, env: Env, keys: seq<Ip>, rules: Rules): (Rules, bool) {
    if keys == [] then (rules, true)
    else
      var (before, ok) := Reinstate(ban, env, keys[..|keys| - 1], rules);
      var ip := keys[|keys| - 1];
      if !ok || ip in env.refused then (before, false)
      else if ip !in ban then (before, true)
      else (before[ip := FreshRule(ban[ip], env.now)], true)
  }

  function Summary(expected: set<Ip>, listed: set<Ip>, restored: seq<Ip>, cleanedIps: seq<Ip>): Report {
    Report(true, |expected|, |listed|, restored, cleanedIps, |restored| + |listed - expected|)
  }

  /** Compare and restore, once lapsed bans are released and stale rules dropped. */
  function Heal(expected: Expected, env: Env, rules: Rules, cleanedIps: seq<Ip>): (Rules, Report) {
    var missing := MissingKeys(expected.keys, rules.Keys);
    var (rules', ok) := Reinstate(expected.ban, env, missing, rules);
    (rules', if ok then Summary(expected.ban.Keys, rules.Keys, missing, cleanedIps) else UNHEALTHY)
  }

  function Reconcile(w: World, env: Env): (World, Report) {
    if !env.available then (w, UNHEALTHY)
    else
      var cleaned := CheckExpirations(w, env.now);
      var (rules, report) := Heal(ExpectedBans(cleaned.bans, ActiveRows(cleaned.bans), env.now), env,
                                  EvictStale(cleaned.rules, env.now),
                                  ExpiredIps(w.bans, ActiveRows(w.bans), env.now));
      (cleaned.(rules := rules), report)
  }

  // ---------------------------------------------------------------- expiry

  /** The addresses that should be blocked: those with a live ban. */
  function LiveIps(bans: seq<BanRecord>, now: int): set<Ip> {
    set i | 0 <= i < |bans| && Live(bans[i], now) :: bans[i].sourceIp
  }

  /** The addresses found blocked once lapsed bans are released and stale rules dropped. */
  function ListedIps(w: World, now: int): set<Ip> {
    set ip | ip in w.rules && !RuleStale(w.rules[ip], now) && ip !in DoomedIps(w.bans, now)
  }

  /** Expiry touches exactly the lapsed active bans. */
  lemma {:induction false} ExpiryFacts(bans: seq<BanRecord>, now: int)
    ensures var after := ExpireRecords(bans, now);
      && |after| == |bans|
      && (forall i :: 0 <= i < |bans| ==>
            (after[i].status == Active <==>
             bans[i].status == Active && (bans[i].expiresAt.None? || now < bans[i].expiresAt.value)))
      && (forall i :: 0 <= i < |bans| ==> (after[i].status == Active <==> Live(bans[i], now)))
      && (forall i :: 0 <= i < |bans| && !Doomed(bans[i], now) ==> after[i] == bans[i])
      && LiveIps(after, now) == LiveIps(bans, now)
      && DoomedIps(after, now) == {}
  {
  }

  /** Expiry is the identity on a table without lapsed active bans. */
  lemma {:induction false} NothingLapsed(w: World, now: int)
    requires DoomedIps(w.bans, now) == {}
    ensures CheckExpirations(w, now) == w
    ensures ExpiredIps(w.bans, ActiveRows(w.bans), now) == []
  {
    assert forall i :: 0 <= i < |w.bans| && Doomed(w.bans[i], now) ==> w.bans[i].sourceIp in DoomedIps(w.bans, now);
    assert ExpireRecords(w.bans, now) == w.bans;
    assert w.rules - {} == w.rules;
    ActiveRowsFacts(w.bans);
    NoneExpired(w.bans, ActiveRows(w.bans), now);
  }

  lemma {:induction false} NoneExpired(bans: seq<BanRecord>, rows: seq<nat>, now: int)
    requires forall r: nat :: r in rows ==> r < |bans| ==> !Lapsed(bans[r], now)
    ensures ExpiredIps(bans, rows, now) == []
  {
    if rows != [] {
      forall r: nat | r in rows[..|rows| - 1] ensures r in rows { }
      NoneExpired(bans, rows[..|rows| - 1], now);
    }
  }

  /** The report lists the addresses just released. */
  lemma {:induction false} ExpiredIpsAreLapsed(bans: seq<BanRecord>, rows: seq<nat>, now: int, ip: Ip)
    ensures ip in ExpiredIps(bans, rows, now) <==>
            exists k :: 0 <= k < |rows| && rows[k] < |bans| && Lapsed(bans[rows[k]], now) &&
              bans[rows[k]].sourceIp == ip
  {
    if rows != [] {
      var before := rows[..|rows| - 1];
      ExpiredIpsAreLapsed(bans, before, now, ip);
      assert forall k :: 0 <= k < |before| ==> rows[k] == before[k];
    }
  }

  // ---------------------------------------------------------------- the dictionary of expected bans

  ghost predicate NoRepeats(keys: seq<Ip>) {
    forall i, j :: 0 <= i < j < |keys| ==> keys[i] != keys[j]
  }

  lemma {:induction false} ExpectedFacts(bans: seq<BanRecord>, rows: seq<nat>, now: int)
    ensures var e := ExpectedBans(bans, rows, now);
      && (forall ip :: ip in e.keys <==> ip in e.ban)
      && NoRepeats(e.keys)
      && (forall ip :: ip in e.ban ==> e.ban[ip].sourceIp == ip && !Lapsed(e.ban[ip], now))
  {
    if rows != [] {
      ExpectedFacts(bans, rows[..|rows| - 1], now);
    }
  }

  lemma {:induction false} ExpectedStored(bans: seq<BanRecord>, rows: seq<nat>, now: int, ip: Ip) returns (k: nat)
    requires ip in ExpectedBans(bans, rows, now).ban
    ensures k < |rows| && rows[k] < |bans| && ExpectedBans(bans, rows, now).ban[ip] == bans[rows[k]]
  {
    var n := |rows| - 1;
    if rows[n] < |bans| && !Lapsed(bans[rows[n]], now) && bans[rows[n]].sourceIp == ip {
      k := n;
    } else {
      k := ExpectedStored(bans, rows[..n], now, ip);
    }
  }

  lemma {:induction false} ExpectedComplete(bans: seq<BanRecord>, rows: seq<nat>, now: int, k: nat)
    requires k < |rows| && rows[k] < |bans| && !Lapsed(bans[rows[k]], now)
    ensures bans[rows[k]].sourceIp in ExpectedBans(bans, rows, now).ban
  {
    if k < |rows| - 1 {
      assert rows[..|rows| - 1][k] == rows[k];
      ExpectedComplete(bans, rows[..|rows| - 1], now, k);
    }
  }

  /** The keys are exactly the addresses with a live ban. */
  lemma {:induction false} ExpectedIsLive(bans: seq<BanRecord>, now: int)
    ensures ExpectedBans(bans, ActiveRows(bans), now).ban.Keys == LiveIps(bans, now)
  {
    var rows := ActiveRows(bans);
    ActiveRowsFacts(bans);
    ExpectedFacts(bans, rows, now);
    var e := ExpectedBans(bans, rows, now);
    forall ip | ip in e.ban ensures ip in LiveIps(bans, now) {
      var k := ExpectedStored(bans, rows, now, ip);
      assert Live(bans[rows[k]], now);
    }
    forall ip | ip in LiveIps(bans, now) ensures ip in e.ban {
      var i: nat :| i < |bans| && Live(bans[i], now) && bans[i].sourceIp == ip;
      assert i in rows;
      var k :| 0 <= k < |rows| && rows[k] == i;
      ExpectedComplete(bans, rows, now, k);
    }
  }

  // ---------------------------------------------------------------- the restoring loop

  function KeySet(keys: seq<Ip>): set<Ip> {
    set ip | ip in keys
  }

  lemma {:induction false} KeySetSnoc(keys: seq<Ip>)
    requires keys != []
    ensures KeySet(keys) == KeySet(keys[..|keys| - 1]) + {keys[|keys| - 1]}
    ensures NoRepeats(keys) ==> NoRepeats(keys[..|keys| - 1]) && keys[|keys| - 1] !in KeySet(keys[..|keys| - 1])
  {
  }

  lemma {:induction false} MissingKeysFacts(keys: seq<Ip>, listed: set<Ip>)
    requires NoRepeats(keys)
    ensures KeySet(MissingKeys(keys, listed)) == KeySet(keys) - listed
    ensures |MissingKeys(keys, listed)| == |KeySet(keys) - listed|
  {
    if keys != [] {
      var before, last := keys[..|keys| - 1], keys[|keys| - 1];
      KeySetSnoc(keys);
      MissingKeysFacts(before, listed);
      if last in listed {
        assert KeySet(keys) - listed == KeySet(before) - listed;
      } else {
        assert KeySet(keys) - listed == (KeySet(before) - listed) + {last};
        assert KeySet(MissingKeys(keys, listed)) == KeySet(MissingKeys(before, listed)) + {last};
      }
    }
  }

  /** Reinstating succeeds exactly when no key is refused. Rules of other addresses
      are left alone, and on success each key has the rule its ban deserves. */
  lemma {:induction false} ReinstateFacts(ban: map<Ip, BanRecord>, env: Env, keys: seq<Ip>, rules: Rules, ip: Ip)
    requires KeySet(keys) <= ban.Keys
    ensures var (rules', ok) := Reinstate(ban, env, keys, rules);
      && (ok <==> KeySet(keys) * env.refused == {})
      && (ip !in KeySet(keys) ==> (ip in rules' <==> ip in rules) && (ip in rules ==> rules'[ip] == rules[ip]))
      && (ok && ip in KeySet(keys) ==> ip in rules' && rules'[ip] == FreshRule(ban[ip], env.now))
  {
    if keys != [] {
      KeySetSnoc(keys);
      var before, last := keys[..|keys| - 1], keys[|keys| - 1];
      ReinstateFacts(ban, env, before, rules, ip);
      if last in env.refused { assert last in KeySet(keys) * env.refused; }
    }
  }

  // ---------------------------------------------------------------- what a reconciliation achieves

  lemma {:induction false} FreshRuleBlocks(b: BanRecord, now: int)
    ensures !RuleStale(FreshRule(b, now), now)
  {
  }

  /** A dictionary as the reconciler builds it from the live bans. */
  ghost predicate WellKeyed(e: Expected) {
    NoRepeats(e.keys) && KeySet(e.keys) == e.ban.Keys
  }

  lemma {:induction false} HealReport(e: Expected, env: Env, rules: Rules, cleanedIps: seq<Ip>)
    requires WellKeyed(e)
    ensures var report := Heal(e, env, rules, cleanedIps).1;
      var expected, listed := e.ban.Keys, rules.Keys;
      && (report.healthy <==> (expected - listed) * env.refused == {})
      && (report.healthy ==>
            && KeySet(report.restored) == expected - listed
            && |report.restored| == |expected - listed|
            && report.expectedActive == |expected|
            && report.firewallBlocked == |listed|
            && report.mismatches == |expected - listed| + |listed - expected|)
  {
    MissingKeysFacts(e.keys, rules.Keys);
    ReinstateFacts(e.ban, env, MissingKeys(e.keys, rules.Keys), rules, HostName(""));
  }

  /** The rule of one address after healing. */
  lemma {:induction false} HealRule(e: Expected, env: Env, rules: Rules, cleanedIps: seq<Ip>, ip: Ip)
    requires WellKeyed(e)
    ensures var (rules', report) := Heal(e, env, rules, cleanedIps);
      && (ip in rules ==> ip in rules' && rules'[ip] == rules[ip])
      && (ip in rules' ==> ip in rules || ip in e.ban)
      && (report.healthy && ip in e.ban && ip !in rules ==>
            ip in rules' && !RuleStale(rules'[ip], env.now))
  {
    MissingKeysFacts(e.keys, rules.Keys);
    ReinstateFacts(e.ban, env, MissingKeys(e.keys, rules.Keys), rules, ip);
    if ip in e.ban { FreshRuleBlocks(e.ban[ip], env.now); }
  }

  /** What the reconciler compares: the live bans and the unexpired rules. */
  lemma {:induction false} ComparedFacts(w: World, now: int)
    ensures var cleaned := CheckExpirations(w, now);
      var e := ExpectedBans(cleaned.bans, ActiveRows(cleaned.bans), now);
      var rules := EvictStale(cleaned.rules, now);
      && WellKeyed(e) && e.ban.Keys == LiveIps(w.bans, now)
      && rules.Keys == ListedIps(w, now)
      && (forall ip :: ip in rules ==> rules[ip] == w.rules[ip] && !RuleStale(rules[ip], now))
  {
    var bans := ExpireRecords(w.bans, now);
    ExpiryFacts(w.bans, now);
    ExpectedFacts(bans, ActiveRows(bans), now);
    ExpectedIsLive(bans, now);
  }

  /** The report, from any ban table and any firewall, duplicates and foreign rules
      included: healthy exactly when the firewall answers for every missing address,
      and then it counts precisely what differed. */
  lemma {:induction false} ReconcileReports(w: World, env: Env)
    ensures var report := Reconcile(w, env).1;
      var expected, listed := LiveIps(w.bans, env.now), ListedIps(w, env.now);
      && (report.healthy <==> env.available && (expected - listed) * env.refused == {})
      && (report.healthy ==>
            && KeySet(report.restored) == expected - listed
            && |report.restored| == |expected - listed|
            && report.expectedActive == |expected|
            && report.firewallBlocked == |listed|
            && report.mismatches == |(expected - listed) + (listed - expected)|)
  {
    if env.available {
      ComparedFacts(w, env.now);
      var cleaned := CheckExpirations(w, env.now);
      var e := ExpectedBans(cleaned.bans, ActiveRows(cleaned.bans), env.now);
      HealReport(e, env, EvictStale(cleaned.rules, env.now), ExpiredIps(w.bans, ActiveRows(w.bans), env.now));
      var expected, listed := LiveIps(w.bans, env.now), ListedIps(w, env.now);
      assert |(expected - listed) + (listed - expected)| == |expected - listed| + |listed - expected|;
    }
  }

  /** The two stores after a reconciliation that found the firewall available. */
  lemma {:induction false} ReconcileStores(w: World, env: Env)
    requires env.available
    ensures var (w', report) := Reconcile(w, env);
      var expected, listed := LiveIps(w.bans, env.now), ListedIps(w, env.now);
      && w' == CheckExpirations(w, env.now).(rules := w'.rules)
      && (forall ip :: ip in listed ==> ip in w'.rules && w'.rules[ip] == w.rules[ip])
      && w'.rules.Keys <= listed + expected
      && (report.healthy ==> w'.rules.Keys == listed + expected)
      && (report.healthy ==> forall ip :: ip in w'.rules ==> !RuleStale(w'.rules[ip], env.now))
  {
    forall ip
      ensures var (w', report) := Reconcile(w, env);
        && (ip in ListedIps(w, env.now) ==> ip in w'.rules && w'.rules[ip] == w.rules[ip])
        && (ip in w'.rules ==> ip in ListedIps(w, env.now) + LiveIps(w.bans, env.now))
        && (report.healthy && ip in LiveIps(w.bans, env.now) ==> ip in w'.rules)
        && (report.healthy && ip in w'.rules ==> !RuleStale(w'.rules[ip], env.now))
    {
      ReconciledRule(w, env, ip);
    }
  }

  lemma {:induction false} ReconciledRule(w: World, env: Env, ip: Ip)
    requires env.available
    ensures var (w', report) := Reconcile(w, env);
      && (ip in ListedIps(w, env.now) ==> ip in w'.rules && w'.rules[ip] == w.rules[ip])
      && (ip in w'.rules ==> ip in ListedIps(w, env.now) + LiveIps(w.bans, env.now))
      && (report.healthy && ip in LiveIps(w.bans, env.now) ==> ip in w'.rules)
      && (report.healthy && ip in w'.rules ==> !RuleStale(w'.rules[ip], env.now))
  {
    ComparedFacts(w, env.now);
    var cleaned := CheckExpirations(w, env.now);
    HealRule(ExpectedBans(cleaned.bans, ActiveRows(cleaned.bans), env.now), env,
             EvictStale(cleaned.rules, env.now), ExpiredIps(w.bans, ActiveRows(w.bans), env.now), ip);
  }

  /** A healthy reconciliation heals: no active ban is left lapsed, every active ban
      is blocked, and rules of addresses whose ban did not just lapse are kept. */
  lemma {:induction false} ReconcileHeals(w: World, env: Env)
    requires Reconcile(w, env).1.healthy
    ensures var w' := Reconcile(w, env).0;
      && (forall i :: 0 <= i < |w'.bans| && w'.bans[i].status == Active ==>
            !Lapsed(w'.bans[i], env.now) && Blocked(w'.rules, w'.bans[i].sourceIp, env.now))
      && (forall i :: 0 <= i < |w.bans| && Live(w.bans[i], env.now) ==> w'.bans[i] == w.bans[i])
      && (forall ip :: Blocked(w.rules, ip, env.now) && ip !in DoomedIps(w.bans, env.now) ==>
            ip in w'.rules && w'.rules[ip] == w.rules[ip])
  {
    var w' := Reconcile(w, env).0;
    ReconcileStores(w, env);
    ExpiryFacts(w.bans, env.now);
    forall i | 0 <= i < |w'.bans| && w'.bans[i].status == Active
      ensures !Lapsed(w'.bans[i], env.now) && Blocked(w'.rules, w'.bans[i].sourceIp, env.now)
    {
      assert Live(w.bans[i], env.now);
      assert w.bans[i].sourceIp in LiveIps(w.bans, env.now);
    }
    forall ip | Blocked(w.rules, ip, env.now) && ip !in DoomedIps(w.bans, env.now)
      ensures ip in ListedIps(w, env.now) { }
  }

  /** A second reconciliation at the same instant changes nothing, and all it has
      to report are the rules that belong to no ban. */
  lemma {:induction false} ReconcileTwice(w: World, env: Env)
    requires Reconcile(w, env).1.healthy
    ensures var w' := Reconcile(w, env).0;
      var foreign := ListedIps(w, env.now) - LiveIps(w.bans, env.now);
      Reconcile(w', env) ==
        (w', Report(true, |LiveIps(w.bans, env.now)|, |w'.rules.Keys|, [], [], |foreign|))
  {
    var w' := Reconcile(w, env).0;
    ReconcileStores(w, env);
    ExpiryFacts(w.bans, env.now);
    SettledReconcile(w', env);
    assert w'.rules.Keys - LiveIps(w.bans, env.now) == ListedIps(w, env.now) - LiveIps(w.bans, env.now);
  }

  /** Reconciling a world with nothing to expire, evict or restore. */
  lemma {:induction false} SettledReconcile(w: World, env: Env)
    requires env.available && DoomedIps(w.bans, env.now) == {}
    requires LiveIps(w.bans, env.now) <= w.rules.Keys
    requires forall ip :: ip in w.rules ==> !RuleStale(w.rules[ip], env.now)
    ensures Reconcile(w, env) ==
            (w, Report(true, |LiveIps(w.bans, env.now)|, |w.rules.Keys|, [], [],
                       |w.rules.Keys - LiveIps(w.bans, env.now)|))
  {
    NothingLapsed(w, env.now);
    assert EvictStale(w.rules, env.now) == w.rules;
    ComparedFacts(w, env.now);
    var e := ExpectedBans(w.bans, ActiveRows(w.bans), env.now);
    HealNothing(e, env, w.rules);
  }

  lemma {:induction false} HealNothing(e: Expected, env: Env, rules: Rules)
    requires WellKeyed(e) && e.ban.Keys <= rules.Keys
    ensures Heal(e, env, rules, []) == (rules, Summary(e.ban.Keys, rules.Keys, [], []))
  {
    MissingKeysFacts(e.keys, rules.Keys);
    assert e.ban.Keys - rules.Keys == {};
    assert MissingKeys(e.keys, rules.Keys) == [];
  }
}
