/** The objects that drive the two stores. Every method is proved to take the world
    exactly where `Enforcement` and `Reconciliation` say it goes. */
module Defense {
  import opened Domain
  import opened Risk
  import opened Scorer
  import opened Policy
  import opened Enforcement
  import opened Reconciliation
  import opened Stores
  import Runs

  /** The abstract state of the two stores. */
  ghost function Snapshot(storage: SQLiteStorage, firewall: Firewall): World
    reads storage, firewall
  {
    World(storage.bans, storage.actors, storage.events, firewall.rules)
  }

  ghost function Surroundings(firewall: Firewall, now: int): Env
    reads firewall
  {
    Env(now, firewall.available, firewall.refused)
  }

  // ---------------------------------------------------------------- partial expiry

  /** The table once the given rows have been checked for expiry. */
  ghost predicate RowsChecked(bans: seq<BanRecord>, rows: seq<nat>, now: int, bans': seq<BanRecord>) {
    && |bans'| == |bans|
    && forall i: nat :: i < |bans| ==>
         bans'[i] == if i in rows && Lapsed(bans[i], now) then bans[i].(status := Expired) else bans[i]
  }

  ghost function MarkExpired(actors: map<Ip, Profile>, ips: set<Ip>): map<Ip, Profile> {
    map ip | ip in actors :: if ip in ips then actors[ip].(state := ExpiredState) else actors[ip]
  }

  lemma {:induction false} RowsCheckedStep(bans: seq<BanRecord>, rows: seq<nat>, k: nat, now: int,
                                           bans': seq<BanRecord>)
    requires k < |rows| && rows[k] < |bans| && RowsChecked(bans, rows[..k], now, bans')
    ensures RowsChecked(bans, rows[..k + 1], now,
                        if Lapsed(bans[rows[k]], now) then SetStatus(bans', rows[k], Expired) else bans')
  {
  }

  /** The addresses released by checking one row more. */
  lemma {:induction false} ReleasedStep(bans: seq<BanRecord>, rows: seq<nat>, k: nat, now: int)
    requires k < |rows| && rows[k] < |bans|
    ensures var before, after := ExpiredIps(bans, rows[..k], now), ExpiredIps(bans, rows[..k + 1], now);
      after == (if Lapsed(bans[rows[k]], now) then before + [bans[rows[k]].sourceIp] else before) &&
      KeySet(after) == if Lapsed(bans[rows[k]], now) then KeySet(before) + {bans[rows[k]].sourceIp} else KeySet(before)
  {
    assert rows[..k + 1][..k] == rows[..k];
  }

  /** The world once the given rows have been checked for expiry. */
  ghost function ExpiredSoFar(w: World, bans: seq<BanRecord>, ips: set<Ip>): World {
    World(bans, MarkExpired(w.actors, ips), w.events, w.rules - ips)
  }

  /** One lapsed ban released: its row, its actor and its rule. */
  ghost function ReleaseOne(w: World, id: nat, ip: Ip): World
    requires id < |w.bans|
  {
    World(SetStatus(w.bans, id, Expired), SetState(w.actors, ip, ExpiredState), w.events, w.rules - {ip})
  }

  lemma {:induction false} ReleasedOneMore(w: World, bans': seq<BanRecord>, ips: set<Ip>, id: nat, ip: Ip)
    requires id < |bans'|
    ensures ReleaseOne(ExpiredSoFar(w, bans', ips), id, ip) ==
            ExpiredSoFar(w, SetStatus(bans', id, Expired), ips + {ip})
  {
  }

  /** Checking every active row one by one is the all-at-once expiry. */
  lemma {:induction false} ExpiredAll(w: World, now: int, bans': seq<BanRecord>)
    requires RowsChecked(w.bans, ActiveRows(w.bans), now, bans')
    ensures ExpiredSoFar(w, bans', KeySet(ExpiredIps(w.bans, ActiveRows(w.bans), now))) == CheckExpirations(w, now)
  {
    var rows := ActiveRows(w.bans);
    ActiveRowsFacts(w.bans);
    var ips := KeySet(ExpiredIps(w.bans, rows, now));
    forall ip ensures ip in ips <==> ip in DoomedIps(w.bans, now) {
      ExpiredIpsAreLapsed(w.bans, rows, now, ip);
      if ip in ips {
        var k :| 0 <= k < |rows| && rows[k] < |w.bans| && Lapsed(w.bans[rows[k]], now) &&
          w.bans[rows[k]].sourceIp == ip;
        assert rows[k] in rows;
        assert Doomed(w.bans[rows[k]], now);
      }
      if ip in DoomedIps(w.bans, now) {
        var i: nat :| i < |w.bans| && Doomed(w.bans[i], now) && w.bans[i].sourceIp == ip;
        assert i in rows;
        var k :| 0 <= k < |rows| && rows[k] == i;
      }
    }
    assert ips == DoomedIps(w.bans, now);
    assert bans' == ExpireRecords(w.bans, now);
  }

  lemma {:induction false} NothingExpiredYet(w: World, now: int)
    ensures RowsChecked(w.bans, [], now, w.bans)
    ensures ExpiredSoFar(w, w.bans, KeySet([])) == w
  {
  }

  /** What startup recovery does with its next row. */
  lemma {:induction false} SyncRowsUnfold(w: World, env: Env, rows: seq<nat>, synced: nat)
    requires rows != [] && rows[0] < |w.bans|
    ensures var b := w.bans[rows[0]];
      SyncRows(w, env, rows, synced) ==
        if Lapsed(b, env.now) then SyncRows(w.(bans := SetStatus(w.bans, rows[0], Expired)), env, rows[1..], synced)
        else if b.sourceIp in env.refused then (w, None)
        else SyncRows(w.(rules := w.rules[b.sourceIp := FreshRule(b, env.now)]), env, rows[1..], synced + 1)
  {
  }

  // ---------------------------------------------------------------- ban lifecycle

  class BanManager {
    const storage: SQLiteStorage
    const firewall: Firewall

    constructor (storage: SQLiteStorage, firewall: Firewall)
      ensures this.storage == storage && this.firewall == firewall
    {
      this.storage := storage;
      this.firewall := firewall;
    }

    /** None is a raised FirewallError, before anything was stored. */
    method CreateBan(sourceIp: Ip, threatScore: int, duration: Option<int>, action: Action, status: BanStatus, now: int)
      returns (id: Option<nat>)
      requires storage.Valid()
      modifies storage`bans, storage`actors, firewall`rules
      ensures storage.Valid()
      ensures var env := Surroundings(firewall, now);
        if CreationRaises(env, sourceIp, status) then
          id == None && Snapshot(storage, firewall) == old(Snapshot(storage, firewall))
        else
          id == Some(|old(storage.bans)|) &&
          Snapshot(storage, firewall) ==
            Enforcement.CreateBan(old(Snapshot(storage, firewall)), env, sourceIp, threatScore, duration, action,
                                  status)
    {
      var expiresAt := if duration.Some? && duration.value > 0 then Some(now + duration.value * SECOND) else None;
      var record := BanRecord(sourceIp, threatScore, now, expiresAt, action, status);
      if status == Active {
        if firewall.available {
          var ok := firewall.BlockIp(sourceIp, duration, now);
          if !ok { return None; }
        } else {
          record := record.(status := Failed);
        }
      }
      var row := storage.SaveBan(record);
      var profile := storage.GetThreatActor(sourceIp);
      if profile.Some? {
        var p := profile.value;
        if record.status == Active { p := p.(state := Isolated); }
        storage.UpsertThreatActor(p);
      } else {
        storage.UpsertThreatActor(FreshProfile(now, sourceIp, threatScore, action, status));
      }
      id := Some(row);
    }

    method Unban(sourceIp: Ip) returns (found: bool)
      requires storage.Valid()
      modifies storage`bans, storage`actors, firewall`rules
      ensures storage.Valid()
      ensures found <==> HasActive(old(storage.bans), sourceIp)
      ensures Snapshot(storage, firewall) == Enforcement.Unban(old(Snapshot(storage, firewall)), sourceIp)
    {
      BanForFacts(storage.bans, sourceIp);
      var _ := firewall.UnblockIp(sourceIp);
      var activeBan := BanFor(storage.bans, sourceIp);
      if activeBan.Some? {
        var _ := storage.UpdateBanStatus(activeBan.value, Unbanned);
      }
      storage.MarkActor(sourceIp, Released);
      found := activeBan.Some?;
    }

    method Release(id: nat, sourceIp: Ip)
      requires storage.Valid() && id < |storage.bans|
      modifies storage`bans, storage`actors, firewall`rules
      ensures storage.Valid()
      ensures storage.bans == SetStatus(old(storage.bans), id, Expired)
      ensures Snapshot(storage, firewall) == ReleaseOne(old(Snapshot(storage, firewall)), id, sourceIp)
    {
      var _ := firewall.UnblockIp(sourceIp);
      var _ := storage.UpdateBanStatus(id, Expired);
      storage.MarkActor(sourceIp, ExpiredState);
    }

    /** Releases the lapsed bans one at a time; returns their addresses in order. */
    method CheckExpirations(now: int) returns (expired: seq<Ip>)
      requires storage.Valid()
      modifies storage`bans, storage`actors, firewall`rules
      ensures storage.Valid()
      ensures Snapshot(storage, firewall) == Enforcement.CheckExpirations(old(Snapshot(storage, firewall)), now)
      ensures expired == ExpiredIps(old(storage.bans), ActiveRows(old(storage.bans)), now)
      ensures |storage.bans| == |old(storage.bans)|
      ensures forall i :: 0 <= i < |storage.bans| ==>
                var b := old(storage.bans)[i];
                storage.bans[i] == if b.status == Active && b.expiresAt.Some? && now >= b.expiresAt.value then
                                     b.(status := Expired)
                                   else b
    {
      ghost var w := Snapshot(storage, firewall);
      var bans := storage.bans;
      var rows := ActiveRows(bans);
      ActiveRowsFacts(bans);
      NothingExpiredYet(w, now);
      expired := [];
      for k := 0 to |rows|
        invariant storage.Valid()
        invariant RowsChecked(bans, rows[..k], now, storage.bans)
        invariant expired == ExpiredIps(bans, rows[..k], now)
        invariant Snapshot(storage, firewall) == ExpiredSoFar(w, storage.bans, KeySet(expired))
      {
        assert rows[k] in rows;
        RowsCheckedStep(bans, rows, k, now, storage.bans);
        ReleasedStep(bans, rows, k, now);
        var ban := bans[rows[k]];
        if Lapsed(ban, now) {
          ReleasedOneMore(w, storage.bans, KeySet(expired), rows[k], ban.sourceIp);
          Release(rows[k], ban.sourceIp);
          expired := expired + [ban.sourceIp];
        }
      }
      assert rows[..|rows|] == rows;
      ExpiredAll(w, now, storage.bans);
    }

    /** None when a refused address raised part-way through. */
    method SyncOnStartup(now: int) returns (synced: Option<nat>)
      modifies storage`bans, firewall`rules
      ensures (Snapshot(storage, firewall), synced) ==
              Enforcement.SyncOnStartup(old(Snapshot(storage, firewall)), Surroundings(firewall, now))
    {
      ghost var env := Surroundings(firewall, now);
      ghost var outcome := Enforcement.SyncOnStartup(Snapshot(storage, firewall), env);
      var rows := ActiveRows(storage.bans);
      ActiveRowsFacts(storage.bans);
      forall i | 0 <= i < |rows| ensures rows[i] < |storage.bans| { assert rows[i] in rows; }
      var count := 0;
      assert rows[0..] == rows;
      for k := 0 to |rows|
        invariant |storage.bans| == |old(storage.bans)|
        invariant forall i :: 0 <= i < |rows| ==> rows[i] < |storage.bans|
        invariant SyncRows(Snapshot(storage, firewall), env, rows[k..], count) == outcome
      {
        assert rows[k..][1..] == rows[k + 1..];
        SyncRowsUnfold(Snapshot(storage, firewall), env, rows[k..], count);
        var ban := storage.bans[rows[k]];
        if Lapsed(ban, now) {
          var _ := storage.UpdateBanStatus(rows[k], Expired);
        } else {
          var ok := BlockRemaining(ban, now);
          if !ok { return None; }
          count := count + 1;
        }
      }
      synced := Some(count);
    }

    /** Block the address of a ban for the whole seconds it has left. */
    method BlockRemaining(ban: BanRecord, now: int) returns (ok: bool)
      modifies firewall`rules
      ensures ok == (ban.sourceIp !in firewall.refused)
      ensures firewall.rules == if ok then old(firewall.rules)[ban.sourceIp := FreshRule(ban, now)]
              else old(firewall.rules)
    {
      var remaining: Option<int> := None;
      if ban.expiresAt.Some? {
        var left := (ban.expiresAt.value - now) / SECOND;
        remaining := Some(if left < 1 then 1 else left);
      }
      ok := firewall.BlockIp(ban.sourceIp, remaining, now);
    }
  }

  // ---------------------------------------------------------------- policy-driven response

  class ResponseEngine {
    const policy: PolicyConfig
    const banManager: BanManager
    const defaultMode: Mode

    constructor (policy: PolicyConfig, banManager: BanManager, defaultMode: Mode)
      ensures this.policy == policy && this.banManager == banManager && this.defaultMode == defaultMode
    {
      this.policy := policy;
      this.banManager := banManager;
      this.defaultMode := defaultMode;
    }

    method Process(profile: Profile, modeOverride: Option<Mode>, now: int)
      returns (decision: Decision, ban: Option<nat>)
      requires banManager.storage.Valid()
      modifies banManager.storage`bans, banManager.storage`actors, banManager.firewall`rules
      ensures banManager.storage.Valid()
      ensures (Snapshot(banManager.storage, banManager.firewall), decision, ban) ==
              Respond(policy, old(Snapshot(banManager.storage, banManager.firewall)),
                      Surroundings(banManager.firewall, now), profile,
                      if modeOverride.Some? then modeOverride.value else defaultMode)
    {
      var mode := if modeOverride.Some? then modeOverride.value else defaultMode;
      decision := Decide(policy, profile, mode);
      ban := None;
      if decision.action != TemporaryIsolation && decision.action != PermanentBan { return; }
      if decision.isAllowlisted || mode == Disabled { return; }
      var ip, score := profile.sourceIp, decision.threatScore;
      var duration, action := decision.duration, decision.action;
      var existing := BanFor(banManager.storage.bans, ip);
      if existing.Some? { return decision, existing; }
      match mode {
        case Automatic =>
          if !banManager.firewall.available {
            ban := banManager.CreateBan(ip, score, duration, action, Failed, now);
            decision := decision.(executed := false, mode := Disabled);
          } else {
            ban := banManager.CreateBan(ip, score, duration, action, Active, now);
            if ban.Some? {
              decision := decision.(executed := true);
            } else {
              ban := banManager.CreateBan(ip, score, duration, action, Failed, now);
              decision := decision.(executed := false, mode := Disabled);
            }
          }
        case DryRun =>
          ban := banManager.CreateBan(ip, score, duration, action, Simulated, now);
          decision := decision.(executed := false);
        case ManualApproval =>
          ban := banManager.CreateBan(ip, score, duration, action, PendingApproval, now);
          decision := decision.(executed := false);
        case Disabled =>
      }
    }
  }

  // ---------------------------------------------------------------- operator commands

  class DefenseAppService {
    const banManager: BanManager

    constructor (banManager: BanManager)
      ensures this.banManager == banManager
    {
      this.banManager := banManager;
    }

    /** None is a raised FirewallError. */
    method BanIp(sourceIp: Ip, durationSeconds: int, permanent: bool, now: int) returns (ban: Option<nat>)
      requires banManager.storage.Valid()
      modifies banManager.storage`bans, banManager.storage`actors, banManager.firewall`rules
      ensures banManager.storage.Valid()
      ensures Snapshot(banManager.storage, banManager.firewall) ==
              OperatorBan(old(Snapshot(banManager.storage, banManager.firewall)),
                          Surroundings(banManager.firewall, now), sourceIp, durationSeconds, permanent)
      ensures var bans, rules := old(banManager.storage.bans), old(banManager.firewall.rules);
        if HasActive(bans, sourceIp) || (banManager.firewall.available && sourceIp in banManager.firewall.refused) then
          banManager.storage.bans == bans && banManager.firewall.rules == rules
        else
          && banManager.storage.bans == bans + [BanRecord(
               sourceIp, if permanent then 100 else 85, now,
               if permanent || durationSeconds <= 0 then None else Some(now + durationSeconds * 1_000_000),
               if permanent then PermanentBan else TemporaryIsolation,
               if banManager.firewall.available then Active else Failed)]
          && banManager.firewall.rules ==
               if !banManager.firewall.available then rules
               else rules[sourceIp := if permanent || durationSeconds == 0 then None
                                      else Some(now + durationSeconds * 1_000_000)]
      ensures ban == if HasActive(old(banManager.storage.bans), sourceIp) then
                       BanFor(old(banManager.storage.bans), sourceIp)
                     else if CreationRaises(Surroundings(banManager.firewall, now), sourceIp, Active) then None
                     else Some(|old(banManager.storage.bans)|)
    {
      BanForFacts(banManager.storage.bans, sourceIp);
      var existing := BanFor(banManager.storage.bans, sourceIp);
      if existing.Some? { return existing; }
      var action := if permanent then PermanentBan else TemporaryIsolation;
      var duration := if permanent then None else Some(durationSeconds);
      ban := banManager.CreateBan(sourceIp, if permanent then 100 else 85, duration, action, Active, now);
    }

    method UnbanIp(sourceIp: Ip) returns (success: bool)
      requires banManager.storage.Valid()
      modifies banManager.storage`bans, banManager.storage`actors, banManager.firewall`rules
      ensures banManager.storage.Valid()
      ensures success <==> HasActive(old(banManager.storage.bans), sourceIp)
      ensures Snapshot(banManager.storage, banManager.firewall) ==
              Enforcement.Unban(old(Snapshot(banManager.storage, banManager.firewall)), sourceIp)
    {
      success := banManager.Unban(sourceIp);
    }

    method FlushFirewall(ghost now: int) returns (flushed: bool)
      modifies banManager.firewall`rules
      ensures flushed == banManager.firewall.available
      ensures Snapshot(banManager.storage, banManager.firewall) ==
              Flush(old(Snapshot(banManager.storage, banManager.firewall)), Surroundings(banManager.firewall, now))
    {
      if !banManager.firewall.available { return false; }
      banManager.firewall.Flush();
      flushed := true;
    }
  }

  // ---------------------------------------------------------------- reconciliation

  /** Once an address raised, the rest of the keys make no difference. */
  lemma {:induction false} ReinstateStops(ban: map<Ip, BanRecord>, env: Env, keys: seq<Ip>, tried: seq<Ip>,
                                          rules: Rules)
    requires tried <= keys && !Reinstate(ban, env, tried, rules).1
    ensures Reinstate(ban, env, keys, rules) == Reinstate(ban, env, tried, rules)
  {
    if |tried| == |keys| {
      assert tried == keys;
    } else {
      ReinstateStops(ban, env, keys[..|keys| - 1], tried, rules);
    }
  }

  lemma {:induction false} ReinstateOneMore(ban: map<Ip, BanRecord>, env: Env, keys: seq<Ip>, ip: Ip, rules: Rules)
    requires ip in ban && Reinstate(ban, env, keys, rules).1
    ensures var before := Reinstate(ban, env, keys, rules).0;
      Reinstate(ban, env, keys + [ip], rules) ==
        if ip in env.refused then (before, false) else (before[ip := FreshRule(ban[ip], env.now)], true)
  {
  }

  lemma {:induction false} MissingPrefix(keys: seq<Ip>, k: nat, listed: set<Ip>)
    requires k <= |keys|
    ensures MissingKeys(keys[..k], listed) <= MissingKeys(keys, listed)
  {
    if k == |keys| {
      assert keys[..k] == keys;
    } else {
      assert keys[..|keys| - 1][..k] == keys[..k];
      MissingPrefix(keys[..|keys| - 1], k, listed);
    }
  }

  lemma {:induction false} CountOne(left: set<Ip>, expected: set<Ip>, ip: Ip)
    requires ip in left
    ensures |left - expected| == |left - {ip} - expected| + if ip in expected then 0 else 1
  {
    if ip in expected {
      assert left - expected == left - {ip} - expected;
    } else {
      assert left - expected == (left - {ip} - expected) + {ip};
    }
  }

  lemma {:induction false} HealFromParts(e: Expected, env: Env, rules: Rules, cleanedIps: seq<Ip>, rules': Rules,
                                         ok: bool)
    requires Reinstate(e.ban, env, MissingKeys(e.keys, rules.Keys), rules) == (rules', ok)
    ensures Heal(e, env, rules, cleanedIps) ==
            (rules', if ok then Summary(e.ban.Keys, rules.Keys, MissingKeys(e.keys, rules.Keys), cleanedIps)
                     else UNHEALTHY)
  {
  }

  class FirewallReconciler {
    const banManager: BanManager

    constructor (banManager: BanManager)
      ensures this.banManager == banManager
    {
      this.banManager := banManager;
    }

    /** The live bans by address, in the order their addresses first appear. */
    method CollectExpected(now: int) returns (expected: Expected)
      ensures expected == ExpectedBans(banManager.storage.bans, ActiveRows(banManager.storage.bans), now)
      ensures forall k :: 0 <= k < |expected.keys| ==>
                expected.keys[k] in expected.ban && expected.ban[expected.keys[k]].sourceIp == expected.keys[k]
    {
      var bans := banManager.storage.bans;
      var rows := ActiveRows(bans);
      ActiveRowsFacts(bans);
      ExpectedFacts(bans, rows, now);
      expected := Expected([], map[]);
      for k := 0 to |rows|
        invariant expected == ExpectedBans(bans, rows[..k], now)
      {
        assert rows[..k + 1][..k] == rows[..k];
        assert rows[k] in rows;
        var b := bans[rows[k]];
        if !Lapsed(b, now) {
          var keys := if b.sourceIp in expected.ban then expected.keys else expected.keys + [b.sourceIp];
          expected := Expected(keys, expected.ban[b.sourceIp := b]);
        }
      }
      assert rows[..|rows|] == rows;
    }

    /** Reinstates each missing rule; stops at the first address that raises. */
    method RestoreMissing(expected: Expected, listed: set<Ip>, now: int) returns (ok: bool, restored: seq<Ip>)
      requires forall k :: 0 <= k < |expected.keys| ==>
                 expected.keys[k] in expected.ban && expected.ban[expected.keys[k]].sourceIp == expected.keys[k]
      modifies banManager.firewall`rules
      ensures (banManager.firewall.rules, ok) ==
              Reinstate(expected.ban, Surroundings(banManager.firewall, now),
                        MissingKeys(expected.keys, listed), old(banManager.firewall.rules))
      ensures ok ==> restored == MissingKeys(expected.keys, listed)
    {
      ghost var env := Surroundings(banManager.firewall, now);
      var keys := expected.keys;
      restored := [];
      for k := 0 to |keys|
        invariant restored == MissingKeys(keys[..k], listed)
        invariant (banManager.firewall.rules, true) ==
                  Reinstate(expected.ban, env, restored, old(banManager.firewall.rules))
      {
        assert keys[..k + 1][..k] == keys[..k];
        var ip := keys[k];
        if ip !in listed {
          ReinstateOneMore(expected.ban, env, restored, ip, old(banManager.firewall.rules));
          var reached := banManager.BlockRemaining(expected.ban[ip], now);
          if !reached {
            MissingPrefix(keys, k + 1, listed);
            ReinstateStops(expected.ban, env, MissingKeys(keys, listed), restored + [ip],
                           old(banManager.firewall.rules));
            return false, restored;
          }
          restored := restored + [ip];
        }
      }
      assert keys[..|keys|] == keys;
      ok := true;
    }

    method CountForeign(listed: set<Ip>, expected: set<Ip>) returns (foreign: nat)
      ensures foreign == |listed - expected|
    {
      foreign := 0;
      var left := listed;
      while left != {}
        invariant foreign + |left - expected| == |listed - expected|
        decreases |left|
      {
        var ip :| ip in left;
        CountOne(left, expected, ip);
        if ip !in expected { foreign := foreign + 1; }
        left := left - {ip};
      }
    }

    /** Compares the live bans with the listed rules, restores and counts. */
    method Compare(expiredIps: seq<Ip>, now: int) returns (report: Report)
      modifies banManager.firewall`rules
      ensures (banManager.firewall.rules, report) ==
              Heal(ExpectedBans(banManager.storage.bans, ActiveRows(banManager.storage.bans), now),
                   Surroundings(banManager.firewall, now), EvictStale(old(banManager.firewall.rules), now), expiredIps)
    {
      var firewallIps := banManager.firewall.ListBlockedIps(now);
      var expected := CollectExpected(now);
      ghost var rules := banManager.firewall.rules;
      var ok, restored := RestoreMissing(expected, firewallIps, now);
      HealFromParts(expected, Surroundings(banManager.firewall, now), rules, expiredIps, banManager.firewall.rules, ok);
      if !ok { return UNHEALTHY; }
      var foreign := CountForeign(firewallIps, expected.ban.Keys);
      report := Report(true, |expected.ban.Keys|, |firewallIps|, restored, expiredIps, |restored| + foreign);
    }

    method Reconcile(now: int) returns (report: Report)
      requires banManager.storage.Valid()
      modifies banManager.storage`bans, banManager.storage`actors, banManager.firewall`rules
      ensures banManager.storage.Valid()
      ensures (Snapshot(banManager.storage, banManager.firewall), report) ==
              Reconciliation.Reconcile(old(Snapshot(banManager.storage, banManager.firewall)),
                                       Surroundings(banManager.firewall, now))
    {
      if !banManager.firewall.available { return UNHEALTHY; }
      var expiredIps := banManager.CheckExpirations(now);
      report := Compare(expiredIps, now);
    }
  }

  // ---------------------------------------------------------------- the pipeline

  class SentinelPipeline {
    const riskEngine: RiskEngine
    const responseEngine: ResponseEngine
    const respond: bool

    constructor (riskEngine: RiskEngine, responseEngine: ResponseEngine, respond: bool)
      ensures this.riskEngine == riskEngine && this.responseEngine == responseEngine && this.respond == respond
    {
      this.riskEngine := riskEngine;
      this.responseEngine := responseEngine;
      this.respond := respond;
    }

    function Config(): Runs.Config {
      Runs.Config(riskEngine.config, responseEngine.policy, if respond then Some(responseEngine.defaultMode) else None)
    }

    /** Save the event, assess it, respond, then store the profile. */
    method ProcessRaw(event: SecurityEvent, detections: seq<DetectionResult>, iocs: seq<Ioc>, now: int)
      returns (profile: Profile)
      requires responseEngine.banManager.storage.Valid()
      modifies responseEngine.banManager.storage, responseEngine.banManager.firewall`rules
      ensures responseEngine.banManager.storage.Valid()
      ensures var manager := responseEngine.banManager;
        Snapshot(manager.storage, manager.firewall) ==
          Runs.ProcessEvent(Config(), old(Snapshot(manager.storage, manager.firewall)),
                            Surroundings(manager.firewall, now), event, detections, iocs)
    {
      var storage := responseEngine.banManager.storage;
      storage.SaveEvent(event);
      var existing := storage.GetThreatActor(event.sourceIp);
      profile := riskEngine.Evaluate(event, detections, existing, iocs);
      if respond {
        var _, _ := responseEngine.Process(profile, None, now);
      }
      storage.UpsertThreatActor(profile);
    }
  }
}
