/** The mutable stores: the tables of the database and the rules of the firewall. */
module Stores {
  import opened Domain
  import opened Enforcement

  class SQLiteStorage {
    var bans: seq<BanRecord>
    var actors: map<Ip, Profile>
    var events: seq<SecurityEvent>

    /** Profile rows are keyed by their own address. */
    ghost predicate Valid()
      reads `actors
    {
      forall ip :: ip in actors ==> actors[ip].sourceIp == ip
    }

    constructor ()
      ensures Valid() && bans == [] && actors == map[] && events == []
    {
      bans, actors, events := [], map[], [];
    }

    method SaveEvent(e: SecurityEvent)
      modifies `events
      ensures events == old(events) + [e]
    {
      events := events + [e];
    }

    /** Insert a row; its number is the fresh ban id. */
    method SaveBan(b: BanRecord) returns (id: nat)
      modifies `bans
      ensures id == |old(bans)| && bans == old(bans) + [b]
    {
      id := |bans|;
      bans := bans + [b];
    }

    method UpdateBanStatus(id: nat, status: BanStatus) returns (updated: bool)
      modifies `bans
      ensures updated == (id < |old(bans)|)
      ensures bans == if id < |old(bans)| then SetStatus(old(bans), id, status) else old(bans)
    {
      updated := id < |bans|;
      if updated { bans := bans[id := bans[id].(status := status)]; }
    }

    function GetThreatActor(ip: Ip): Option<Profile>
      reads `actors
    {
      if ip in actors then Some(actors[ip]) else None
    }

    method UpsertThreatActor(p: Profile)
      requires Valid()
      modifies `actors
      ensures Valid() && actors == Upsert(old(actors), p)
    {
      if p.sourceIp in actors {
        actors := actors[p.sourceIp := p.(firstSeen := actors[p.sourceIp].firstSeen)];
      } else {
        actors := actors[p.sourceIp := p];
      }
    }

    /** Read a profile, change its state, write it back. */
    method MarkActor(ip: Ip, state: ActorState)
      requires Valid()
      modifies `actors
      ensures Valid() && actors == SetState(old(actors), ip, state)
    {
      var profile := GetThreatActor(ip);
      if profile.Some? {
        UpsertThreatActor(profile.value.(state := state));
      }
    }
  }

  /** The rules when only those of `left` are still to be looked at. */
  ghost function EvictExcept(rules: Rules, left: set<Ip>, now: int): Rules {
    map ip | ip in rules && (ip in left || !RuleStale(rules[ip], now)) :: rules[ip]
  }

  lemma {:induction false} EvictOneMore(rules: Rules, left: set<Ip>, ip: Ip, now: int)
    requires ip in rules && ip in left
    ensures var before, after := EvictExcept(rules, left, now), EvictExcept(rules, left - {ip}, now);
      && ip in before && before[ip] == rules[ip]
      && after == (if RuleStale(rules[ip], now) then before - {ip} else before)
      && after.Keys - (left - {ip}) == before.Keys - left + if RuleStale(rules[ip], now) then {} else {ip}
  {
  }

  lemma {:induction false} EvictEnds(rules: Rules, now: int)
    ensures EvictExcept(rules, rules.Keys, now) == rules
    ensures EvictExcept(rules, {}, now) == EvictStale(rules, now)
  {
  }

  /** The in-memory firewall. Its surroundings decide, between operations, whether it
      is available and for which addresses blocking raises. */
  class Firewall {
    var rules: Rules
    var available: bool
    var refused: set<Ip>

    constructor ()
      ensures rules == map[] && available && refused == {}
    {
      rules, available, refused := map[], true, {};
    }

    /** What the outside world does to it between two operations. */
    method Settle(available: bool, refused: set<Ip>)
      modifies `available, `refused
      ensures this.available == available && this.refused == refused
    {
      this.available, this.refused := available, refused;
    }

    /** False stands for a raised FirewallError, which changes nothing. */
    method BlockIp(ip: Ip, duration: Option<int>, now: int) returns (ok: bool)
      modifies `rules
      ensures ok == (ip !in refused)
      ensures rules == if ok then old(rules)[ip := RuleExpiry(now, duration)] else old(rules)
    {
      ok := ip !in refused;
      if ok {
        var expiry := if duration.Some? && duration.value != 0 then Some(now + duration.value * SECOND) else None;
        rules := rules[ip := expiry];
      }
    }

    method UnblockIp(ip: Ip) returns (removed: bool)
      modifies `rules
      ensures removed == (ip in old(rules))
      ensures rules == old(rules) - {ip}
    {
      removed := ip in rules;
      rules := rules - {ip};
    }

    /** Deletes the rules that ran out while it collects the others. */
    method ListBlockedIps(now: int) returns (active: set<Ip>)
      modifies `rules
      ensures rules == EvictStale(old(rules), now) && active == rules.Keys
    {
      active := {};
      ghost var before := rules;
      var left := rules.Keys;
      EvictEnds(before, now);
      while left != {}
        invariant left <= before.Keys
        invariant rules == EvictExcept(before, left, now)
        invariant active == rules.Keys - left
        decreases |left|
      {
        var ip :| ip in left;
        EvictOneMore(before, left, ip, now);
        if rules[ip].Some? && rules[ip].value < now {
          rules := rules - {ip};
        } else {
          active := active + {ip};
        }
        left := left - {ip};
      }
    }

    method Flush()
      modifies `rules
      ensures rules == map[]
    {
      rules := map[];
    }
  }
}
