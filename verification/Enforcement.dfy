/** The two stores that must agree, ban records and firewall rules, and what each
    public operation does to them. Every operation reads the clock once. */
module Enforcement {
  import opened Domain
  import opened Policy

  datatype BanStatus = Active | Expired | Unbanned | PendingApproval | Simulated | Failed

  datatype BanRecord = BanRecord(
    sourceIp: Ip,
    threatScore: int,
    createdAt: int,
    expiresAt: Option<int>,
    action: Action,
    status: BanStatus)

  /** A rule's own expiry; None blocks for ever. */
  type Rules = map<Ip, Option<int>>

  /** The ban table is a sequence: a ban's id is its row number, so ids are fresh. */
  datatype World = World(
    bans: seq<BanRecord>,
    actors: map<Ip, Profile>,
    events: seq<SecurityEvent>,
    rules: Rules)

  const EMPTY_WORLD := World([], map[], [], map[])

  /** What one operation sees of its surroundings: the clock, whether the firewall
      is available, and the addresses for which `block_ip` raises. */
  datatype Env = Env(now: int, available: bool, refused: set<Ip>)

  // ---------------------------------------------------------------- clocks and expiry

  predicate Lapsed(b: BanRecord, now: int) {
    b.expiresAt.Some? && now >= b.expiresAt.value
  }

  predicate Live(b: BanRecord, now: int) {
    b.status == Active && !Lapsed(b, now)
  }

  predicate Doomed(b: BanRecord, now: int) {
    b.status == Active && Lapsed(b, now)
  }

  /** The expiry stored in a ban record: only positive durations are timed. */
  function RecordExpiry(now: int, duration: Option<int>): Option<int> {
    if duration.Some? && duration.value > 0 then Some(now + duration.value * SECOND) else None
  }

  /** The expiry stored in a firewall rule: every nonzero duration is timed. */
  function RuleExpiry(now: int, duration: Option<int>): Option<int> {
    if duration.Some? && duration.value != 0 then Some(now + duration.value * SECOND) else None
  }

  /** Whole seconds left of a ban, at least one. */
  function Remaining(b: BanRecord, now: int): Option<int> {
    if b.expiresAt.None? then None
    else
      var left := (b.expiresAt.value - now) / SECOND;
      Some(if left < 1 then 1 else left)
  }

  predicate RuleStale(expiry: Option<int>, now: int) {
    expiry.Some? && expiry.value < now
  }

  predicate Blocked(rules: Rules, ip: Ip, now: int) {
    ip in rules && !RuleStale(rules[ip], now)
  }

  // ---------------------------------------------------------------- table queries

  function CreatedAt(bans: seq<BanRecord>, id: nat): int {
    if id < |bans| then bans[id].createdAt else 0
  }

  /** Insert a row into rows ordered by descending creation time. */
  function InsertRow(bans: seq<BanRecord>, id: nat, rows: seq<nat>): seq<nat> {
    if rows == [] then [id]
    else if CreatedAt(bans, rows[0]) >= CreatedAt(bans, id) then [rows[0]] + InsertRow(bans, id, rows[1..])
    else [id] + rows
  }

  function ActiveRowsBelow(bans: seq<BanRecord>, n: nat): seq<nat>
    requires n <= |bans|
  {
    if n == 0 then []
    else if bans[n - 1].status == Active then InsertRow(bans, n - 1, ActiveRowsBelow(bans, n - 1))
    else ActiveRowsBelow(bans, n - 1)
  }

  /** The active bans, latest first. */
  function ActiveRows(bans: seq<BanRecord>): seq<nat> {
    ActiveRowsBelow(bans, |bans|)
  }

  function FirstFor(bans: seq<BanRecord>, rows: seq<nat>, ip: Ip): Option<nat> {
    if rows == [] then None
    else if rows[0] < |bans| && bans[rows[0]].sourceIp == ip then Some(rows[0])
    else FirstFor(bans, rows[1..], ip)
  }

  /** The latest active ban of an address. */
  function BanFor(bans: seq<BanRecord>, ip: Ip): Option<nat> {
    FirstFor(bans, ActiveRows(bans), ip)
  }

  ghost predicate HasActive(bans: seq<BanRecord>, ip: Ip) {
    exists i :: 0 <= i < |bans| && bans[i].status == Active && bans[i].sourceIp == ip
  }

  lemma {:induction false} InsertRowCounts(bans: seq<BanRecord>, id: nat, rows: seq<nat>)
    ensures multiset(InsertRow(bans, id, rows)) == multiset(rows) + multiset{id}
  {
    if rows != [] && CreatedAt(bans, rows[0]) >= CreatedAt(bans, id) {
      InsertRowCounts(bans, id, rows[1..]);
      assert rows == [rows[0]] + rows[1..];
    }
  }

  lemma {:induction false} ActiveRowsBelowCounts(bans: seq<BanRecord>, n: nat, r: nat)
    requires n <= |bans|
    ensures multiset(ActiveRowsBelow(bans, n))[r] == if r < n && bans[r].status == Active then 1 else 0
  {
    if n > 0 {
      ActiveRowsBelowCounts(bans, n - 1, r);
      if bans[n - 1].status == Active {
        InsertRowCounts(bans, n - 1, ActiveRowsBelow(bans, n - 1));
      }
    }
  }

  ghost predicate LatestFirst(bans: seq<BanRecord>, rows: seq<nat>) {
    forall i, j :: 0 <= i < j < |rows| ==> CreatedAt(bans, rows[i]) >= CreatedAt(bans, rows[j])
  }

  lemma {:induction false} InsertRowOrdered(bans: seq<BanRecord>, id: nat, rows: seq<nat>)
    requires LatestFirst(bans, rows)
    ensures LatestFirst(bans, InsertRow(bans, id, rows))
  {
    if rows != [] && CreatedAt(bans, rows[0]) >= CreatedAt(bans, id) {
      InsertRowOrdered(bans, id, rows[1..]);
      InsertRowCounts(bans, id, rows[1..]);
      var rest := InsertRow(bans, id, rows[1..]);
      forall j | 0 <= j < |rest| ensures CreatedAt(bans, rows[0]) >= CreatedAt(bans, rest[j]) {
        assert rest[j] in multiset(rest);
        assert rest[j] == id || rest[j] in rows[1..];
      }
    }
  }

  lemma {:induction false} ActiveRowsBelowOrdered(bans: seq<BanRecord>, n: nat)
    requires n <= |bans|
    ensures LatestFirst(bans, ActiveRowsBelow(bans, n))
  {
    if n > 0 {
      ActiveRowsBelowOrdered(bans, n - 1);
      if bans[n - 1].status == Active {
        InsertRowOrdered(bans, n - 1, ActiveRowsBelow(bans, n - 1));
      }
    }
  }

  /** The query returns every active row once, latest first. */
  lemma {:induction false} ActiveRowsFacts(bans: seq<BanRecord>)
    ensures forall r: nat :: r in ActiveRows(bans) <==> r < |bans| && bans[r].status == Active
    ensures forall r: nat :: multiset(ActiveRows(bans))[r] <= 1
    ensures LatestFirst(bans, ActiveRows(bans))
  {
    forall r: nat
      ensures r in ActiveRows(bans) <==> r < |bans| && bans[r].status == Active
      ensures multiset(ActiveRows(bans))[r] <= 1
    {
      ActiveRowsBelowCounts(bans, |bans|, r);
    }
    ActiveRowsBelowOrdered(bans, |bans|);
  }

  lemma {:induction false} FirstForFacts(bans: seq<BanRecord>, rows: seq<nat>, ip: Ip)
    requires LatestFirst(bans, rows) && forall r: nat :: r in rows ==> r < |bans|
    ensures var first := FirstFor(bans, rows, ip);
      if first.Some? then
        first.value in rows && bans[first.value].sourceIp == ip &&
        forall r: nat :: r in rows && bans[r].sourceIp == ip ==> bans[r].createdAt <= bans[first.value].createdAt
      else
        forall r: nat :: r in rows ==> bans[r].sourceIp != ip
  {
    if rows != [] {
      forall r: nat | r in rows[1..] ensures r in rows { }
      FirstForFacts(bans, rows[1..], ip);
      assert rows == [rows[0]] + rows[1..];
    }
  }

  /** The query finds the most recent active ban of an address, when there is one. */
  lemma {:induction false} BanForFacts(bans: seq<BanRecord>, ip: Ip)
    ensures BanFor(bans, ip).Some? <==> HasActive(bans, ip)
    ensures BanFor(bans, ip).Some? ==>
              var id := BanFor(bans, ip).value;
              id < |bans| && bans[id].status == Active && bans[id].sourceIp == ip &&
              forall i :: 0 <= i < |bans| && bans[i].status == Active && bans[i].sourceIp == ip ==>
                bans[i].createdAt <= bans[id].createdAt
  {
    ActiveRowsFacts(bans);
    FirstForFacts(bans, ActiveRows(bans), ip);
    forall i: nat | i < |bans| && bans[i].status == Active ensures i in ActiveRows(bans) { }
  }

  // ---------------------------------------------------------------- actor rows

  /** Writing a profile row keeps the first-seen time already stored. */
  function Upsert(actors: map<Ip, Profile>, p: Profile): map<Ip, Profile> {
    if p.sourceIp in actors then actors[p.sourceIp := p.(firstSeen := actors[p.sourceIp].firstSeen)]
    else actors[p.sourceIp := p]
  }

  function SetState(actors: map<Ip, Profile>, ip: Ip, state: ActorState): map<Ip, Profile> {
    if ip in actors then actors[ip := actors[ip].(state := state)] else actors
  }

  function FreshProfile(now: int, ip: Ip, score: int, action: Action, requested: BanStatus): Profile {
    Profile(ip, now, now, 0, 0, 0, {}, {}, Clamp(score), SeverityOf(Clamp(score)),
            if requested == Active then Isolated else Neutral, [], action)
  }

  // ---------------------------------------------------------------- operations

  function SetStatus(bans: seq<BanRecord>, id: nat, status: BanStatus): seq<BanRecord>
    requires id < |bans|
  {
    bans[id := bans[id].(status := status)]
  }

  /** The status a new ban ends up with: a requested ACTIVE ban fails when the
      firewall is unavailable. */
  function GrantedStatus(env: Env, requested: BanStatus): BanStatus {
    if requested == Active && !env.available then Failed else requested
  }

  /** `block_ip` is called, and raises, so nothing at all is stored. */
  predicate CreationRaises(env: Env, ip: Ip, requested: BanStatus) {
    requested == Active && env.available && ip in env.refused
  }

  function CreateBan(w: World, env: Env, ip: Ip, score: int, duration: Option<int>, action: Action,
                     requested: BanStatus): World
    requires !CreationRaises(env, ip, requested)
  {
    var granted := GrantedStatus(env, requested);
    World(
      w.bans + [BanRecord(ip, score, env.now, RecordExpiry(env.now, duration), action, granted)],
      if ip in w.actors then
        if granted == Active then SetState(w.actors, ip, Isolated) else w.actors
      else w.actors[ip := FreshProfile(env.now, ip, score, action, requested)],
      w.events,
      if granted == Active then w.rules[ip := RuleExpiry(env.now, duration)] else w.rules)
  }

  function Unban(w: World, ip: Ip): World {
    var ban := BanFor(w.bans, ip);
    w.(bans := if ban.Some? && ban.value < |w.bans| then SetStatus(w.bans, ban.value, Unbanned) else w.bans,
       actors := SetState(w.actors, ip, Released),
       rules := w.rules - {ip})
  }

  /** The addresses of the active bans that have lapsed. */
  function DoomedIps(bans: seq<BanRecord>, now: int): set<Ip> {
    set i | 0 <= i < |bans| && Doomed(bans[i], now) :: bans[i].sourceIp
  }

  function ExpireRecords(bans: seq<BanRecord>, now: int): seq<BanRecord> {
    seq(|bans|, i requires 0 <= i < |bans| =>
      if Doomed(bans[i], now) then bans[i].(status := Expired) else bans[i])
  }

  /** Expiry, all at once: lapsed bans become EXPIRED and their addresses are unblocked. */
  function CheckExpirations(w: World, now: int): World {
    var ips := DoomedIps(w.bans, now);
    World(
      ExpireRecords(w.bans, now),
      map ip | ip in w.actors :: if ip in ips then w.actors[ip].(state := ExpiredState) else w.actors[ip],
      w.events,
      w.rules - ips)
  }

  /** Startup recovery over the given rows. A refused address raises, which ends the
      recovery at that row; the result is None then, else how many were synced. */
  function SyncRows(w: World, env: Env, rows: seq<nat>, synced: nat): (World, Option<nat>)
    decreases |rows|
  {
    if rows == [] then (w, Some(synced))
    else if rows[0] >= |w.bans| then SyncRows(w, env, rows[1..], synced)
    else
      var b := w.bans[rows[0]];
      if Lapsed(b, env.now) then
        SyncRows(w.(bans := SetStatus(w.bans, rows[0], Expired)), env, rows[1..], synced)
      else if b.sourceIp in env.refused then (w, None)
      else
        SyncRows(w.(rules := w.rules[b.sourceIp := RuleExpiry(env.now, Remaining(b, env.now))]),
                 env, rows[1..], synced + 1)
  }

  function SyncOnStartup(w: World, env: Env): (World, Option<nat>) {
    SyncRows(w, env, ActiveRows(w.bans), 0)
  }

  /** Listing the blocked addresses drops the rules that ran out. */
  function EvictStale(rules: Rules, now: int): Rules {
    map ip | ip in rules && !RuleStale(rules[ip], now) :: rules[ip]
  }

  // ---------------------------------------------------------------- policy-driven response

  function Respond(cfg: PolicyConfig, w: World, env: Env, p: Profile, mode: Mode): (World, Decision, Option<nat>) {
    var d := Decide(cfg, p, mode);
    if !Isolating(d.action) then (w, d, None)
    else if d.isAllowlisted || mode == Disabled then (w, d, None)
    else if BanFor(w.bans, p.sourceIp).Some? then (w, d, BanFor(w.bans, p.sourceIp))
    else
      match mode
      case Automatic =>
        if env.available && p.sourceIp !in env.refused then
          (CreateBan(w, env, p.sourceIp, d.threatScore, d.duration, d.action, Active),
           d.(executed := true), Some(|w.bans|))
        else
          (CreateBan(w, env, p.sourceIp, d.threatScore, d.duration, d.action, Failed),
           d.(executed := false, mode := Disabled), Some(|w.bans|))
      case DryRun =>
        (CreateBan(w, env, p.sourceIp, d.threatScore, d.duration, d.action, Simulated), d, Some(|w.bans|))
      case ManualApproval =>
        (CreateBan(w, env, p.sourceIp, d.threatScore, d.duration, d.action, PendingApproval), d, Some(|w.bans|))
      case Disabled => (w, d, None)
  }

  /** The operator's manual ban; a raising firewall leaves everything unchanged. */
  function OperatorBan(w: World, env: Env, ip: Ip, duration: int, permanent: bool): World {
    if BanFor(w.bans, ip).Some? || CreationRaises(env, ip, Active) then w
    else CreateBan(w, env, ip, if permanent then 100 else 85, if permanent then None else Some(duration),
                   if permanent then PermanentBan else TemporaryIsolation, Active)
  }

  function Flush(w: World, env: Env): World {
    if env.available then w.(rules := map[]) else w
  }
}
