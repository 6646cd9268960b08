/** Incident aggregation: security activity of one address is merged into its active
    incident, or opens one. */
module Incidents {
  import opened Domain

  datatype IncidentStatus = Open | Investigating | Contained | Resolved | Closed

  datatype Technique = PasswordGuessing | PasswordSpraying | AccountDiscovery | EndpointDos

  datatype Incident = Incident(
    actors: set<Ip>,
    status: IncidentStatus,
    severity: Severity,
    riskScore: Percent,
    lastSeen: int,
    techniques: set<Technique>,
    iocs: set<string>)

  /** What one event brings to correlation. `openedAt` is the wall clock, used only for a
      new incident. */
  datatype Activity = Activity(
    ip: Ip,
    time: int,
    openedAt: int,
    detections: seq<DetectionResult>,
    iocs: seq<Ioc>,
    score: Percent,
    severity: Severity)

  datatype Step =
    | Correlate(activity: Activity)
    | SetStatus(id: nat, status: IncidentStatus)

  predicate ActiveStatus(s: IncidentStatus) {
    s == Open || s == Investigating
  }

  // ---------------------------------------------------------------- what an event contributes

  /** The registry knows the burst detector as "burst", not by its actual name. */
  function TechniqueOf(d: DetectorName): Option<Technique> {
    match d
    case BruteForce => Some(PasswordGuessing)
    case PasswordSpray => Some(PasswordSpraying)
    case UsernameEnumeration => Some(AccountDiscovery)
    case BurstVelocity => None
    case Custom(name) => if name == "burst" then Some(EndpointDos) else None
  }

  function TechniquesOf(detections: seq<DetectionResult>): set<Technique> {
    if detections == [] then {}
    else
      var t := TechniqueOf(detections[|detections| - 1].detector);
      TechniquesOf(detections[..|detections| - 1]) + if t.Some? then {t.value} else {}
  }

  function IocIds(iocs: seq<Ioc>): set<string> {
    set i | 0 <= i < |iocs| :: iocs[i].iocId
  }

  predicate WarrantsIncident(a: Activity) {
    a.score >= 70 || |a.detections| >= 2 || |a.iocs| > 0
  }

  // ---------------------------------------------------------------- the incident table

  predicate Matches(i: Incident, ip: Ip) {
    ip in i.actors && ActiveStatus(i.status)
  }

  /** Among the first `n` rows, the active incident of `ip` seen last. */
  function FindBelow(incidents: seq<Incident>, ip: Ip, n: nat): Option<nat>
    requires n <= |incidents|
    ensures var r := FindBelow(incidents, ip, n);
      r.Some? ==> r.value < n && Matches(incidents[r.value], ip)
  {
    if n == 0 then None
    else
      var best := FindBelow(incidents, ip, n - 1);
      if !Matches(incidents[n - 1], ip) then best
      else if best.Some? && incidents[best.value].lastSeen >= incidents[n - 1].lastSeen then best
      else Some(n - 1)
  }

  function FindActive(incidents: seq<Incident>, ip: Ip): Option<nat>
    ensures var r := FindActive(incidents, ip);
      r.Some? ==> r.value < |incidents| && Matches(incidents[r.value], ip)
  {
    FindBelow(incidents, ip, |incidents|)
  }

  lemma {:induction false} FindBelowComplete(incidents: seq<Incident>, ip: Ip, n: nat)
    requires n <= |incidents|
    ensures FindBelow(incidents, ip, n).None? ==> forall i :: 0 <= i < n ==> !Matches(incidents[i], ip)
    ensures FindBelow(incidents, ip, n).Some? ==>
              forall i :: 0 <= i < n && Matches(incidents[i], ip) ==>
                incidents[i].lastSeen <= incidents[FindBelow(incidents, ip, n).value].lastSeen
  {
    if n > 0 { FindBelowComplete(incidents, ip, n - 1); }
  }

  function Opened(a: Activity): Incident {
    Incident({a.ip}, Open, a.severity, a.score, a.openedAt, TechniquesOf(a.detections), IocIds(a.iocs))
  }

  function Merged(i: Incident, a: Activity): Incident {
    i.(lastSeen := a.time,
       riskScore := if a.score > i.riskScore then a.score else i.riskScore,
       severity := if a.severity == High || a.severity == Critical then a.severity else i.severity,
       techniques := i.techniques + TechniquesOf(a.detections),
       iocs := i.iocs + IocIds(a.iocs))
  }

  /** The incident the activity ended up in, if any. */
  function CorrelateActivity(incidents: seq<Incident>, a: Activity): (seq<Incident>, Option<nat>) {
    var found := FindActive(incidents, a.ip);
    if found.Some? then (incidents[found.value := Merged(incidents[found.value], a)], found)
    else if WarrantsIncident(a) then (incidents + [Opened(a)], Some(|incidents|))
    else (incidents, None)
  }

  // ---------------------------------------------------------------- what an activity leaves

  /** The four techniques, each by the one detector the registry lists for it. */
  lemma {:induction false} TechniquesExplained(detections: seq<DetectionResult>)
    ensures var ts := TechniquesOf(detections);
      && (PasswordGuessing in ts <==> exists k :: 0 <= k < |detections| && detections[k].detector == BruteForce)
      && (PasswordSpraying in ts <==> exists k :: 0 <= k < |detections| && detections[k].detector == PasswordSpray)
      && (AccountDiscovery in ts <==>
          exists k :: 0 <= k < |detections| && detections[k].detector == UsernameEnumeration)
      && (EndpointDos in ts <==> exists k :: 0 <= k < |detections| && detections[k].detector == Custom("burst"))
  {
    if detections != [] {
      var before, n := detections[..|detections| - 1], |detections| - 1;
      TechniquesExplained(before);
      assert forall k :: 0 <= k < n ==> detections[k] == before[k];
    }
  }

  /** With no open or investigating incident of the address, one is opened exactly for a
      score of 70, two detections or an indicator. */
  lemma {:induction false} IncidentOpensIff(incidents: seq<Incident>, a: Activity)
    requires forall i :: 0 <= i < |incidents| && a.ip in incidents[i].actors ==>
               incidents[i].status != Open && incidents[i].status != Investigating
    ensures var (after, into) := CorrelateActivity(incidents, a);
      && (into.Some? <==> a.score >= 70 || |a.detections| >= 2 || |a.iocs| > 0)
      && (into.None? ==> after == incidents)
      && (into.Some? ==>
            && into.value == |incidents| && |after| == |incidents| + 1
            && (forall i :: 0 <= i < |incidents| ==> after[i] == incidents[i])
            && after[into.value].status == Open && after[into.value].actors == {a.ip}
            && after[into.value].severity == a.severity && after[into.value].riskScore == a.score
            && after[into.value].lastSeen == a.openedAt
            && after[into.value].techniques == TechniquesOf(a.detections)
            && (forall id :: id in after[into.value].iocs <==> exists k :: 0 <= k < |a.iocs| && a.iocs[k].iocId == id))
  {
    assert FindActive(incidents, a.ip).None?;
  }

  /** With one, the one seen last takes the activity in: nothing is lost, its score is the
      higher one, and a High or Critical severity replaces its own. */
  lemma {:induction false} IncidentAbsorbs(incidents: seq<Incident>, a: Activity, j: nat)
    requires j < |incidents| && a.ip in incidents[j].actors
    requires incidents[j].status == Open || incidents[j].status == Investigating
    ensures var (after, into) := CorrelateActivity(incidents, a);
      && into.Some? && into.value < |incidents| && |after| == |incidents|
      && (forall i :: 0 <= i < |incidents| && i != into.value ==> after[i] == incidents[i])
      && incidents[j].lastSeen <= incidents[into.value].lastSeen
      && var before, now := incidents[into.value], after[into.value];
         && a.ip in before.actors && (before.status == Open || before.status == Investigating)
         && now.actors == before.actors && now.status == before.status && now.lastSeen == a.time
         && now.riskScore >= before.riskScore && now.riskScore >= a.score
         && (now.riskScore == before.riskScore || now.riskScore == a.score)
         && now.severity == (if a.severity == High || a.severity == Critical then a.severity else before.severity)
         && now.techniques == before.techniques + TechniquesOf(a.detections)
         && (forall id :: id in now.iocs <==>
               id in before.iocs || exists k :: 0 <= k < |a.iocs| && a.iocs[k].iocId == id)
  {
    FindBelowComplete(incidents, a.ip, |incidents|);
    assert Matches(incidents[j], a.ip);
    var i := FindActive(incidents, a.ip);
    assert Matches(incidents[i.value], a.ip);
  }

  /** Afterwards the address has an active incident, unless it had none and nothing
      warranted one. */
  lemma {:induction false} ActivityIsCovered(incidents: seq<Incident>, a: Activity)
    ensures var after := CorrelateActivity(incidents, a).0;
      (exists i :: 0 <= i < |after| && a.ip in after[i].actors &&
                   (after[i].status == Open || after[i].status == Investigating))
      <==> (a.score >= 70 || |a.detections| >= 2 || |a.iocs| > 0 ||
            exists i :: 0 <= i < |incidents| && a.ip in incidents[i].actors &&
                        (incidents[i].status == Open || incidents[i].status == Investigating))
  {
    var (after, into) := CorrelateActivity(incidents, a);
    if j :| 0 <= j < |incidents| && a.ip in incidents[j].actors &&
            (incidents[j].status == Open || incidents[j].status == Investigating)
    {
      IncidentAbsorbs(incidents, a, j);
      assert a.ip in after[into.value].actors;
    } else {
      IncidentOpensIff(incidents, a);
      if into.Some? { assert a.ip in after[into.value].actors; }
    }
  }

  // ---------------------------------------------------------------- runs, with a ledger of contributions

  datatype Entry = Entry(id: nat, activity: Activity)

  datatype Ledger = Ledger(incidents: seq<Incident>, log: seq<Entry>)

  function Exec(l: Ledger, s: Step): Ledger {
    match s
    case Correlate(a) =>
      var (incidents, id) := CorrelateActivity(l.incidents, a);
      Ledger(incidents, if id.Some? then l.log + [Entry(id.value, a)] else l.log)
    case SetStatus(id, status) =>
      if id < |l.incidents| then l.(incidents := l.incidents[id := l.incidents[id].(status := status)]) else l
  }

  function Run(l: Ledger, steps: seq<Step>): Ledger
    decreases |steps|
  {
    if steps == [] then l else Run(Exec(l, steps[0]), steps[1..])
  }

  /** A status change that makes an inactive incident active again. */
  predicate Reopens(l: Ledger, s: Step) {
    s.SetStatus? && s.id < |l.incidents| && ActiveStatus(s.status) && !ActiveStatus(l.incidents[s.id].status)
  }

  predicate NeverReopens(l: Ledger, steps: seq<Step>)
    decreases |steps|
  {
    steps != [] ==> !Reopens(l, steps[0]) && NeverReopens(Exec(l, steps[0]), steps[1..])
  }

  // ---------------------------------------------------------------- recomputing an incident from the ledger

  function TopScore(log: seq<Entry>, id: nat): Percent {
    if log == [] then 0
    else
      var before := TopScore(log[..|log| - 1], id);
      var e := log[|log| - 1];
      if e.id == id && e.activity.score > before then e.activity.score else before
  }

  function AllTechniques(log: seq<Entry>, id: nat): set<Technique> {
    if log == [] then {}
    else
      var e := log[|log| - 1];
      AllTechniques(log[..|log| - 1], id) + if e.id == id then TechniquesOf(e.activity.detections) else {}
  }

  function AllIocs(log: seq<Entry>, id: nat): set<string> {
    if log == [] then {}
    else
      var e := log[|log| - 1];
      AllIocs(log[..|log| - 1], id) + if e.id == id then IocIds(e.activity.iocs) else {}
  }

  ghost predicate Aggregates(i: Incident, log: seq<Entry>, id: nat) {
    i.riskScore == TopScore(log, id) && i.techniques == AllTechniques(log, id) && i.iocs == AllIocs(log, id)
  }

  /** Every incident is the aggregate of what was correlated into it, and nothing was
      correlated into an incident that does not exist. */
  ghost predicate FaithfulLedger(l: Ledger) {
    (forall id: nat :: id < |l.incidents| ==> Aggregates(l.incidents[id], l.log, id)) &&
    (forall k :: 0 <= k < |l.log| ==> l.log[k].id < |l.incidents|)
  }

  /** No address has two open or investigating incidents. */
  ghost predicate OneActiveEach(incidents: seq<Incident>) {
    forall i, j, ip :: 0 <= i < j < |incidents| && Matches(incidents[i], ip) ==> !Matches(incidents[j], ip)
  }

  lemma {:induction false} NothingCorrelatedYet(log: seq<Entry>, id: nat)
    requires forall k :: 0 <= k < |log| ==> log[k].id < id
    ensures TopScore(log, id) == 0 && AllTechniques(log, id) == {} && AllIocs(log, id) == {}
  {
    if log != [] { NothingCorrelatedYet(log[..|log| - 1], id); }
  }

  lemma {:induction false} LedgerGrows(log: seq<Entry>, e: Entry, id: nat)
    ensures e.id != id ==>
              TopScore(log + [e], id) == TopScore(log, id) && AllTechniques(log + [e], id) == AllTechniques(log, id) &&
              AllIocs(log + [e], id) == AllIocs(log, id)
    ensures e.id == id ==>
              var a := e.activity;
              TopScore(log + [e], id) == (if a.score > TopScore(log, id) then a.score else TopScore(log, id)) &&
              AllTechniques(log + [e], id) == AllTechniques(log, id) + TechniquesOf(a.detections) &&
              AllIocs(log + [e], id) == AllIocs(log, id) + IocIds(a.iocs)
  {
  }

  lemma {:induction false} CorrelateAggregates(l: Ledger, a: Activity)
    requires FaithfulLedger(l)
    ensures FaithfulLedger(Exec(l, Correlate(a)))
  {
    var l' := Exec(l, Correlate(a));
    var (incidents, into) := CorrelateActivity(l.incidents, a);
    if into.Some? {
      forall id: nat | id < |l'.incidents| ensures Aggregates(l'.incidents[id], l'.log, id) {
        LedgerGrows(l.log, Entry(into.value, a), id);
        if id == |l.incidents| { NothingCorrelatedYet(l.log, id); }
      }
    }
  }

  /** After every run each incident's score is the highest correlated into it, and its
      techniques and indicators are the unions of what was seen. */
  lemma {:induction false} IncidentsAggregate(l: Ledger, steps: seq<Step>)
    requires FaithfulLedger(l)
    ensures FaithfulLedger(Run(l, steps))
    decreases |steps|
  {
    if steps != [] {
      if steps[0].Correlate? { CorrelateAggregates(l, steps[0].activity); }
      IncidentsAggregate(Exec(l, steps[0]), steps[1..]);
    }
  }

  /** The severity is that of the last High or Critical contribution, or else of the
      first one. */
  ghost predicate SeverityExplained(i: Incident, log: seq<Entry>, id: nat) {
    exists k :: 0 <= k < |log| && SeverityFrom(i, log, id, k)
  }

  predicate FirstOf(log: seq<Entry>, id: nat, k: nat)
    requires k < |log|
  {
    forall m :: 0 <= m < k ==> log[m].id != id
  }

  ghost predicate SeverityFrom(i: Incident, log: seq<Entry>, id: nat, k: nat)
    requires k < |log|
  {
    && log[k].id == id && log[k].activity.severity == i.severity
    && (log[k].activity.severity in {High, Critical} || FirstOf(log, id, k))
    && (forall m :: k < m < |log| && log[m].id == id ==> log[m].activity.severity !in {High, Critical})
  }

  /** It was last seen at the time of its last contribution, or was opened by it. */
  ghost predicate SeenExplained(i: Incident, log: seq<Entry>, id: nat) {
    exists k :: 0 <= k < |log| && SeenFrom(i, log, id, k)
  }

  ghost predicate SeenFrom(i: Incident, log: seq<Entry>, id: nat, k: nat)
    requires k < |log|
  {
    && log[k].id == id && (forall m :: k < m < |log| ==> log[m].id != id)
    && i.lastSeen == (if FirstOf(log, id, k) then log[k].activity.openedAt else log[k].activity.time)
  }

  ghost predicate ExplainedLedger(l: Ledger) {
    (forall id: nat :: id < |l.incidents| ==>
       SeverityExplained(l.incidents[id], l.log, id) && SeenExplained(l.incidents[id], l.log, id)) &&
    (forall k :: 0 <= k < |l.log| ==> l.log[k].id < |l.incidents|)
  }

  lemma {:induction false} FirstOfPrefix(log: seq<Entry>, e: Entry, id: nat, k: nat)
    requires k < |log|
    ensures FirstOf(log + [e], id, k) <==> FirstOf(log, id, k)
  {
    assert forall m :: 0 <= m < k ==> (log + [e])[m] == log[m];
  }

  /** A contribution to another incident. */
  lemma {:induction false} OtherContribution(i: Incident, log: seq<Entry>, e: Entry, id: nat)
    requires SeverityExplained(i, log, id) && SeenExplained(i, log, id) && e.id != id
    ensures SeverityExplained(i, log + [e], id) && SeenExplained(i, log + [e], id)
  {
    var k :| 0 <= k < |log| && SeverityFrom(i, log, id, k);
    var n :| 0 <= n < |log| && SeenFrom(i, log, id, n);
    FirstOfPrefix(log, e, id, n);
    FirstOfPrefix(log, e, id, k);
    assert SeverityFrom(i, log + [e], id, k) && SeenFrom(i, log + [e], id, n);
  }

  lemma {:induction false} MergedIsExplained(i: Incident, log: seq<Entry>, a: Activity, id: nat)
    requires SeverityExplained(i, log, id) && SeenExplained(i, log, id)
    ensures var log' := log + [Entry(id, a)];
      SeverityExplained(Merged(i, a), log', id) && SeenExplained(Merged(i, a), log', id)
  {
    var log' := log + [Entry(id, a)];
    var k :| 0 <= k < |log| && SeverityFrom(i, log, id, k);
    assert log'[k].id == id;
    assert SeenFrom(Merged(i, a), log', id, |log|);
    assert SeverityFrom(Merged(i, a), log', id, if a.severity in {High, Critical} then |log| else k);
  }

  lemma {:induction false} OpenedIsExplained(log: seq<Entry>, a: Activity, id: nat)
    requires forall k :: 0 <= k < |log| ==> log[k].id < id
    ensures var log' := log + [Entry(id, a)];
      SeverityExplained(Opened(a), log', id) && SeenExplained(Opened(a), log', id)
  {
    var log' := log + [Entry(id, a)];
    assert SeenFrom(Opened(a), log', id, |log|) && SeverityFrom(Opened(a), log', id, |log|);
  }

  /** After every run each incident's severity and time are explained by what was
      correlated into it. */
  lemma {:induction false} IncidentsAreExplained(l: Ledger, steps: seq<Step>)
    requires ExplainedLedger(l)
    ensures ExplainedLedger(Run(l, steps))
    decreases |steps|
  {
    if steps != [] {
      var l' := Exec(l, steps[0]);
      match steps[0] {
        case Correlate(a) =>
          var (incidents, into) := CorrelateActivity(l.incidents, a);
          if into.Some? {
            forall id: nat | id < |incidents|
              ensures SeverityExplained(incidents[id], l'.log, id) && SeenExplained(incidents[id], l'.log, id)
            {
              if id != into.value { OtherContribution(l.incidents[id], l.log, Entry(into.value, a), id); }
              else if id < |l.incidents| { MergedIsExplained(l.incidents[id], l.log, a, id); }
              else { OpenedIsExplained(l.log, a, id); }
            }
          }
        case SetStatus(id, status) =>
          StatusKeepsExplained(l, id, status);
      }
      IncidentsAreExplained(l', steps[1..]);
    }
  }

  lemma {:induction false} StatusKeepsExplained(l: Ledger, id: nat, status: IncidentStatus)
    requires ExplainedLedger(l)
    ensures ExplainedLedger(Exec(l, SetStatus(id, status)))
  {
    var l' := Exec(l, SetStatus(id, status));
    forall j: nat | j < |l'.incidents|
      ensures SeverityExplained(l'.incidents[j], l'.log, j) && SeenExplained(l'.incidents[j], l'.log, j)
    {
      var k :| 0 <= k < |l.log| && SeverityFrom(l.incidents[j], l.log, j, k);
      var n :| 0 <= n < |l.log| && SeenFrom(l.incidents[j], l.log, j, n);
      assert SeverityFrom(l'.incidents[j], l'.log, j, k) && SeenFrom(l'.incidents[j], l'.log, j, n);
    }
  }

  /** An active incident stays active, for the same actors, until an operator gives it
      another status. */
  lemma {:induction false} StaysActive(l: Ledger, steps: seq<Step>, id: nat)
    requires id < |l.incidents| && (l.incidents[id].status == Open || l.incidents[id].status == Investigating)
    requires forall k :: 0 <= k < |steps| && steps[k].SetStatus? && steps[k].id == id ==>
               steps[k].status == Open || steps[k].status == Investigating
    ensures var after := Run(l, steps).incidents;
      id < |after| && after[id].actors == l.incidents[id].actors &&
      (after[id].status == Open || after[id].status == Investigating)
    decreases |steps|
  {
    if steps != [] {
      assert steps[0].SetStatus? && steps[0].id == id ==> ActiveStatus(steps[0].status);
      StaysActive(Exec(l, steps[0]), steps[1..], id);
    }
  }

  /** Whatever warranted an incident leaves its address with an active one for the rest of
      a run in which no incident is given an inactive status any more. */
  lemma {:induction false} WarrantedIsCovered(l: Ledger, steps: seq<Step>, k: nat) returns (id: nat)
    requires k < |steps| && steps[k].Correlate?
    requires var a := steps[k].activity; a.score >= 70 || |a.detections| >= 2 || |a.iocs| > 0
    requires forall m :: k < m < |steps| && steps[m].SetStatus? ==>
               steps[m].status == Open || steps[m].status == Investigating
    ensures var after := Run(l, steps).incidents;
      id < |after| && steps[k].activity.ip in after[id].actors &&
      (after[id].status == Open || after[id].status == Investigating)
    decreases k
  {
    var l', ip := Exec(l, steps[0]), steps[k].activity.ip;
    if k > 0 {
      assert steps[1..][k - 1] == steps[k];
      id := WarrantedIsCovered(l', steps[1..], k - 1);
    } else {
      ActivityIsCovered(l.incidents, steps[0].activity);
      id :| 0 <= id < |l'.incidents| && ip in l'.incidents[id].actors &&
            (l'.incidents[id].status == Open || l'.incidents[id].status == Investigating);
      StaysActive(l', steps[1..], id);
    }
  }

  // ---------------------------------------------------------------- uniqueness

  lemma {:induction false} CorrelateKeepsOneActive(incidents: seq<Incident>, a: Activity)
    requires OneActiveEach(incidents)
    ensures OneActiveEach(CorrelateActivity(incidents, a).0)
  {
    FindBelowComplete(incidents, a.ip, |incidents|);
    var after := CorrelateActivity(incidents, a).0;
    assert forall i, ip :: 0 <= i < |incidents| ==> (Matches(after[i], ip) <==> Matches(incidents[i], ip));
  }

  /** A status change keeps the incidents of every address apart exactly when it does
      not make an incident active beside another active one sharing an address. */
  lemma {:induction false} StatusChangeIff(l: Ledger, id: nat, status: IncidentStatus)
    requires OneActiveEach(l.incidents) && id < |l.incidents|
    ensures OneActiveEach(Exec(l, SetStatus(id, status)).incidents)
       <==> (ActiveStatus(status) ==>
              forall j, ip :: 0 <= j < |l.incidents| && j != id && ip in l.incidents[id].actors ==>
                !Matches(l.incidents[j], ip))
  {
    var after := Exec(l, SetStatus(id, status)).incidents;
    assert forall i, ip :: 0 <= i < |after| && i != id ==> (Matches(after[i], ip) <==> Matches(l.incidents[i], ip));
    if ActiveStatus(status) {
      if j, ip :| 0 <= j < |l.incidents| && j != id && ip in l.incidents[id].actors && Matches(l.incidents[j], ip) {
        assert Matches(after[id], ip) && Matches(after[j], ip);
        if j < id { assert !OneActiveEach(after); } else { assert !OneActiveEach(after); }
      }
    }
  }

  /** Each address has at most one active incident after every run that never reopens one. */
  lemma {:induction false} ActiveIncidentsStayUnique(l: Ledger, steps: seq<Step>)
    requires OneActiveEach(l.incidents) && NeverReopens(l, steps)
    ensures OneActiveEach(Run(l, steps).incidents)
    decreases |steps|
  {
    if steps != [] {
      var s := steps[0];
      if s.Correlate? {
        CorrelateKeepsOneActive(l.incidents, s.activity);
      } else {
        ClosingKeepsOneActive(l, s.id, s.status);
      }
      ActiveIncidentsStayUnique(Exec(l, s), steps[1..]);
    }
  }

  lemma {:induction false} ClosingKeepsOneActive(l: Ledger, id: nat, status: IncidentStatus)
    requires OneActiveEach(l.incidents) && !Reopens(l, SetStatus(id, status))
    ensures OneActiveEach(Exec(l, SetStatus(id, status)).incidents)
  {
  }

  // ---------------------------------------------------------------- growth

  /** Nothing an incident has learnt is ever lost. */
  predicate Grew(before: Incident, after: Incident) {
    before.riskScore <= after.riskScore && before.techniques <= after.techniques &&
    before.iocs <= after.iocs && before.actors == after.actors
  }

  lemma {:induction false} IncidentsOnlyGrow(l: Ledger, steps: seq<Step>, id: nat)
    requires id < |l.incidents|
    ensures id < |Run(l, steps).incidents| && Grew(l.incidents[id], Run(l, steps).incidents[id])
    decreases |steps|
  {
    if steps != [] {
      IncidentsOnlyGrow(Exec(l, steps[0]), steps[1..], id);
    }
  }
}
