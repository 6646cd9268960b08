/** The correlation engine object: the alert cache and the incident table, updated in
    place, proved against `Deduplication` and `Incidents`. */
module Correlation {
  import opened Domain
  import opened Deduplication
  import opened Incidents

  function Triggered(detections: seq<DetectionResult>): seq<DetectorName> {
    if detections == [] then []
    else
      var d := detections[|detections| - 1];
      Triggered(detections[..|detections| - 1]) + if d.detected then [d.detector] else []
  }

  /** The detectors that fired, and no others. */
  lemma {:induction false} TriggeredExplained(detections: seq<DetectionResult>, name: DetectorName)
    ensures name in Triggered(detections) <==>
            exists k :: 0 <= k < |detections| && detections[k].detected && detections[k].detector == name
  {
    if detections != [] {
      var before, n := detections[..|detections| - 1], |detections| - 1;
      TriggeredExplained(before, name);
      assert forall k :: 0 <= k < n ==> detections[k] == before[k];
    }
  }

  ghost predicate BothFired(detections: seq<DetectionResult>, i: nat, j: nat) {
    i < j < |detections| && detections[i].detected && detections[j].detected &&
    detections[i].detector == detections[j].detector
  }

  lemma {:induction false} NamedTwice(detections: seq<DetectionResult>, p: nat, q: nat) returns (i: nat, j: nat)
    requires p < q < |Triggered(detections)| && Triggered(detections)[p] == Triggered(detections)[q]
    ensures BothFired(detections, i, j)
  {
    var n := |detections| - 1;
    var before, last := detections[..n], detections[n];
    if q < |Triggered(before)| {
      i, j := NamedTwice(before, p, q);
    } else {
      TriggeredExplained(before, last.detector);
      assert last.detector in Triggered(before);
      i :| 0 <= i < n && before[i].detected && before[i].detector == last.detector;
      j := n;
    }
  }

  lemma {:induction false} FiredTwice(detections: seq<DetectionResult>, i: nat, j: nat) returns (p: nat, q: nat)
    requires BothFired(detections, i, j)
    ensures p < q < |Triggered(detections)| && Triggered(detections)[p] == Triggered(detections)[q]
  {
    var n := |detections| - 1;
    var before := detections[..n];
    if j < n {
      assert BothFired(before, i, j);
      p, q := FiredTwice(before, i, j);
    } else {
      TriggeredExplained(before, detections[i].detector);
      assert before[i] == detections[i];
      p :| 0 <= p < |Triggered(before)| && Triggered(before)[p] == detections[i].detector;
      q := |Triggered(before)|;
    }
  }

  function AlertOf(e: SecurityEvent, detections: seq<DetectionResult>): Alert {
    Alert(e.timestamp, e.sourceIp, Triggered(detections))
  }

  lemma {:induction false} AbsorbOneMore(cache: Cache, now: int, ip: Ip, names: seq<DetectorName>, d: DetectorName,
                                         window: int)
    ensures var a, a' := Alert(now, ip, names), Alert(now, ip, names + [d]);
      var absorbed := Absorb(cache, a, window, |names|);
      && Absorb(cache, a', window, |names| + 1) == Accept(absorbed, (ip, d), now, window)
      && Repeats(cache, a', window, |names| + 1) ==
           (Repeats(cache, a, window, |names|) || Suppressed(absorbed, (ip, d), now, window))
  {
    PrefixIrrelevant(cache, now, ip, names, d, window, |names|);
  }

  lemma {:induction false} PrefixIrrelevant(cache: Cache, now: int, ip: Ip, names: seq<DetectorName>, d: DetectorName,
                                            window: int, n: nat)
    requires n <= |names|
    ensures var a, a' := Alert(now, ip, names), Alert(now, ip, names + [d]);
      && Absorb(cache, a', window, n) == Absorb(cache, a, window, n)
      && Repeats(cache, a', window, n) == Repeats(cache, a, window, n)
  {
    if n > 0 { PrefixIrrelevant(cache, now, ip, names, d, window, n - 1); }
  }

  /** Whether there is an incident, and that it is an active one of the address. */
  lemma {:induction false} IncidentKnown(incidents: seq<Incident>, a: Activity)
    ensures var (after, id) := CorrelateActivity(incidents, a);
      && (id.Some? <==> a.score >= 70 || |a.detections| >= 2 || |a.iocs| > 0 ||
                        exists i :: 0 <= i < |incidents| && a.ip in incidents[i].actors &&
                                    incidents[i].status in {Open, Investigating})
      && (id.Some? ==> id.value < |after| && a.ip in after[id.value].actors &&
                       after[id.value].status in {Open, Investigating} && after[id.value].riskScore >= a.score)
  {
    if j :| 0 <= j < |incidents| && a.ip in incidents[j].actors && incidents[j].status in {Open, Investigating} {
      IncidentAbsorbs(incidents, a, j);
    } else {
      IncidentOpensIff(incidents, a);
    }
  }

  /** A detector of the address fired. */
  ghost predicate Fired(e: SecurityEvent, detections: seq<DetectionResult>, key: Key) {
    key.0 == e.sourceIp &&
    exists i :: 0 <= i < |detections| && detections[i].detected && detections[i].detector == key.1
  }

  /** What one event leaves in the cache, before eviction, by its detections alone. */
  lemma {:induction false} AlertIsRemembered(cache: Cache, e: SecurityEvent, detections: seq<DetectionResult>,
                                             window: int, key: Key)
    ensures var a := AlertOf(e, detections);
      var after := Absorb(cache, a, window, |a.detectors|);
      && (key in after <==> key in cache || Fired(e, detections, key))
      && (key in after ==>
            after[key] == if Fired(e, detections, key) && !Recent(cache, key, e.timestamp, window) then e.timestamp
                          else cache[key])
  {
    var a := AlertOf(e, detections);
    AbsorbExactly(cache, a, window, |a.detectors|, key);
    TriggeredExplained(detections, key.1);
  }

  lemma {:induction false} AllRemembered(cache: Cache, e: SecurityEvent, detections: seq<DetectionResult>,
                                         window: int, after: Cache)
    requires after == Absorb(cache, AlertOf(e, detections), window, |AlertOf(e, detections).detectors|)
    ensures forall key :: key in after <==> key in cache || Fired(e, detections, key)
    ensures forall key :: key in after ==>
              after[key] == if Fired(e, detections, key) && !Recent(cache, key, e.timestamp, window) then e.timestamp
                            else cache[key]
  {
    forall key
      ensures key in after <==> key in cache || Fired(e, detections, key)
      ensures key in after ==>
                after[key] == if Fired(e, detections, key) && !Recent(cache, key, e.timestamp, window) then e.timestamp
                              else cache[key]
    {
      AlertIsRemembered(cache, e, detections, window, key);
    }
  }

  /** The event is a duplicate exactly when a detector that fired has a recent entry, or one
      fired twice, unless the event is at time zero or the window is empty. */
  lemma {:induction false} DuplicateIff(cache: Cache, e: SecurityEvent, detections: seq<DetectionResult>, window: int)
    ensures var a := AlertOf(e, detections);
      Repeats(cache, a, window, |a.detectors|) <==>
      || (exists i :: 0 <= i < |detections| && detections[i].detected &&
                      Recent(cache, (e.sourceIp, detections[i].detector), e.timestamp, window))
      || (e.timestamp != 0 && window > 0 && exists i, j :: BothFired(detections, i, j))
  {
    var a := AlertOf(e, detections);
    RepeatsExactly(cache, a, window, |a.detectors|);
    if i: nat, j: nat :| BothFired(detections, i, j) {
      var p, q := FiredTwice(detections, i, j);
      assert a.detectors[p] == a.detectors[q];
    }
    if p: nat, q: nat :| p < q < |a.detectors| && a.detectors[p] == a.detectors[q] {
      var i, j := NamedTwice(detections, p, q);
    }
    RecentFired(cache, e, detections, window);
  }

  lemma {:induction false} RecentFired(cache: Cache, e: SecurityEvent, detections: seq<DetectionResult>, window: int)
    ensures var names := Triggered(detections);
      (exists i :: 0 <= i < |names| && Recent(cache, (e.sourceIp, names[i]), e.timestamp, window)) <==>
      (exists i :: 0 <= i < |detections| && detections[i].detected &&
                   Recent(cache, (e.sourceIp, detections[i].detector), e.timestamp, window))
  {
    var names := Triggered(detections);
    if i :| 0 <= i < |names| && Recent(cache, (e.sourceIp, names[i]), e.timestamp, window) {
      TriggeredExplained(detections, names[i]);
    }
    if i :| 0 <= i < |detections| && detections[i].detected &&
            Recent(cache, (e.sourceIp, detections[i].detector), e.timestamp, window)
    {
      TriggeredExplained(detections, detections[i].detector);
      var k :| 0 <= k < |names| && names[k] == detections[i].detector;
      assert Recent(cache, (e.sourceIp, names[k]), e.timestamp, window);
    }
  }

  class IncidentStorage {
    var incidents: seq<Incident>

    constructor ()
      ensures incidents == []
    {
      incidents := [];
    }

    method SaveNew(i: Incident) returns (id: nat)
      modifies `incidents
      ensures id == |old(incidents)| && incidents == old(incidents) + [i]
    {
      id := |incidents|;
      incidents := incidents + [i];
    }

    method UpdateStatus(id: nat, status: IncidentStatus) returns (found: bool)
      modifies `incidents
      ensures found == (id < |old(incidents)|)
      ensures forall log :: Incidents.Exec(Ledger(old(incidents), log), SetStatus(id, status)) == Ledger(incidents, log)
      ensures |incidents| == |old(incidents)| && forall i :: 0 <= i < |incidents| ==>
                incidents[i] == if i == id then old(incidents)[i].(status := status) else old(incidents)[i]
    {
      found := id < |incidents|;
      if found { incidents := incidents[id := incidents[id].(status := status)]; }
    }
  }

  class CorrelationEngine {
    const storage: IncidentStorage
    const dedupWindow: int
    var recentAlerts: Cache

    constructor (storage: IncidentStorage, dedupWindowSeconds: int)
      ensures this.storage == storage && dedupWindow == dedupWindowSeconds * SECOND && recentAlerts == map[]
    {
      this.storage := storage;
      this.dedupWindow := dedupWindowSeconds * SECOND;
      recentAlerts := map[];
    }

    /** Looks every triggered detector up in the cache, remembering the new ones. */
    method CheckDuplicates(event: SecurityEvent, detections: seq<DetectionResult>) returns (isDuplicate: bool)
      modifies `recentAlerts
      ensures var a := AlertOf(event, detections);
        recentAlerts == Absorb(old(recentAlerts), a, dedupWindow, |a.detectors|) &&
        isDuplicate == Repeats(old(recentAlerts), a, dedupWindow, |a.detectors|)
      ensures forall key :: key in recentAlerts <==> key in old(recentAlerts) || Fired(event, detections, key)
      ensures forall key :: key in recentAlerts ==>
                recentAlerts[key] ==
                  if Fired(event, detections, key) && !Recent(old(recentAlerts), key, event.timestamp, dedupWindow)
                  then event.timestamp else old(recentAlerts)[key]
    {
      var nowTs := event.timestamp;
      isDuplicate := false;
      for i := 0 to |detections|
        invariant var a := AlertOf(event, detections[..i]);
          recentAlerts == Absorb(old(recentAlerts), a, dedupWindow, |a.detectors|) &&
          isDuplicate == Repeats(old(recentAlerts), a, dedupWindow, |a.detectors|)
      {
        assert detections[..i + 1][..i] == detections[..i];
        var d := detections[i];
        ghost var names := Triggered(detections[..i]);
        assert Triggered(detections[..i + 1]) == if d.detected then names + [d.detector] else names;
        if d.detected {
          AbsorbOneMore(old(recentAlerts), nowTs, event.sourceIp, names, d.detector, dedupWindow);
          var key := (event.sourceIp, d.detector);
          if key in recentAlerts && recentAlerts[key] != 0 && nowTs - recentAlerts[key] < dedupWindow {
            isDuplicate := true;
          } else {
            recentAlerts := recentAlerts[key := nowTs];
          }
        }
      }
      assert detections[..|detections|] == detections;
      AllRemembered(old(recentAlerts), event, detections, dedupWindow, recentAlerts);
    }

    /** Collects the stale keys, then deletes them one by one. */
    method CleanDedupCache(currentTs: int)
      modifies `recentAlerts
      ensures recentAlerts == Clean(old(recentAlerts), currentTs, dedupWindow)
    {
      var cutoff := currentTs - dedupWindow * 2;
      var stale := set k | k in recentAlerts && recentAlerts[k] < cutoff;
      while stale != {}
        invariant stale <= recentAlerts.Keys
        invariant forall k :: k in recentAlerts ==>
                    k in old(recentAlerts) && recentAlerts[k] == old(recentAlerts)[k] &&
                    (k in stale <==> recentAlerts[k] < cutoff)
        invariant forall k :: k in old(recentAlerts) && old(recentAlerts)[k] >= cutoff ==> k in recentAlerts
        decreases |stale|
      {
        var k :| k in stale;
        recentAlerts := recentAlerts - {k};
        stale := stale - {k};
      }
    }

    method CollectTechniques(detections: seq<DetectionResult>) returns (techniques: set<Technique>)
      ensures techniques == TechniquesOf(detections)
    {
      techniques := {};
      for i := 0 to |detections|
        invariant techniques == TechniquesOf(detections[..i])
      {
        assert detections[..i + 1][..i] == detections[..i];
        var t := TechniqueOf(detections[i].detector);
        if t.Some? && t.value !in techniques { techniques := techniques + {t.value}; }
      }
      assert detections[..|detections|] == detections;
    }

    /** Merge into the active incident of the address, or open one when warranted. */
    method CorrelateIncident(a: Activity, techniques: set<Technique>) returns (id: Option<nat>)
      requires techniques == TechniquesOf(a.detections)
      modifies storage`incidents
      ensures (storage.incidents, id) == CorrelateActivity(old(storage.incidents), a)
      ensures id.Some? <==> a.score >= 70 || |a.detections| >= 2 || |a.iocs| > 0 ||
                            exists i :: 0 <= i < |old(storage.incidents)| && a.ip in old(storage.incidents)[i].actors &&
                                        old(storage.incidents)[i].status in {Open, Investigating}
      ensures id.Some? ==>
                && id.value < |storage.incidents| && a.ip in storage.incidents[id.value].actors
                && storage.incidents[id.value].status in {Open, Investigating}
                && storage.incidents[id.value].riskScore >= a.score
    {
      IncidentKnown(storage.incidents, a);
      id := FindActive(storage.incidents, a.ip);
      var shouldCreate := a.score >= 70 || |a.detections| >= 2 || |a.iocs| > 0;
      if id.None? && shouldCreate {
        var row := storage.SaveNew(Incident({a.ip}, Open, a.severity, a.score, a.openedAt, techniques, IocIds(a.iocs)));
        id := Some(row);
      } else if id.Some? {
        var incident := storage.incidents[id.value];
        incident := incident.(lastSeen := a.time);
        if a.score > incident.riskScore { incident := incident.(riskScore := a.score); }
        if a.severity == High || a.severity == Critical { incident := incident.(severity := a.severity); }
        var iocs := incident.iocs;
        for i := 0 to |a.iocs|
          invariant iocs == incident.iocs + IocIds(a.iocs[..i])
          invariant storage.incidents == old(storage.incidents)
        {
          IocIdsGrow(a.iocs, i);
          iocs := iocs + {a.iocs[i].iocId};
        }
        assert a.iocs[..|a.iocs|] == a.iocs;
        incident := incident.(techniques := incident.techniques + techniques, iocs := iocs);
        storage.incidents := storage.incidents[id.value := incident];
      }
    }

    method Correlate(event: SecurityEvent, detections: seq<DetectionResult>, iocs: seq<Ioc>, actor: Profile, now: int)
      returns (incident: Option<nat>, isDuplicate: bool)
      modifies `recentAlerts, storage`incidents
      ensures recentAlerts == After(old(recentAlerts), AlertOf(event, detections), dedupWindow, true)
      ensures forall k :: k in recentAlerts ==> recentAlerts[k] >= event.timestamp - dedupWindow * 2
      ensures [isDuplicate] == Answers(old(recentAlerts), dedupWindow, [AlertOf(event, detections)], true)
      ensures isDuplicate <==>
              || (exists i :: 0 <= i < |detections| && detections[i].detected &&
                              Recent(old(recentAlerts), (event.sourceIp, detections[i].detector), event.timestamp,
                                     dedupWindow))
              || (event.timestamp != 0 && dedupWindow > 0 && exists i, j :: BothFired(detections, i, j))
      ensures (storage.incidents, incident) ==
              CorrelateActivity(old(storage.incidents),
                                Activity(event.sourceIp, event.timestamp, now, detections, iocs,
                                         actor.threatScore, actor.severity))
      ensures incident.Some? <==>
                actor.threatScore >= 70 || |detections| >= 2 || |iocs| > 0 ||
                exists i :: 0 <= i < |old(storage.incidents)| &&
                            event.sourceIp in old(storage.incidents)[i].actors &&
                            old(storage.incidents)[i].status in {Open, Investigating}
      ensures incident.Some? ==>
                && incident.value < |storage.incidents| && event.sourceIp in storage.incidents[incident.value].actors
                && storage.incidents[incident.value].status in {Open, Investigating}
    {
      var techniques := CollectTechniques(detections);
      isDuplicate := CheckDuplicates(event, detections);
      CleanDedupCache(event.timestamp);
      DuplicateIff(old(recentAlerts), event, detections, dedupWindow);
      incident := CorrelateIncident(
        Activity(event.sourceIp, event.timestamp, now, detections, iocs, actor.threatScore, actor.severity),
        techniques);
    }
  }

  lemma {:induction false} IocIdsGrow(iocs: seq<Ioc>, i: nat)
    requires i < |iocs|
    ensures IocIds(iocs[..i + 1]) == IocIds(iocs[..i]) + {iocs[i].iocId}
  {
  }
}
