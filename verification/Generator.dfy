/** The timeline generator object: the four queries, the loops that turn rows into entries,
    and the final sort and cut, proved against `Timeline` and `Contents`. */
module Generator {
  import opened Domain
  import opened Timeline
  import opened Contents

  /** What `Contents` proves of one address's timeline. */
  lemma {:induction false} ForIpFacts(ev: Evidence, ip: Ip, limit: int)
    ensures var shown := GenerateForIp(ev, ip, limit);
      && Ascending(shown) && (forall e <- shown :: e.incident == None && Stored(ev, ip, e))
      && (limit > 0 ==> |shown| == if limit < Held(ev, ip) then limit else Held(ev, ip))
      && (limit > 0 && limit >= Held(ev, ip) ==> forall e :: multiset(shown)[e] == Occurrences(ev, ip, e))
  {
    var shown := GenerateForIp(ev, ip, limit);
    ShownIsStored(ev, ip, limit, Entry(0, EventEntry, "", None));
    forall e <- shown ensures e.incident == None && Stored(ev, ip, e) { ShownHasRow(ev, ip, limit, e); }
    if limit > 0 && limit >= Held(ev, ip) {
      forall e ensures multiset(shown)[e] == Occurrences(ev, ip, e) { AllIsShown(ev, ip, limit, e); }
    }
  }

  lemma {:induction false} ForIncidentFacts(ev: Evidence, incident: string, limit: int)
    ensures var shown := GenerateForIncident(ev, incident, limit);
      Ascending(shown) && forall e <- shown :: e.incident == Some(incident) && OfIncident(ev, incident, e)
  {
    if incident in ev.incidents { IncidentIsStored(ev, incident, limit, Entry(0, EventEntry, "", None)); }
    forall e <- GenerateForIncident(ev, incident, limit)
      ensures e.incident == Some(incident) && OfIncident(ev, incident, e)
    {
      IncidentHasRow(ev, incident, limit, e);
    }
  }

  class TimelineGenerator {
    var evidence: Evidence

    constructor (evidence: Evidence)
      ensures this.evidence == evidence
    {
      this.evidence := evidence;
    }

    /** Appends one entry per row. */
    method Append(entries: seq<Entry>, kind: Kind, rows: seq<Row>) returns (longer: seq<Entry>)
      ensures longer == entries + AsEntries(kind, rows)
    {
      longer := entries;
      for i := 0 to |rows|
        invariant longer == entries + AsEntries(kind, rows[..i])
      {
        assert rows[..i + 1][..i] == rows[..i];
        longer := longer + [Entry(rows[i].at, kind, rows[i].text, None)];
      }
      assert rows[..|rows|] == rows;
    }

    /** One entry per row of each result, source by source. */
    method Gather(events: seq<Row>, detections: seq<Row>, scores: seq<Row>, ban: seq<Entry>, audits: seq<Entry>)
      returns (entries: seq<Entry>)
      ensures entries == AsEntries(EventEntry, events) + AsEntries(DetectionEntry, detections)
                         + AsEntries(RiskChange, scores) + ban + audits
    {
      entries := Append([], EventEntry, events);
      entries := Append(entries, DetectionEntry, detections);
      entries := Append(entries, RiskChange, scores);
      entries := entries + ban + audits;
    }

    method ForIp(sourceIp: Ip, limit: int) returns (timeline: seq<Entry>)
      ensures timeline == GenerateForIp(evidence, sourceIp, limit)
      ensures Ascending(timeline)
      ensures forall e <- timeline :: e.incident == None && Stored(evidence, sourceIp, e)
      ensures limit > 0 ==> |timeline| == if limit < Held(evidence, sourceIp) then limit else Held(evidence, sourceIp)
      ensures limit > 0 && limit >= Held(evidence, sourceIp) ==>
                forall e :: multiset(timeline)[e] == Occurrences(evidence, sourceIp, e)
    {
      var ban: seq<Entry> := [];
      if sourceIp in evidence.activeBans {
        ban := [Entry(evidence.activeBans[sourceIp].at, ResponseEntry, evidence.activeBans[sourceIp].text, None)];
      }
      var audits := SortByTime(AsEntries(ResponseEntry, RowsFor(evidence.audits, sourceIp)));
      var entries := Gather(Latest(RowsFor(evidence.events, sourceIp), limit),
                            Latest(RowsFor(evidence.detections, sourceIp), limit),
                            Latest(RowsFor(evidence.scores, sourceIp), limit), ban, Latest(audits, limit));
      GatheredByRows(evidence, sourceIp, limit);
      entries := SortByTime(entries);
      timeline := Tail(entries, limit);
      ForIpFacts(evidence, sourceIp, limit);
    }

    /** Appends the entries of an actor, marked as belonging to the incident. */
    method AppendTagged(entries: seq<Entry>, actorEntries: seq<Entry>, incident: string) returns (longer: seq<Entry>)
      ensures longer == entries + Tagged(actorEntries, incident)
    {
      longer := entries;
      for i := 0 to |actorEntries|
        invariant longer == entries + Tagged(actorEntries, incident)[..i]
      {
        longer := longer + [actorEntries[i].(incident := Some(incident))];
      }
    }

    method ForIncident(incident: string, limit: int) returns (timeline: seq<Entry>)
      ensures timeline == GenerateForIncident(evidence, incident, limit)
      ensures Ascending(timeline)
      ensures incident !in evidence.incidents ==> timeline == []
      ensures forall e <- timeline :: e.incident == Some(incident) && OfIncident(evidence, incident, e)
    {
      ForIncidentFacts(evidence, incident, limit);
      if incident !in evidence.incidents {
        return [];
      }
      var relatedActors := evidence.incidents[incident].actors;
      var entries := [Entry(evidence.incidents[incident].openedAt, IncidentUpdate, evidence.incidents[incident].text,
                            Some(incident))];
      ghost var first, timelines := entries, TimelinesOf(evidence, relatedActors, limit);
      AttributedNone(first, incident);
      for i := 0 to |relatedActors|
        invariant entries == Flatten(Attributed(first, timelines[..i], incident))
      {
        var actorEntries := ForIp(relatedActors[i], limit);
        entries := AppendTagged(entries, actorEntries, incident);
        AttributedNext(first, timelines, i, incident);
      }
      assert timelines[..|relatedActors|] == timelines;
      entries := SortByTime(entries);
      timeline := Tail(entries, limit);
    }
  }
}
