/** What a timeline holds, in terms of the stored rows alone: every entry is a row of the
    address, no row shows more often than it is stored, and rows of others never matter. */
module Contents {
  import opened Domain
  import opened Timeline

  /** How often an entry stands for a row of a table of its kind. */
  ghost function InTable(kind: Kind, table: seq<Row>, ip: Ip, e: Entry): nat {
    if e.kind == kind && e.incident == None then multiset(table)[Row(e.at, ip, e.text)] else 0
  }

  ghost function BanOccurs(ev: Evidence, ip: Ip, e: Entry): nat {
    if e.kind == ResponseEntry && e.incident == None && ip in ev.activeBans &&
       ev.activeBans[ip].at == e.at && ev.activeBans[ip].text == e.text
    then 1 else 0
  }

  /** How often an entry about an address is stored: as rows of its kind's table, with the
      address, the time and the text, or as the active ban. */
  ghost function Occurrences(ev: Evidence, ip: Ip, e: Entry): nat {
    InTable(EventEntry, ev.events, ip, e) + InTable(DetectionEntry, ev.detections, ip, e)
    + InTable(RiskChange, ev.scores, ip, e) + InTable(ResponseEntry, ev.audits, ip, e) + BanOccurs(ev, ip, e)
  }

  /** Where among its first `n` rows a table has rows of an address. */
  ghost function Places(table: seq<Row>, n: nat, ip: Ip): set<nat>
    requires n <= |table|
  {
    set k: nat | k < n && table[k].ip == ip
  }

  /** The number of rows of an address. */
  ghost function RowsHeld(table: seq<Row>, ip: Ip): nat {
    |Places(table, |table|, ip)|
  }

  /** The number of everything stored about an address. */
  ghost function Held(ev: Evidence, ip: Ip): nat {
    RowsHeld(ev.events, ip) + RowsHeld(ev.detections, ip) + RowsHeld(ev.scores, ip) + RowsHeld(ev.audits, ip)
    + if ip in ev.activeBans then 1 else 0
  }

  // ---------------------------------------------------------------- tables

  lemma {:induction false} RowsCounted(table: seq<Row>, ip: Ip, row: Row)
    ensures multiset(RowsFor(table, ip))[row] == if row.ip == ip then multiset(table)[row] else 0
  {
    if table != [] {
      var before, last := table[..|table| - 1], table[|table| - 1];
      RowsCounted(before, ip, row);
      assert table == before + [last];
    }
  }

  lemma {:induction false} RowsNumber(table: seq<Row>, n: nat, ip: Ip)
    requires n <= |table|
    ensures |RowsFor(table[..n], ip)| == |Places(table, n, ip)|
  {
    if n == 0 {
      assert Places(table, n, ip) == {};
    } else {
      RowsNumber(table, n - 1, ip);
      assert table[..n][..n - 1] == table[..n - 1];
      assert Places(table, n, ip) == Places(table, n - 1, ip) + if table[n - 1].ip == ip then {n - 1} else {};
    }
  }

  lemma {:induction false} RowsMine(table: seq<Row>, ip: Ip)
    ensures forall k :: 0 <= k < |RowsFor(table, ip)| ==> RowsFor(table, ip)[k].ip == ip
  {
    if table != [] { RowsMine(table[..|table| - 1], ip); }
  }

  lemma {:induction false} CountSnoc<T>(items: seq<T>, last: T, x: T)
    ensures multiset(items + [last])[x] == multiset(items)[x] + if x == last then 1 else 0
  {
  }

  /** Each row of an address is one entry of its table's kind. */
  lemma {:induction false} EntriesCounted(kind: Kind, rows: seq<Row>, ip: Ip, e: Entry)
    requires forall k :: 0 <= k < |rows| ==> rows[k].ip == ip
    ensures multiset(AsEntries(kind, rows))[e] == InTable(kind, rows, ip, e)
  {
    if rows != [] {
      var before, last := rows[..|rows| - 1], rows[|rows| - 1];
      EntriesCounted(kind, before, ip, e);
      assert rows == before + [last];
      CountSnoc(before, last, Row(e.at, ip, e.text));
      CountSnoc(AsEntries(kind, before), Entry(last.at, kind, last.text, None), e);
    }
  }

  lemma {:induction false} TableCounted(kind: Kind, table: seq<Row>, ip: Ip, e: Entry)
    ensures multiset(AsEntries(kind, RowsFor(table, ip)))[e] == InTable(kind, table, ip, e)
    ensures |AsEntries(kind, RowsFor(table, ip))| == RowsHeld(table, ip)
  {
    RowsMine(table, ip);
    EntriesCounted(kind, RowsFor(table, ip), ip, e);
    RowsCounted(table, ip, Row(e.at, ip, e.text));
    EntriesAt(kind, RowsFor(table, ip));
    RowsNumber(table, |table|, ip);
    assert table[..|table|] == table;
  }

  // ---------------------------------------------------------------- rearranging

  lemma {:induction false} InsertCounted(sorted: seq<Entry>, e: Entry)
    ensures multiset(Insert(sorted, e)) == multiset(sorted) + multiset{e}
  {
    if sorted != [] {
      var before, last := sorted[..|sorted| - 1], sorted[|sorted| - 1];
      assert sorted == before + [last];
      if last.at > e.at { InsertCounted(before, e); }
    }
  }

  lemma {:induction false} SortCounted(entries: seq<Entry>)
    ensures multiset(SortByTime(entries)) == multiset(entries)
  {
    if entries != [] {
      var before, last := entries[..|entries| - 1], entries[|entries| - 1];
      assert entries == before + [last];
      SortCounted(before);
      InsertCounted(SortByTime(before), last);
    }
  }

  lemma {:induction false} ReversedCounted(entries: seq<Entry>)
    ensures multiset(Reversed(entries)) == multiset(entries)
  {
    if entries != [] {
      var before, last := entries[..|entries| - 1], entries[|entries| - 1];
      assert entries == before + [last];
      ReversedCounted(before);
    }
  }

  /** The last entries are a part of all, and all of them when there are no more. */
  lemma {:induction false} LastCounted(entries: seq<Entry>, n: nat, e: Entry)
    ensures multiset(Last(entries, n))[e] <= multiset(entries)[e]
    ensures n >= |entries| ==> Last(entries, n) == entries
    ensures |Last(entries, n)| == if n < |entries| then n else |entries|
  {
    LastIsSlice(entries, n);
    if n < |entries| {
      assert entries == entries[..|entries| - n] + entries[|entries| - n..];
    }
  }

  /** A query gives at most what is stored, and all of it within the limit. */
  lemma {:induction false} LatestCounted(entries: seq<Entry>, limit: int, e: Entry)
    ensures multiset(Latest(entries, limit))[e] <= multiset(entries)[e]
    ensures limit < 0 || limit >= |entries| ==> multiset(Latest(entries, limit))[e] == multiset(entries)[e]
    ensures |Latest(entries, limit)| == if 0 <= limit < |entries| then limit else |entries|
  {
    var kept := if limit < 0 then entries else Last(entries, limit);
    if limit >= 0 { LastCounted(entries, limit, e); }
    ReversedCounted(kept);
    ReversedLength(kept);
  }

  lemma {:induction false} FiveCounted(a: seq<Entry>, b: seq<Entry>, c: seq<Entry>, d: seq<Entry>, f: seq<Entry>,
                                       e: Entry)
    ensures var all := Flatten([a, b, c, d, f]);
      && multiset(all)[e] == multiset(a)[e] + multiset(b)[e] + multiset(c)[e] + multiset(d)[e] + multiset(f)[e]
      && |all| == |a| + |b| + |c| + |d| + |f|
  {
    FlattenFive(a, b, c, d, f);
  }

  // ---------------------------------------------------------------- one address

  lemma {:induction false} BanCounted(ev: Evidence, ip: Ip, e: Entry)
    ensures multiset(BanOf(ev, ip))[e] == BanOccurs(ev, ip, e)
    ensures |BanOf(ev, ip)| == if ip in ev.activeBans then 1 else 0
  {
  }

  /** Everything stored about an address is exactly what its rows say. */
  lemma {:induction false} EverythingIsStored(ev: Evidence, ip: Ip, e: Entry)
    ensures multiset(Everything(ev, ip))[e] == Occurrences(ev, ip, e)
    ensures |Everything(ev, ip)| == Held(ev, ip)
  {
    TableCounted(EventEntry, ev.events, ip, e);
    TableCounted(DetectionEntry, ev.detections, ip, e);
    TableCounted(RiskChange, ev.scores, ip, e);
    TableCounted(ResponseEntry, ev.audits, ip, e);
    BanCounted(ev, ip, e);
    FiveCounted(EventsOf(ev, ip), DetectionsOf(ev, ip), ScoresOf(ev, ip), BanOf(ev, ip), AuditsOf(ev, ip), e);
  }

  lemma {:induction false} AuditsKept(audits: seq<Entry>, limit: int, e: Entry)
    ensures var kept := Latest(SortByTime(audits), limit);
      && multiset(kept)[e] <= multiset(audits)[e]
      && (limit < 0 || limit >= |audits| ==> multiset(kept)[e] == multiset(audits)[e])
      && |kept| == if 0 <= limit < |audits| then limit else |audits|
  {
    SortCounted(audits);
    SortLength(audits);
    LatestCounted(SortByTime(audits), limit, e);
  }

  /** What the queries keep: no entry more often than it is stored, and each as often
      without a limit or within it. */
  lemma {:induction false} GatheredCounted(ev: Evidence, ip: Ip, limit: int, e: Entry)
    ensures multiset(Gathered(ev, ip, limit))[e] <= Occurrences(ev, ip, e)
    ensures limit < 0 || limit >= Held(ev, ip) ==> multiset(Gathered(ev, ip, limit))[e] == Occurrences(ev, ip, e)
  {
    GatheredParts(EventsOf(ev, ip), DetectionsOf(ev, ip), ScoresOf(ev, ip), BanOf(ev, ip), AuditsOf(ev, ip), limit, e);
    EverythingIsStored(ev, ip, e);
  }

  lemma {:induction false} GatheredParts(a: seq<Entry>, b: seq<Entry>, c: seq<Entry>, d: seq<Entry>, f: seq<Entry>,
                                         limit: int, e: Entry)
    ensures var all, kept := Flatten([a, b, c, d, f]),
                             Flatten([Latest(a, limit), Latest(b, limit), Latest(c, limit), d,
                                      Latest(SortByTime(f), limit)]);
      && multiset(kept)[e] <= multiset(all)[e]
      && (limit < 0 || limit >= |all| ==> multiset(kept)[e] == multiset(all)[e])
      && |kept| <= |all| && (limit < 0 ==> |kept| == |all|)
      && (limit >= 0 ==> |kept| >= if limit < |all| then limit else |all|)
  {
    FiveCounted(a, b, c, d, f, e);
    FiveCounted(Latest(a, limit), Latest(b, limit), Latest(c, limit), d, Latest(SortByTime(f), limit), e);
    LatestCounted(a, limit, e);
    LatestCounted(b, limit, e);
    LatestCounted(c, limit, e);
    AuditsKept(f, limit, e);
  }

  /** In number they keep what the limit asks for, as far as it is stored. */
  lemma {:induction false} GatheredNumber(ev: Evidence, ip: Ip, limit: int)
    ensures var number := |Gathered(ev, ip, limit)|;
      number <= Held(ev, ip) && (limit < 0 ==> number == Held(ev, ip)) &&
      (limit >= 0 ==> number >= if limit < Held(ev, ip) then limit else Held(ev, ip))
  {
    var e := Entry(0, EventEntry, "", None);
    GatheredParts(EventsOf(ev, ip), DetectionsOf(ev, ip), ScoresOf(ev, ip), BanOf(ev, ip), AuditsOf(ev, ip), limit, e);
    EverythingIsStored(ev, ip, e);
  }

  lemma {:induction false} TailCounted(entries: seq<Entry>, limit: int, e: Entry)
    ensures var shown := Tail(SortByTime(entries), limit);
      && multiset(shown)[e] <= multiset(entries)[e]
      && (limit >= |entries| ==> multiset(shown)[e] == multiset(entries)[e])
      && Ascending(shown)
      && |shown| == if limit == 0 then |entries| else if limit > 0 then (if limit < |entries| then limit else |entries|)
                    else if |entries| + limit > 0 then |entries| + limit else 0
  {
    var sorted := SortByTime(entries);
    SortCounted(entries);
    SortLength(entries);
    SortAscending(entries);
    if limit > 0 {
      LastCounted(sorted, limit, e);
      LastAscending(sorted, limit);
    } else if -limit < |sorted| {
      LastCounted(sorted, |sorted| + limit, e);
      LastAscending(sorted, |sorted| + limit);
    }
  }

  /** The timeline of an address is in time order, shows as many entries as the limit and
      the stored rows allow, and none more often than it is stored. */
  lemma {:induction false} ShownIsStored(ev: Evidence, ip: Ip, limit: int, e: Entry)
    ensures var shown := GenerateForIp(ev, ip, limit);
      && Ascending(shown)
      && multiset(shown)[e] <= Occurrences(ev, ip, e)
      && (limit > 0 ==> |shown| == if limit < Held(ev, ip) then limit else Held(ev, ip))
      && (limit == 0 ==> |shown| == if ip in ev.activeBans then 1 else 0)
      && (limit < 0 ==> |shown| == if Held(ev, ip) + limit > 0 then Held(ev, ip) + limit else 0)
  {
    GatheredNumber(ev, ip, limit);
    GatheredCounted(ev, ip, limit, e);
    TailCounted(Gathered(ev, ip, limit), limit, e);
    if limit == 0 { ZeroLimitShowsBan(ev, ip); }
  }

  /** Within the limit it shows each entry exactly as often as it is stored. */
  lemma {:induction false} AllIsShown(ev: Evidence, ip: Ip, limit: int, e: Entry)
    requires limit >= Held(ev, ip) && limit > 0
    ensures multiset(GenerateForIp(ev, ip, limit))[e] == Occurrences(ev, ip, e)
  {
    GatheredNumber(ev, ip, limit);
    GatheredCounted(ev, ip, limit, e);
    TailCounted(Gathered(ev, ip, limit), limit, e);
  }

  lemma {:induction false} TailSplits(sorted: seq<Entry>, limit: int) returns (dropped: seq<Entry>)
    requires limit < 0
    ensures dropped + Tail(sorted, limit) == sorted
    ensures |dropped| == if -limit < |sorted| then -limit else |sorted|
  {
    TailIsSlice(sorted, limit);
    dropped := sorted[..if -limit < |sorted| then -limit else |sorted|];
  }

  /** With a negative limit the slice drops that many entries from the front, and these
      and the shown ones together are all that is stored, in time order. */
  lemma {:induction false} NegativeLimitDrops(ev: Evidence, ip: Ip, limit: int) returns (dropped: seq<Entry>)
    requires limit < 0
    ensures var all := dropped + GenerateForIp(ev, ip, limit);
      && Ascending(all) && |dropped| == (if -limit < Held(ev, ip) then -limit else Held(ev, ip))
      && forall e :: multiset(all)[e] == Occurrences(ev, ip, e)
  {
    var gathered := Gathered(ev, ip, limit);
    GatheredNumber(ev, ip, limit);
    SortLength(gathered);
    SortAscending(gathered);
    SortCounted(gathered);
    dropped := TailSplits(SortByTime(gathered), limit);
    forall e ensures multiset(gathered)[e] == Occurrences(ev, ip, e) { GatheredCounted(ev, ip, limit, e); }
  }

  /** The stored row, or the active ban, that an entry about an address stands for. */
  ghost predicate Stored(ev: Evidence, ip: Ip, e: Entry) {
    var row := Row(e.at, ip, e.text);
    match e.kind
    case EventEntry => row in ev.events
    case DetectionEntry => row in ev.detections
    case RiskChange => row in ev.scores
    case ResponseEntry =>
      row in ev.audits ||
      (ip in ev.activeBans && ev.activeBans[ip].at == e.at && ev.activeBans[ip].text == e.text)
    case IncidentUpdate => false
  }

  /** Every entry shown is stored about the address. */
  lemma {:induction false} ShownHasRow(ev: Evidence, ip: Ip, limit: int, e: Entry)
    requires e in GenerateForIp(ev, ip, limit)
    ensures e.incident == None && Stored(ev, ip, e)
  {
    ShownIsStored(ev, ip, limit, e);
    assert multiset(GenerateForIp(ev, ip, limit))[e] > 0;
  }

  // ---------------------------------------------------------------- rows of others

  lemma {:induction false} RowsForConcat(a: seq<Row>, b: seq<Row>, ip: Ip)
    ensures RowsFor(a + b, ip) == RowsFor(a, ip) + RowsFor(b, ip)
  {
    if b == [] {
      assert a + b == a;
    } else {
      var before, last := b[..|b| - 1], b[|b| - 1];
      RowsForConcat(a, before, ip);
      assert (a + b)[..|a + b| - 1] == a + before;
    }
  }

  function Inserted(table: seq<Row>, i: nat, row: Row): seq<Row>
    requires i <= |table|
  {
    table[..i] + [row] + table[i..]
  }

  lemma {:induction false} RowsForInserted(table: seq<Row>, i: nat, row: Row, ip: Ip)
    requires i <= |table| && row.ip != ip
    ensures RowsFor(Inserted(table, i, row), ip) == RowsFor(table, ip)
  {
    RowsForConcat(table[..i] + [row], table[i..], ip);
    RowsForConcat(table[..i], [row], ip);
    RowsForConcat(table[..i], table[i..], ip);
    assert table[..i] + table[i..] == table;
  }

  /** What two stores say about an address. */
  ghost predicate AlikeFor(a: Evidence, b: Evidence, ip: Ip) {
    && RowsFor(a.events, ip) == RowsFor(b.events, ip) && RowsFor(a.detections, ip) == RowsFor(b.detections, ip)
    && RowsFor(a.scores, ip) == RowsFor(b.scores, ip) && RowsFor(a.audits, ip) == RowsFor(b.audits, ip)
    && (ip in a.activeBans <==> ip in b.activeBans)
    && (ip in a.activeBans ==> a.activeBans[ip] == b.activeBans[ip])
  }

  lemma {:induction false} AlikeShown(a: Evidence, b: Evidence, ip: Ip, limit: int)
    requires AlikeFor(a, b, ip)
    ensures GenerateForIp(a, ip, limit) == GenerateForIp(b, ip, limit)
  {
    assert BanOf(a, ip) == BanOf(b, ip);
    assert LimitedSources(a, ip, limit) == LimitedSources(b, ip, limit);
  }

  /** The second store has one more row of the other address somewhere in its tables, or
      another ban of it. */
  ghost predicate OtherRow(a: Evidence, b: Evidence, other: Ip) {
    || (exists i: nat, at, text :: i <= |a.events| && b == a.(events := Inserted(a.events, i, Row(at, other, text))))
    || (exists i: nat, at, text ::
          i <= |a.detections| && b == a.(detections := Inserted(a.detections, i, Row(at, other, text))))
    || (exists i: nat, at, text :: i <= |a.scores| && b == a.(scores := Inserted(a.scores, i, Row(at, other, text))))
    || (exists i: nat, at, text :: i <= |a.audits| && b == a.(audits := Inserted(a.audits, i, Row(at, other, text))))
    || (b == a.(activeBans := b.activeBans) && a.activeBans - {other} == b.activeBans - {other})
  }

  lemma {:induction false} OtherRowAlike(a: Evidence, b: Evidence, other: Ip, ip: Ip)
    requires OtherRow(a, b, other) && other != ip
    ensures AlikeFor(a, b, ip)
  {
    if i: nat, at, text :| i <= |a.events| && b == a.(events := Inserted(a.events, i, Row(at, other, text))) {
      RowsForInserted(a.events, i, Row(at, other, text), ip);
    } else if i: nat, at, text :|
      i <= |a.detections| && b == a.(detections := Inserted(a.detections, i, Row(at, other, text))) {
      RowsForInserted(a.detections, i, Row(at, other, text), ip);
    } else if i: nat, at, text :| i <= |a.scores| && b == a.(scores := Inserted(a.scores, i, Row(at, other, text))) {
      RowsForInserted(a.scores, i, Row(at, other, text), ip);
    } else if i: nat, at, text :| i <= |a.audits| && b == a.(audits := Inserted(a.audits, i, Row(at, other, text))) {
      RowsForInserted(a.audits, i, Row(at, other, text), ip);
    } else {
      assert ip in a.activeBans <==> ip in a.activeBans - {other};
      assert ip in b.activeBans <==> ip in b.activeBans - {other};
      assert ip in a.activeBans ==> (a.activeBans - {other})[ip] == (b.activeBans - {other})[ip];
    }
  }

  /** A row of another address, inserted or deleted anywhere, changes nothing. */
  lemma {:induction false} OthersAreInvisible(a: Evidence, b: Evidence, other: Ip, ip: Ip, limit: int)
    requires OtherRow(a, b, other) && other != ip
    ensures GenerateForIp(a, ip, limit) == GenerateForIp(b, ip, limit)
  {
    OtherRowAlike(a, b, other, ip);
    AlikeShown(a, b, ip, limit);
  }

  /** Nor does one of an address that is not among an incident's actors. */
  lemma {:induction false} OthersNotInIncident(a: Evidence, b: Evidence, other: Ip, incident: string, limit: int)
    requires OtherRow(a, b, other)
    requires incident in a.incidents ==> other !in a.incidents[incident].actors
    ensures GenerateForIncident(a, incident, limit) == GenerateForIncident(b, incident, limit)
  {
    assert a.incidents == b.incidents;
    if incident in a.incidents {
      var actors := a.incidents[incident].actors;
      forall i | 0 <= i < |actors| ensures GenerateForIp(a, actors[i], limit) == GenerateForIp(b, actors[i], limit) {
        OthersAreInvisible(a, b, other, actors[i], limit);
      }
      assert TimelinesOf(a, actors, limit) == TimelinesOf(b, actors, limit);
      assert Creation(a, incident) == Creation(b, incident);
    }
  }

  // ---------------------------------------------------------------- one incident

  ghost function Sum(numbers: seq<nat>, n: nat): nat
    requires n <= |numbers|
  {
    if n == 0 then 0 else Sum(numbers, n - 1) + numbers[n - 1]
  }

  /** How much is stored about each of some actors, and how often an entry is. */
  ghost function HeldOf(ev: Evidence, actors: seq<Ip>): seq<nat> {
    seq(|actors|, i requires 0 <= i < |actors| => Held(ev, actors[i]))
  }

  ghost function OccurrencesOf(ev: Evidence, actors: seq<Ip>, incident: string, e: Entry): seq<nat> {
    seq(|actors|, i requires 0 <= i < |actors| =>
      if e.incident == Some(incident) then Occurrences(ev, actors[i], e.(incident := None)) else 0)
  }

  /** How often an entry of an incident is stored: as its opening or about an actor. */
  ghost function IncidentOccurrences(ev: Evidence, incident: string, e: Entry): nat
    requires incident in ev.incidents
  {
    var c := ev.incidents[incident];
    Sum(OccurrencesOf(ev, c.actors, incident, e), |c.actors|)
    + if e == Entry(c.openedAt, IncidentUpdate, c.text, Some(incident)) then 1 else 0
  }

  lemma {:induction false} TaggedCounted(entries: seq<Entry>, incident: string, e: Entry)
    requires forall k :: 0 <= k < |entries| ==> entries[k].incident == None
    ensures multiset(Tagged(entries, incident))[e] ==
            if e.incident == Some(incident) then multiset(entries)[e.(incident := None)] else 0
  {
    if entries != [] {
      var before, last := entries[..|entries| - 1], entries[|entries| - 1];
      TaggedCounted(before, incident, e);
      assert entries == before + [last];
      assert Tagged(entries, incident) == Tagged(before, incident) + [last.(incident := Some(incident))];
    }
  }

  lemma {:induction false} ActorCounted(ev: Evidence, ip: Ip, limit: int, incident: string, e: Entry)
    ensures var part := multiset(Tagged(GenerateForIp(ev, ip, limit), incident));
      var stored := if e.incident == Some(incident) then Occurrences(ev, ip, e.(incident := None)) else 0;
      part[e] <= stored && (limit > 0 && limit >= Held(ev, ip) ==> part[e] == stored)
    ensures limit > 0 ==>
              |Tagged(GenerateForIp(ev, ip, limit), incident)| == if limit < Held(ev, ip) then limit else Held(ev, ip)
  {
    var shown := GenerateForIp(ev, ip, limit);
    forall k | 0 <= k < |shown| ensures shown[k].incident == None { ShownHasRow(ev, ip, limit, shown[k]); }
    TaggedCounted(shown, incident, e);
    ShownIsStored(ev, ip, limit, e.(incident := None));
    if limit > 0 && limit >= Held(ev, ip) { AllIsShown(ev, ip, limit, e.(incident := None)); }
  }

  /** Some first entries and the first `n` lists, one after the other. */
  function Joined(first: seq<Entry>, lists: seq<seq<Entry>>, n: nat): seq<Entry>
    requires n <= |lists|
  {
    if n == 0 then first else Joined(first, lists, n - 1) + lists[n - 1]
  }

  lemma {:induction false} JoinedNumber(first: seq<Entry>, lists: seq<seq<Entry>>, n: nat, held: seq<nat>, limit: int)
    requires n <= |lists| == |held|
    requires forall i :: 0 <= i < n ==> |lists[i]| == if limit < held[i] then limit else held[i]
    ensures var number, stored := |Joined(first, lists, n)|, |first| + Sum(held, n);
      number == stored || limit <= number <= stored
  {
    if n > 0 { JoinedNumber(first, lists, n - 1, held, limit); }
  }

  lemma {:induction false} JoinedCounted(first: seq<Entry>, lists: seq<seq<Entry>>, n: nat, held: seq<nat>,
                                         stored: seq<nat>, limit: int, e: Entry)
    requires n <= |lists| == |held| == |stored|
    requires forall i :: 0 <= i < n ==>
               multiset(lists[i])[e] <= stored[i] && (limit >= held[i] ==> multiset(lists[i])[e] == stored[i])
    ensures var shown, all := multiset(Joined(first, lists, n))[e], multiset(first)[e] + Sum(stored, n);
      shown <= all && (limit >= Sum(held, n) ==> shown == all)
  {
    if n > 0 { JoinedCounted(first, lists, n - 1, held, stored, limit, e); }
  }

  lemma {:induction false} JoinedIn(first: seq<Entry>, lists: seq<seq<Entry>>, n: nat, e: Entry)
    requires n <= |lists| && e in Joined(first, lists, n)
    ensures e in first || exists i :: 0 <= i < |lists| && e in lists[i]
  {
    if n > 0 && e !in lists[n - 1] { JoinedIn(first, lists, n - 1, e); }
  }

  /** What is shown of each actor, marked as the incident's. */
  function PartsOf(ev: Evidence, actors: seq<Ip>, limit: int, incident: string): seq<seq<Entry>> {
    seq(|actors|, i requires 0 <= i < |actors| => Tagged(GenerateForIp(ev, actors[i], limit), incident))
  }

  lemma {:induction false} FlattenJoined(first: seq<Entry>, lists: seq<seq<Entry>>, n: nat)
    requires n <= |lists|
    ensures Flatten([first] + lists[..n]) == Joined(first, lists, n)
  {
    if n == 0 {
      FlattenSnoc([], first);
      assert [first] + lists[..0] == [] + [first];
    } else {
      FlattenJoined(first, lists, n - 1);
      FlattenSnoc([first] + lists[..n - 1], lists[n - 1]);
      assert [first] + lists[..n] == [first] + lists[..n - 1] + [lists[n - 1]];
    }
  }

  lemma {:induction false} AttributedLists(first: seq<Entry>, entries: seq<seq<Entry>>, lists: seq<seq<Entry>>,
                                           incident: string)
    requires |lists| == |entries| && forall i :: 0 <= i < |entries| ==> lists[i] == Tagged(entries[i], incident)
    ensures Attributed(first, entries, incident) == [first] + lists
  {
    forall p: nat | p <= |entries| ensures Attributed(first, entries, incident)[p] == ([first] + lists)[p] {
      if p > 0 { assert lists[p - 1] == Tagged(entries[p - 1], incident); }
    }
  }

  lemma {:induction false} AttributedJoined(first: seq<Entry>, entries: seq<seq<Entry>>, lists: seq<seq<Entry>>,
                                            incident: string)
    requires |lists| == |entries| && forall i :: 0 <= i < |entries| ==> lists[i] == Tagged(entries[i], incident)
    ensures Flatten(Attributed(first, entries, incident)) == Joined(first, lists, |lists|)
  {
    AttributedLists(first, entries, lists, incident);
    FlattenJoined(first, lists, |lists|);
    assert lists[..|lists|] == lists;
  }

  lemma {:induction false} PartsJoined(ev: Evidence, first: seq<Entry>, actors: seq<Ip>, limit: int, incident: string)
    ensures Flatten(Attributed(first, TimelinesOf(ev, actors, limit), incident)) ==
            Joined(first, PartsOf(ev, actors, limit, incident), |actors|)
  {
    AttributedJoined(first, TimelinesOf(ev, actors, limit), PartsOf(ev, actors, limit, incident), incident);
  }

  lemma {:induction false} PartsCounted(ev: Evidence, actors: seq<Ip>, limit: int, incident: string, e: Entry)
    ensures var parts, held, stored :=
              PartsOf(ev, actors, limit, incident), HeldOf(ev, actors), OccurrencesOf(ev, actors, incident, e);
      forall i :: 0 <= i < |actors| ==>
        && multiset(parts[i])[e] <= stored[i]
        && (limit > 0 && limit >= held[i] ==> multiset(parts[i])[e] == stored[i])
        && (limit > 0 ==> |parts[i]| == if limit < held[i] then limit else held[i])
  {
    forall i | 0 <= i < |actors|
      ensures var part, held, stored :=
                PartsOf(ev, actors, limit, incident)[i], HeldOf(ev, actors)[i],
                OccurrencesOf(ev, actors, incident, e)[i];
        && multiset(part)[e] <= stored && (limit > 0 && limit >= held ==> multiset(part)[e] == stored)
        && (limit > 0 ==> |part| == if limit < held then limit else held)
    {
      ActorCounted(ev, actors[i], limit, incident, e);
    }
  }

  /** The timeline of an incident is in time order and shows no entry more often than it is
      stored. For a positive limit it shows as many as the limit and the stored rows of its
      actors allow, and within the limit each as often as it is stored. */
  lemma {:induction false} IncidentIsStored(ev: Evidence, incident: string, limit: int, e: Entry)
    requires incident in ev.incidents
    ensures var shown, actors := GenerateForIncident(ev, incident, limit), ev.incidents[incident].actors;
      var held := 1 + Sum(HeldOf(ev, actors), |actors|);
      && Ascending(shown) && multiset(shown)[e] <= IncidentOccurrences(ev, incident, e)
      && (limit > 0 ==> |shown| == if limit < held then limit else held)
      && (limit >= held ==> multiset(shown)[e] == IncidentOccurrences(ev, incident, e))
  {
    var first, actors := Creation(ev, incident), ev.incidents[incident].actors;
    var parts, held := PartsOf(ev, actors, limit, incident), HeldOf(ev, actors);
    var reach := if limit > 0 then limit else -1;
    PartsCounted(ev, actors, limit, incident, e);
    if limit > 0 { JoinedNumber(first, parts, |actors|, held, limit); }
    JoinedCounted(first, parts, |actors|, held, OccurrencesOf(ev, actors, incident, e), reach, e);
    PartsJoined(ev, first, actors, limit, incident);
    TailCounted(Joined(first, parts, |actors|), limit, e);
  }

  lemma {:induction false} PartHasRow(ev: Evidence, ip: Ip, limit: int, incident: string, e: Entry)
    requires e in Tagged(GenerateForIp(ev, ip, limit), incident)
    ensures e.incident == Some(incident) && Stored(ev, ip, e)
  {
    var timeline := GenerateForIp(ev, ip, limit);
    var k :| 0 <= k < |timeline| && e == timeline[k].(incident := Some(incident));
    ShownHasRow(ev, ip, limit, timeline[k]);
  }

  lemma {:induction false} TailIn(entries: seq<Entry>, limit: int, e: Entry)
    requires e in Tail(SortByTime(entries), limit)
    ensures e in entries
  {
    TailCounted(entries, limit, e);
    assert multiset(Tail(SortByTime(entries), limit))[e] > 0;
    assert e in multiset(entries);
  }

  /** The incident's opening, or stored about one of its actors. */
  ghost predicate OfIncident(ev: Evidence, incident: string, e: Entry) {
    && incident in ev.incidents
    && var c := ev.incidents[incident];
       || (e.at == c.openedAt && e.kind == IncidentUpdate && e.text == c.text)
       || exists i :: 0 <= i < |c.actors| && Stored(ev, c.actors[i], e)
  }

  /** At any limit each of its entries is its opening or stored about one of its actors. */
  lemma {:induction false} IncidentHasRow(ev: Evidence, incident: string, limit: int, e: Entry)
    requires e in GenerateForIncident(ev, incident, limit)
    ensures e.incident == Some(incident) && OfIncident(ev, incident, e)
  {
    var first, actors := Creation(ev, incident), ev.incidents[incident].actors;
    var parts := PartsOf(ev, actors, limit, incident);
    PartsJoined(ev, first, actors, limit, incident);
    TailIn(Joined(first, parts, |actors|), limit, e);
    PartsHaveRow(ev, first, actors, limit, incident, e);
  }

  lemma {:induction false} PartsHaveRow(ev: Evidence, first: seq<Entry>, actors: seq<Ip>, limit: int,
                                        incident: string, e: Entry)
    requires e in Joined(first, PartsOf(ev, actors, limit, incident), |actors|)
    ensures e in first || (e.incident == Some(incident) && exists i :: 0 <= i < |actors| && Stored(ev, actors[i], e))
  {
    var parts := PartsOf(ev, actors, limit, incident);
    JoinedIn(first, parts, |actors|, e);
    if e !in first {
      var i :| 0 <= i < |actors| && e in parts[i];
      PartHasRow(ev, actors[i], limit, incident, e);
    }
  }
}
