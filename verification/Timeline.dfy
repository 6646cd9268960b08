/** Investigation timelines: a query for the latest entries is pushed down into four
    limited sources, merged, sorted and truncated again. */
module Timeline {
  import opened Domain

  datatype Kind = EventEntry | DetectionEntry | RiskChange | ResponseEntry | IncidentUpdate

  datatype Entry = Entry(at: int, kind: Kind, text: string, incident: Option<string>)

  /** A stored row; its position in the table is its insertion order. */
  datatype Row = Row(at: int, ip: Ip, text: string)

  /** What a stored incident contributes: its opening and its actors in order. */
  datatype Case = Case(openedAt: int, text: string, actors: seq<Ip>)

  datatype Evidence = Evidence(
    events: seq<Row>,
    detections: seq<Row>,
    scores: seq<Row>,
    audits: seq<Row>,
    activeBans: map<Ip, Row>,
    incidents: map<string, Case>)

  // ---------------------------------------------------------------- queries

  function RowsFor(table: seq<Row>, ip: Ip): seq<Row> {
    if table == [] then []
    else
      RowsFor(table[..|table| - 1], ip) +
      if table[|table| - 1].ip == ip then [table[|table| - 1]] else []
  }

  /** The last `n` of the first `i` items. */
  function LastOf<T>(items: seq<T>, i: nat, n: nat): seq<T>
    requires i <= |items|
  {
    if n == 0 || i == 0 then [] else LastOf(items, i - 1, n - 1) + [items[i - 1]]
  }

  /** The last `n` items, or all when there are fewer. */
  function Last<T>(items: seq<T>, n: nat): seq<T> {
    LastOf(items, |items|, n)
  }

  function Reversed<T>(items: seq<T>): seq<T> {
    if items == [] then [] else [items[|items| - 1]] + Reversed(items[..|items| - 1])
  }

  /** Descending order with a LIMIT: a negative limit is no limit. */
  function Latest<T>(items: seq<T>, limit: int): seq<T> {
    Reversed(if limit < 0 then items else Last(items, limit))
  }

  /** The slice `items[-limit:]`: a zero limit keeps everything, and a negative one
      drops that many items from the front. */
  function Tail(items: seq<Entry>, limit: int): seq<Entry> {
    if limit == 0 then items
    else if limit > 0 then Last(items, limit)
    else if -limit >= |items| then []
    else Last(items, |items| + limit)
  }

  function AsEntries(kind: Kind, rows: seq<Row>): seq<Entry> {
    if rows == [] then []
    else AsEntries(kind, rows[..|rows| - 1]) + [Entry(rows[|rows| - 1].at, kind, rows[|rows| - 1].text, None)]
  }

  // ---------------------------------------------------------------- sorting

  /** Stable insertion: after every entry that is not later. */
  function Insert(sorted: seq<Entry>, e: Entry): seq<Entry> {
    if sorted == [] then [e]
    else if sorted[|sorted| - 1].at <= e.at then sorted + [e]
    else Insert(sorted[..|sorted| - 1], e) + [sorted[|sorted| - 1]]
  }

  function SortByTime(entries: seq<Entry>): seq<Entry> {
    if entries == [] then []
    else Insert(SortByTime(entries[..|entries| - 1]), entries[|entries| - 1])
  }

  // ---------------------------------------------------------------- the two queries

  function EventsOf(ev: Evidence, ip: Ip): seq<Entry> { AsEntries(EventEntry, RowsFor(ev.events, ip)) }
  function DetectionsOf(ev: Evidence, ip: Ip): seq<Entry> { AsEntries(DetectionEntry, RowsFor(ev.detections, ip)) }
  function ScoresOf(ev: Evidence, ip: Ip): seq<Entry> { AsEntries(RiskChange, RowsFor(ev.scores, ip)) }
  function AuditsOf(ev: Evidence, ip: Ip): seq<Entry> { AsEntries(ResponseEntry, RowsFor(ev.audits, ip)) }
  function BanOf(ev: Evidence, ip: Ip): seq<Entry> {
    if ip in ev.activeBans then [Entry(ev.activeBans[ip].at, ResponseEntry, ev.activeBans[ip].text, None)] else []
  }

  /** All the entries of a list of sources, source by source. */
  function Flatten(sources: seq<seq<Entry>>): seq<Entry> {
    if sources == [] then [] else Flatten(sources[..|sources| - 1]) + sources[|sources| - 1]
  }

  /** Everything stored about an address, by source. */
  function Sources(ev: Evidence, ip: Ip): seq<seq<Entry>> {
    [EventsOf(ev, ip), DetectionsOf(ev, ip), ScoresOf(ev, ip), BanOf(ev, ip), AuditsOf(ev, ip)]
  }

  function Everything(ev: Evidence, ip: Ip): seq<Entry> {
    Flatten(Sources(ev, ip))
  }

  /** What the generator collects: each source but the ban limited to its latest
      entries. Audits are ordered by their own time, the others by insertion. */
  function LimitedSources(ev: Evidence, ip: Ip, limit: int): seq<seq<Entry>> {
    [Latest(EventsOf(ev, ip), limit), Latest(DetectionsOf(ev, ip), limit), Latest(ScoresOf(ev, ip), limit),
     BanOf(ev, ip), Latest(SortByTime(AuditsOf(ev, ip)), limit)]
  }

  function Gathered(ev: Evidence, ip: Ip, limit: int): seq<Entry> {
    Flatten(LimitedSources(ev, ip, limit))
  }

  function GenerateForIp(ev: Evidence, ip: Ip, limit: int): seq<Entry> {
    Tail(SortByTime(Gathered(ev, ip, limit)), limit)
  }

  function Tagged(entries: seq<Entry>, incident: string): seq<Entry> {
    seq(|entries|, i requires 0 <= i < |entries| => entries[i].(incident := Some(incident)))
  }

  /** An incident's sources: its own creation first, then the entries of each related
      actor, marked as the incident's. */
  function Attributed(first: seq<Entry>, entries: seq<seq<Entry>>, incident: string): seq<seq<Entry>> {
    seq(|entries| + 1, p requires 0 <= p <= |entries| => if p == 0 then first else Tagged(entries[p - 1], incident))
  }

  function TimelinesOf(ev: Evidence, actors: seq<Ip>, limit: int): seq<seq<Entry>> {
    seq(|actors|, i requires 0 <= i < |actors| => GenerateForIp(ev, actors[i], limit))
  }

  function HistoriesOf(ev: Evidence, actors: seq<Ip>): seq<seq<Entry>> {
    seq(|actors|, i requires 0 <= i < |actors| => Everything(ev, actors[i]))
  }

  /** The opening of the incident, as the only entry of a source. */
  function Creation(ev: Evidence, incident: string): seq<Entry>
    requires incident in ev.incidents
  {
    [Entry(ev.incidents[incident].openedAt, IncidentUpdate, ev.incidents[incident].text, Some(incident))]
  }

  /** The timeline of some first entries and some actors. */
  function TimelineFrom(ev: Evidence, first: seq<Entry>, actors: seq<Ip>, incident: string, limit: int): seq<Entry> {
    Tail(SortByTime(Flatten(Attributed(first, TimelinesOf(ev, actors, limit), incident))), limit)
  }

  /** Those entries and all that is stored about the actors, by source. */
  function SourcesFrom(ev: Evidence, first: seq<Entry>, actors: seq<Ip>, incident: string): seq<seq<Entry>> {
    Attributed(first, HistoriesOf(ev, actors), incident)
  }

  function WholeFrom(ev: Evidence, first: seq<Entry>, actors: seq<Ip>, incident: string): seq<Entry> {
    SortByTime(Flatten(SourcesFrom(ev, first, actors, incident)))
  }

  function GenerateForIncident(ev: Evidence, incident: string, limit: int): seq<Entry> {
    if incident !in ev.incidents then []
    else TimelineFrom(ev, Creation(ev, incident), ev.incidents[incident].actors, incident, limit)
  }

  /** The creation of an incident and all that is stored about its actors, in order. */
  function WholeIncident(ev: Evidence, incident: string): seq<Entry>
    requires incident in ev.incidents
  {
    WholeFrom(ev, Creation(ev, incident), ev.incidents[incident].actors, incident)
  }

  // ---------------------------------------------------------------- what sorting does

  ghost predicate Ascending(entries: seq<Entry>) {
    forall i, j :: 0 <= i < j < |entries| ==> entries[i].at <= entries[j].at
  }

  ghost predicate Strict(entries: seq<Entry>) {
    forall i, j :: 0 <= i < j < |entries| ==> entries[i].at < entries[j].at
  }

  ghost predicate SameTimes(a: seq<Entry>, b: seq<Entry>) {
    |a| == |b| && forall i :: 0 <= i < |a| ==> a[i].at == b[i].at
  }

  /** The entries of one instant, in their order. */
  function AtTime(entries: seq<Entry>, t: int): seq<Entry> {
    if entries == [] then []
    else AtTime(entries[..|entries| - 1], t) + if entries[|entries| - 1].at == t then [entries[|entries| - 1]] else []
  }

  lemma {:induction false} InsertStable(sorted: seq<Entry>, e: Entry, t: int)
    ensures AtTime(Insert(sorted, e), t) == AtTime(sorted + [e], t)
  {
    assert (sorted + [e])[..|sorted|] == sorted;
    if sorted != [] && sorted[|sorted| - 1].at > e.at {
      var before, last := sorted[..|sorted| - 1], sorted[|sorted| - 1];
      InsertStable(before, e, t);
      assert (before + [e])[..|before|] == before;
      assert (Insert(before, e) + [last])[..|Insert(before, e)|] == Insert(before, e);
    }
  }

  lemma {:induction false} InsertAscending(sorted: seq<Entry>, e: Entry)
    requires Ascending(sorted)
    ensures Ascending(Insert(sorted, e))
    ensures Insert(sorted, e)[|Insert(sorted, e)| - 1].at == (
      if sorted != [] && sorted[|sorted| - 1].at > e.at then sorted[|sorted| - 1].at else e.at)
  {
    if sorted != [] && sorted[|sorted| - 1].at > e.at {
      InsertAscending(sorted[..|sorted| - 1], e);
    }
  }

  lemma {:induction false} SortAscending(entries: seq<Entry>)
    ensures Ascending(SortByTime(entries))
  {
    if entries != [] {
      SortAscending(entries[..|entries| - 1]);
      InsertAscending(SortByTime(entries[..|entries| - 1]), entries[|entries| - 1]);
    }
  }

  /** Sorting is stable: it orders by time and keeps the entries of each instant as
      they were. */
  lemma {:induction false} SortStable(entries: seq<Entry>, t: int)
    ensures Ascending(SortByTime(entries))
    ensures AtTime(SortByTime(entries), t) == AtTime(entries, t)
  {
    SortAscending(entries);
    if entries != [] {
      var before, last := entries[..|entries| - 1], entries[|entries| - 1];
      SortStable(before, t);
      InsertStable(SortByTime(before), last, t);
      assert (SortByTime(before) + [last])[..|SortByTime(before)|] == SortByTime(before);
    }
  }

  lemma {:induction false} SortSorted(entries: seq<Entry>)
    requires Ascending(entries)
    ensures SortByTime(entries) == entries
  {
    if entries != [] {
      SortSorted(entries[..|entries| - 1]);
    }
  }

  lemma {:induction false} InsertLength(sorted: seq<Entry>, e: Entry)
    ensures |Insert(sorted, e)| == |sorted| + 1
  {
    if sorted != [] && sorted[|sorted| - 1].at > e.at { InsertLength(sorted[..|sorted| - 1], e); }
  }

  lemma {:induction false} SortLength(entries: seq<Entry>)
    ensures |SortByTime(entries)| == |entries|
  {
    if entries != [] {
      SortLength(entries[..|entries| - 1]);
      InsertLength(SortByTime(entries[..|entries| - 1]), entries[|entries| - 1]);
    }
  }

  lemma {:induction false} ReversedLength<T>(items: seq<T>)
    ensures |Reversed(items)| == |items|
  {
    if items != [] { ReversedLength(items[..|items| - 1]); }
  }

  // ---------------------------------------------------------------- sorting by merging

  /** Two sorted prefixes as one; of equal times the second sequence's come later. */
  function MergePrefixes(a: seq<Entry>, i: nat, b: seq<Entry>, j: nat): seq<Entry>
    requires i <= |a| && j <= |b|
    decreases i + j
  {
    if i == 0 then b[..j]
    else if j == 0 then a[..i]
    else if a[i - 1].at <= b[j - 1].at then MergePrefixes(a, i, b, j - 1) + [b[j - 1]]
    else MergePrefixes(a, i - 1, b, j) + [a[i - 1]]
  }

  function Merge(a: seq<Entry>, b: seq<Entry>): seq<Entry> {
    MergePrefixes(a, |a|, b, |b|)
  }

  lemma {:induction false} MergePrefixesOf(a: seq<Entry>, i: nat, b: seq<Entry>, j: nat)
    requires i <= |a| && j <= |b|
    ensures MergePrefixes(a, i, b, j) == Merge(a[..i], b[..j])
    ensures |MergePrefixes(a, i, b, j)| == i + j
    decreases i + j
  {
    var c, d := a[..i], b[..j];
    if i > 0 && j > 0 {
      if a[i - 1].at <= b[j - 1].at {
        MergePrefixesOf(a, i, b, j - 1);
        MergePrefixesOf(c, i, d, j - 1);
        assert d[..j - 1] == b[..j - 1] && c[..i] == c;
      } else {
        MergePrefixesOf(a, i - 1, b, j);
        MergePrefixesOf(c, i - 1, d, j);
        assert c[..i - 1] == a[..i - 1] && d[..j] == d;
      }
    }
  }

  lemma {:induction false} MergeNothing(a: seq<Entry>)
    ensures Merge(a, []) == a == Merge([], a)
  {
  }

  lemma {:induction false} MergeSnocRight(a: seq<Entry>, b: seq<Entry>, e: Entry)
    requires a != [] ==> a[|a| - 1].at <= e.at
    ensures Merge(a, b + [e]) == Merge(a, b) + [e]
  {
    MergePrefixesOf(a, |a|, b + [e], |b|);
    assert (b + [e])[..|b|] == b && a[..|a|] == a;
  }

  lemma {:induction false} MergeSnocLeft(a: seq<Entry>, b: seq<Entry>, e: Entry)
    requires b != [] ==> b[|b| - 1].at < e.at
    ensures Merge(a + [e], b) == Merge(a, b) + [e]
  {
    MergePrefixesOf(a + [e], |a|, b, |b|);
    assert (a + [e])[..|a|] == a && b[..|b|] == b;
  }

  lemma {:induction false} MergeSnoc(a: seq<Entry>, b: seq<Entry>, e: Entry)
    ensures (a != [] ==> a[|a| - 1].at <= e.at) ==> Merge(a, b + [e]) == Merge(a, b) + [e]
    ensures (b != [] ==> b[|b| - 1].at < e.at) ==> Merge(a + [e], b) == Merge(a, b) + [e]
  {
    if a != [] ==> a[|a| - 1].at <= e.at { MergeSnocRight(a, b, e); }
    if b != [] ==> b[|b| - 1].at < e.at { MergeSnocLeft(a, b, e); }
  }

  lemma {:induction false} InsertLast(b: seq<Entry>, e: Entry)
    ensures Insert(b, e) != []
    ensures Insert(b, e)[|Insert(b, e)| - 1] == (
      if b != [] && b[|b| - 1].at > e.at then b[|b| - 1] else e)
  {
  }

  lemma {:induction false} InsertMerge(a: seq<Entry>, b: seq<Entry>, e: Entry)
    ensures Insert(Merge(a, b), e) == Merge(a, Insert(b, e))
    decreases |a| + |b|
  {
    if a != [] && (b == [] || a[|a| - 1].at > b[|b| - 1].at) {
      var a', x := a[..|a| - 1], a[|a| - 1];
      assert a == a' + [x];
      InsertMerge(a', b, e);
      MergeSnoc(a', b, x);
      InsertSnoc(Merge(a', b), x, e);
      InsertLast(b, e);
      if x.at <= e.at { InsertAbove(b, e); MergeSnoc(a, b, e); } else { MergeSnoc(a', Insert(b, e), x); }
    } else if b != [] {
      var b', y := b[..|b| - 1], b[|b| - 1];
      assert b == b' + [y];
      InsertMerge(a, b', e);
      MergeSnoc(a, b', y);
      InsertSnoc(Merge(a, b'), y, e);
      InsertSnoc(b', y, e);
      if y.at <= e.at { MergeSnoc(a, b, e); } else { MergeSnoc(a, Insert(b', e), y); }
    }
  }

  lemma {:induction false} InsertAbove(b: seq<Entry>, e: Entry)
    requires b == [] || b[|b| - 1].at <= e.at
    ensures Insert(b, e) == b + [e]
  {
  }

  lemma {:induction false} InsertSnoc(b: seq<Entry>, y: Entry, e: Entry)
    ensures Insert(b + [y], e) == if y.at <= e.at then b + [y] + [e] else Insert(b, e) + [y]
  {
    assert (b + [y])[..|b|] == b;
  }

  /** Sorting two parts and merging them sorts the whole. */
  lemma {:induction false} SortConcat(a: seq<Entry>, b: seq<Entry>)
    ensures SortByTime(a + b) == Merge(SortByTime(a), SortByTime(b))
  {
    if b == [] {
      assert a + b == a;
    } else {
      var b', last := b[..|b| - 1], b[|b| - 1];
      assert (a + b)[..|a + b| - 1] == a + b';
      SortConcat(a, b');
      InsertMerge(SortByTime(a), SortByTime(b'), last);
    }
  }

  // ---------------------------------------------------------------- the last entries of a merge

  function TakenOfPrefixes(a: seq<Entry>, i: nat, b: seq<Entry>, j: nat, k: nat): (n: nat)
    requires i <= |a| && j <= |b|
    ensures n <= k
    decreases k
  {
    if k == 0 || i == 0 then 0
    else if j == 0 then k
    else if a[i - 1].at <= b[j - 1].at then TakenOfPrefixes(a, i, b, j - 1, k - 1)
    else TakenOfPrefixes(a, i - 1, b, j, k - 1) + 1
  }

  /** How many of the last `k` entries of a merge come from the first sequence. */
  function Taken(a: seq<Entry>, b: seq<Entry>, k: nat): (n: nat)
    ensures n <= k
  {
    TakenOfPrefixes(a, |a|, b, |b|, k)
  }

  lemma {:induction false} LastOfPrefix<T>(items: seq<T>, x: T, i: nat, n: nat)
    requires i <= |items|
    ensures LastOf(items + [x], i, n) == LastOf(items, i, n)
  {
    if n > 0 && i > 0 { LastOfPrefix(items, x, i - 1, n - 1); }
  }

  lemma {:induction false} LastSnoc<T>(items: seq<T>, x: T, n: nat)
    requires n > 0
    ensures Last(items + [x], n) == Last(items, n - 1) + [x]
  {
    LastOfPrefix(items, x, |items|, n - 1);
  }

  lemma {:induction false} LastOfAt<T>(items: seq<T>, i: nat, n: nat)
    requires i <= |items|
    ensures |LastOf(items, i, n)| == if n < i then n else i
    ensures forall q :: 0 <= q < |LastOf(items, i, n)| ==>
              LastOf(items, i, n)[q] == items[i - |LastOf(items, i, n)| + q]
  {
    if n > 0 && i > 0 { LastOfAt(items, i - 1, n - 1); }
  }

  lemma {:induction false} LastIsSlice<T>(items: seq<T>, n: nat)
    ensures Last(items, n) == if n >= |items| then items else items[|items| - n..]
  {
    LastOfAt(items, |items|, n);
  }

  /** The tail as the slice the generator takes. */
  lemma {:induction false} TailIsSlice(items: seq<Entry>, limit: int)
    ensures Tail(items, limit) ==
            if limit == 0 || limit >= |items| then items
            else if limit > 0 then items[|items| - limit..]
            else if -limit >= |items| then []
            else items[-limit..]
  {
    if limit > 0 {
      LastIsSlice(items, limit);
    } else if 0 < -limit < |items| {
      LastIsSlice(items, |items| + limit);
    }
  }

  lemma {:induction false} TailLength(items: seq<Entry>, limit: int)
    requires limit <= 0
    ensures |Tail(items, limit)| == if limit == 0 then |items| else if |items| + limit > 0 then |items| + limit else 0
  {
    TailIsSlice(items, limit);
  }

  lemma {:induction false} LastOfLast<T>(items: seq<T>, i: nat, k: nat, n: nat)
    requires n <= k && i <= |items|
    ensures Last(LastOf(items, i, k), n) == LastOf(items, i, n)
  {
    if n > 0 && i > 0 {
      LastOfLast(items, i - 1, k - 1, n - 1);
      LastSnoc(LastOf(items, i - 1, k - 1), items[i - 1], n);
    }
  }

  /** Two prefixes have the same last `k` entries. */
  predicate Align(a: seq<Entry>, i: nat, b: seq<Entry>, j: nat, k: nat)
    requires i <= |a| && j <= |b|
  {
    if k == 0 then true
    else if i == 0 || j == 0 then i == j
    else a[i - 1] == b[j - 1] && Align(a, i - 1, b, j - 1, k - 1)
  }

  /** Two prefixes have the same last `k` times. */
  predicate TimesAlign(a: seq<Entry>, i: nat, b: seq<Entry>, j: nat, k: nat)
    requires i <= |a| && j <= |b|
  {
    if k == 0 then true
    else if i == 0 || j == 0 then i == j
    else a[i - 1].at == b[j - 1].at && TimesAlign(a, i - 1, b, j - 1, k - 1)
  }

  lemma {:induction false} AlignPrefix(a: seq<Entry>, x: Entry, i: nat, b: seq<Entry>, y: Entry, j: nat, k: nat)
    requires i <= |a| && j <= |b|
    ensures Align(a + [x], i, b + [y], j, k) <==> Align(a, i, b, j, k)
    ensures TimesAlign(a + [x], i, b + [y], j, k) <==> TimesAlign(a, i, b, j, k)
  {
    if k > 0 && i > 0 && j > 0 { AlignPrefix(a, x, i - 1, b, y, j - 1, k - 1); }
  }

  lemma {:induction false} AlignSnoc(a: seq<Entry>, x: Entry, b: seq<Entry>, y: Entry, k: nat)
    requires k > 0
    ensures Align(a + [x], |a| + 1, b + [y], |b| + 1, k) <==> Align(a, |a|, b, |b|, k - 1) && x == y
    ensures TimesAlign(a + [x], |a| + 1, b + [y], |b| + 1, k) <==> TimesAlign(a, |a|, b, |b|, k - 1) && x.at == y.at
  {
    AlignPrefix(a, x, |a|, b, y, |b|, k - 1);
  }

  lemma {:induction false} AlignTake(a: seq<Entry>, m: nat, i: nat, b: seq<Entry>, n: nat, j: nat, k: nat)
    requires i <= m <= |a| && j <= n <= |b|
    ensures Align(a[..m], i, b[..n], j, k) <==> Align(a, i, b, j, k)
    ensures TimesAlign(a[..m], i, b[..n], j, k) <==> TimesAlign(a, i, b, j, k)
  {
    if k > 0 && i > 0 && j > 0 { AlignTake(a, m, i - 1, b, n, j - 1, k - 1); }
  }

  lemma {:induction false} AlignShorter(a: seq<Entry>, i: nat, b: seq<Entry>, j: nat, k: nat, n: nat)
    requires i <= |a| && j <= |b| && n <= k
    ensures TimesAlign(a, i, b, j, k) ==> TimesAlign(a, i, b, j, n)
    ensures Align(a, i, b, j, k) ==> Align(a, i, b, j, n) && TimesAlign(a, i, b, j, k)
  {
    if k > 0 && i > 0 && j > 0 { AlignShorter(a, i - 1, b, j - 1, k - 1, if n > 0 then n - 1 else 0); }
  }

  /** The last `n` entries are the same. */
  predicate EndAlike(a: seq<Entry>, b: seq<Entry>, n: nat) {
    Align(a, |a|, b, |b|, n)
  }

  /** The last `n` times are the same. */
  predicate EndInTime(a: seq<Entry>, b: seq<Entry>, n: nat) {
    TimesAlign(a, |a|, b, |b|, n)
  }

  lemma {:induction false} LastOfAlign(a: seq<Entry>, i: nat, b: seq<Entry>, j: nat, n: nat)
    requires i <= |a| && j <= |b|
    ensures Align(a, i, b, j, n) <==> LastOf(a, i, n) == LastOf(b, j, n)
    ensures TimesAlign(a, i, b, j, n) <==> SameTimes(LastOf(a, i, n), LastOf(b, j, n))
  {
    if n > 0 && i > 0 && j > 0 {
      LastOfAlign(a, i - 1, b, j - 1, n - 1);
      SnocEqual(LastOf(a, i - 1, n - 1), LastOf(b, j - 1, n - 1), a[i - 1], b[j - 1]);
      TimesOfSnoc(LastOf(a, i - 1, n - 1), LastOf(b, j - 1, n - 1), a[i - 1], b[j - 1]);
    }
  }

  lemma {:induction false} LastAlike(a: seq<Entry>, b: seq<Entry>, n: nat)
    ensures EndAlike(a, b, n) <==> Last(a, n) == Last(b, n)
    ensures EndInTime(a, b, n) <==> SameTimes(Last(a, n), Last(b, n))
  {
    LastOfAlign(a, |a|, b, |b|, n);
  }

  lemma {:induction false} TimesOfSnoc(a: seq<Entry>, b: seq<Entry>, x: Entry, y: Entry)
    ensures SameTimes(a + [x], b + [y]) <==> SameTimes(a, b) && x.at == y.at
  {
    var c, d := a + [x], b + [y];
    if SameTimes(c, d) {
      assert c[|a|] == x && d[|b|] == y;
      assert forall i :: 0 <= i < |a| ==> a[i] == c[i] && b[i] == d[i];
    }
  }

  lemma {:induction false} SnocEqual<T>(a: seq<T>, b: seq<T>, x: T, y: T)
    ensures a + [x] == b + [y] <==> a == b && x == y
  {
    if a + [x] == b + [y] {
      assert (a + [x])[..|a|] == a && (b + [y])[..|b|] == b;
      assert (a + [x])[|a|] == x && (b + [y])[|b|] == y;
    }
  }

  ghost predicate MergesAlign(a: seq<Entry>, i: nat, b: seq<Entry>, j: nat,
                              a': seq<Entry>, i': nat, b': seq<Entry>, j': nat, k: nat, n: nat)
    requires i <= |a| && j <= |b| && i' <= |a'| && j' <= |b'| && n <= k
  {
    var m, m' := MergePrefixes(a, i, b, j), MergePrefixes(a', i', b', j');
    TimesAlign(m, |m|, m', |m'|, k) &&
    (Align(m, |m|, m', |m'|, k) <==> Align(a, i, a', i', n) && Align(b, j, b', j', k - n))
  }

  lemma {:induction false} AgreeNone(a: seq<Entry>, i: nat, b: seq<Entry>, j: nat,
                                     a': seq<Entry>, i': nat, b': seq<Entry>, j': nat, k: nat)
    requires i <= |a| && j <= |b| && i' <= |a'| && j' <= |b'|
    requires TimesAlign(a, i, a', i', k) && TimesAlign(b, j, b', j', k)
    ensures k == 0 || i == 0 ==> MergesAlign(a, i, b, j, a', i', b', j', k, 0)
    ensures k > 0 && i > 0 && j == 0 ==> MergesAlign(a, i, b, j, a', i', b', j', k, k)
  {
    if k > 0 {
      AlignTake(a, i, i, a', i', i', k);
      AlignTake(b, j, j, b', j', j', k);
    }
  }

  lemma {:induction false} AgreeRight(a: seq<Entry>, i: nat, b: seq<Entry>, j: nat,
                                      a': seq<Entry>, i': nat, b': seq<Entry>, j': nat, k: nat, n: nat)
    requires 0 < i <= |a| && 0 < j <= |b| && 0 < i' <= |a'| && 0 < j' <= |b'| && n < k
    requires a[i - 1].at == a'[i' - 1].at <= b[j - 1].at == b'[j' - 1].at
    requires MergesAlign(a, i, b, j - 1, a', i', b', j' - 1, k - 1, n)
    ensures MergesAlign(a, i, b, j, a', i', b', j', k, n)
  {
    AlignSnoc(MergePrefixes(a, i, b, j - 1), b[j - 1], MergePrefixes(a', i', b', j' - 1), b'[j' - 1], k);
  }

  lemma {:induction false} AgreeLeft(a: seq<Entry>, i: nat, b: seq<Entry>, j: nat,
                                     a': seq<Entry>, i': nat, b': seq<Entry>, j': nat, k: nat, n: nat)
    requires 0 < i <= |a| && 0 < j <= |b| && 0 < i' <= |a'| && 0 < j' <= |b'| && 0 < n <= k
    requires a[i - 1].at == a'[i' - 1].at > b[j - 1].at == b'[j' - 1].at
    requires MergesAlign(a, i - 1, b, j, a', i' - 1, b', j', k - 1, n - 1)
    ensures MergesAlign(a, i, b, j, a', i', b', j', k, n)
  {
    AlignSnoc(MergePrefixes(a, i - 1, b, j), a[i - 1], MergePrefixes(a', i' - 1, b', j'), a'[i' - 1], k);
  }

  /** Prefixes whose last `k` entries have the same times merge alike, and the last
      entries of the merges are the same exactly when those taken from each are. */
  lemma {:induction false} MergePrefixesAgree(a: seq<Entry>, i: nat, b: seq<Entry>, j: nat,
                                              a': seq<Entry>, i': nat, b': seq<Entry>, j': nat, k: nat, n: nat)
    requires i <= |a| && j <= |b| && i' <= |a'| && j' <= |b'| && n == TakenOfPrefixes(a, i, b, j, k)
    requires TimesAlign(a, i, a', i', k) && TimesAlign(b, j, b', j', k)
    ensures MergesAlign(a, i, b, j, a', i', b', j', k, n)
    decreases k, 1
  {
    if k == 0 || i == 0 || j == 0 {
      AgreeNone(a, i, b, j, a', i', b', j', k);
    } else if a[i - 1].at <= b[j - 1].at {
      AgreeAfterRight(a, i, b, j, a', i', b', j', k, n);
    } else {
      AgreeAfterLeft(a, i, b, j, a', i', b', j', k, n);
    }
  }

  lemma {:induction false} AgreeAfterRight(a: seq<Entry>, i: nat, b: seq<Entry>, j: nat,
                                           a': seq<Entry>, i': nat, b': seq<Entry>, j': nat, k: nat, n: nat)
    requires 0 < i <= |a| && 0 < j <= |b| && i' <= |a'| && j' <= |b'| && a[i - 1].at <= b[j - 1].at
    requires k > 0 && n == TakenOfPrefixes(a, i, b, j, k)
    requires TimesAlign(a, i, a', i', k) && TimesAlign(b, j, b', j', k)
    ensures MergesAlign(a, i, b, j, a', i', b', j', k, n)
    decreases k, 0
  {
    AlignShorter(a, i, a', i', k, k - 1);
    MergePrefixesAgree(a, i, b, j - 1, a', i', b', j' - 1, k - 1, n);
    AgreeRight(a, i, b, j, a', i', b', j', k, n);
  }

  lemma {:induction false} AgreeAfterLeft(a: seq<Entry>, i: nat, b: seq<Entry>, j: nat,
                                          a': seq<Entry>, i': nat, b': seq<Entry>, j': nat, k: nat, n: nat)
    requires 0 < i <= |a| && 0 < j <= |b| && i' <= |a'| && j' <= |b'| && a[i - 1].at > b[j - 1].at
    requires k > 0 && n == TakenOfPrefixes(a, i, b, j, k)
    requires TimesAlign(a, i, a', i', k) && TimesAlign(b, j, b', j', k)
    ensures MergesAlign(a, i, b, j, a', i', b', j', k, n)
    decreases k, 0
  {
    AlignShorter(b, j, b', j', k, k - 1);
    MergePrefixesAgree(a, i - 1, b, j, a', i' - 1, b', j', k - 1, n - 1);
    AgreeLeft(a, i, b, j, a', i', b', j', k, n);
  }

  lemma {:induction false} MergeAgree(a: seq<Entry>, b: seq<Entry>, a': seq<Entry>, b': seq<Entry>, k: nat)
    requires EndInTime(a, a', k) && EndInTime(b, b', k)
    ensures EndInTime(Merge(a, b), Merge(a', b'), k)
    ensures EndAlike(Merge(a, b), Merge(a', b'), k) <==>
            EndAlike(a, a', Taken(a, b, k)) && EndAlike(b, b', k - Taken(a, b, k))
  {
    MergePrefixesAgree(a, |a|, b, |b|, a', |a'|, b', |b'|, k, Taken(a, b, k));
  }

  // ---------------------------------------------------------------- many sources

  function SortEach(sources: seq<seq<Entry>>): seq<seq<Entry>> {
    seq(|sources|, i requires 0 <= i < |sources| => SortByTime(sources[i]))
  }

  /** The first `i` parts merged. */
  function MergeFirst(parts: seq<seq<Entry>>, i: nat): seq<Entry>
    requires i <= |parts|
  {
    if i == 0 then [] else Merge(MergeFirst(parts, i - 1), parts[i - 1])
  }

  lemma {:induction false} MergePrefix(parts: seq<seq<Entry>>, last: seq<Entry>, i: nat)
    requires i <= |parts|
    ensures MergeFirst(parts + [last], i) == MergeFirst(parts, i)
  {
    if i > 0 { MergePrefix(parts, last, i - 1); }
  }

  /** Sorting everything merges the sorted sources. */
  lemma {:induction false} SortFlatten(sources: seq<seq<Entry>>)
    ensures SortByTime(Flatten(sources)) == MergeFirst(SortEach(sources), |sources|)
  {
    if sources != [] {
      var n := |sources| - 1;
      SortFlatten(sources[..n]);
      SortConcat(Flatten(sources[..n]), sources[n]);
      MergePrefix(SortEach(sources[..n]), SortByTime(sources[n]), n);
      assert SortEach(sources) == SortEach(sources[..n]) + [SortByTime(sources[n])];
    }
  }

  /** How many entries of each of the first `i` parts are among the last `k` of their merge. */
  function Shown(parts: seq<seq<Entry>>, i: nat, k: nat): (shown: seq<nat>)
    requires i <= |parts|
    ensures |shown| == i
    ensures forall p :: 0 <= p < i ==> shown[p] <= k
  {
    if i == 0 then []
    else
      var t := Taken(MergeFirst(parts, i - 1), parts[i - 1], k);
      Shown(parts, i - 1, t) + [k - t]
  }

  /** How often an entry occurs among the last `n` of the first `i` entries. */
  function Occurs(entries: seq<Entry>, i: nat, n: nat, x: Entry): nat
    requires i <= |entries|
  {
    if n == 0 || i == 0 then 0
    else Occurs(entries, i - 1, n - 1, x) + if entries[i - 1] == x then 1 else 0
  }

  /** How often it occurs among the last `shown[p]` entries of the first `i` parts. */
  function OccursInEach(parts: seq<seq<Entry>>, i: nat, shown: seq<nat>, x: Entry): nat
    requires i <= |parts| && i <= |shown|
  {
    if i == 0 then 0
    else OccursInEach(parts, i - 1, shown, x) + Occurs(parts[i - 1], |parts[i - 1]|, shown[i - 1], x)
  }

  lemma {:induction false} OccursInPrefix(parts: seq<seq<Entry>>, i: nat, shown: seq<nat>, n: nat, x: Entry)
    requires i <= |parts| && i <= |shown|
    ensures OccursInEach(parts, i, shown + [n], x) == OccursInEach(parts, i, shown, x)
  {
    if i > 0 { OccursInPrefix(parts, i - 1, shown, n, x); }
  }

  lemma {:induction false} OccursAlike(a: seq<Entry>, b: seq<Entry>, i: nat, n: nat, x: Entry)
    requires i <= |a| && i <= |b| && a[..i] == b[..i]
    ensures Occurs(a, i, n, x) == Occurs(b, i, n, x)
  {
    if n > 0 && i > 0 {
      assert a[..i][i - 1] == b[..i][i - 1];
      assert a[..i - 1] == a[..i][..i - 1] && b[..i - 1] == b[..i][..i - 1];
      OccursAlike(a, b, i - 1, n - 1, x);
    }
  }

  lemma {:induction false} LastAscending(entries: seq<Entry>, k: nat)
    requires Ascending(entries)
    ensures Ascending(Last(entries, k))
  {
    LastOfAt(entries, |entries|, k);
  }

  lemma {:induction false} OccursSnoc(m: seq<Entry>, e: Entry, n: nat, x: Entry)
    requires n > 0
    ensures Occurs(m + [e], |m + [e]|, n, x) == Occurs(m, |m|, n - 1, x) + if e == x then 1 else 0
  {
    assert (m + [e])[..|m|] == m == m[..|m|];
    OccursAlike(m + [e], m, |m|, n - 1, x);
  }

  /** An entry occurs among the last `n + l` of a merge as often as in the last `n` and
      `l` of its parts. */
  predicate OccursApart(a: seq<Entry>, i: nat, b: seq<Entry>, j: nat, n: nat, l: nat, x: Entry)
    requires i <= |a| && j <= |b|
  {
    var m := MergePrefixes(a, i, b, j);
    Occurs(m, |m|, n + l, x) == Occurs(a, i, n, x) + Occurs(b, j, l, x)
  }

  lemma {:induction false} OccursInOne(a: seq<Entry>, i: nat, b: seq<Entry>, j: nat, k: nat, x: Entry)
    requires i <= |a| && j <= |b|
    ensures k == 0 || i == 0 ==> OccursApart(a, i, b, j, 0, k, x)
    ensures i > 0 && j == 0 ==> OccursApart(a, i, b, j, k, 0, x)
  {
    OccursAlike(a, a[..i], i, k, x);
    OccursAlike(b, b[..j], j, k, x);
  }

  /** The last entries of a merge are the last entries taken from each sequence. */
  lemma {:induction false} TakenOccurs(a: seq<Entry>, i: nat, b: seq<Entry>, j: nat, n: nat, l: nat, x: Entry)
    requires i <= |a| && j <= |b| && n == TakenOfPrefixes(a, i, b, j, n + l)
    ensures OccursApart(a, i, b, j, n, l, x)
    decreases n + l
  {
    if n + l == 0 || i == 0 || j == 0 {
      OccursInOne(a, i, b, j, n + l, x);
    } else if a[i - 1].at <= b[j - 1].at {
      TakenOccurs(a, i, b, j - 1, n, l - 1, x);
      OccursSnoc(MergePrefixes(a, i, b, j - 1), b[j - 1], n + l, x);
    } else {
      TakenOccurs(a, i - 1, b, j, n - 1, l, x);
      OccursSnoc(MergePrefixes(a, i - 1, b, j), a[i - 1], n + l, x);
    }
  }

  /** The last `k` entries of a merge are that many last entries of each part. */
  lemma {:induction false} ShownOccurs(parts: seq<seq<Entry>>, i: nat, k: nat, x: Entry)
    requires i <= |parts|
    ensures var m := MergeFirst(parts, i);
      Occurs(m, |m|, k, x) == OccursInEach(parts, i, Shown(parts, i, k), x)
  {
    if i > 0 {
      var t := Taken(MergeFirst(parts, i - 1), parts[i - 1], k);
      ShownOccurs(parts, i - 1, t, x);
      ShownOnce(parts, i - 1, t, k - t, Shown(parts, i - 1, t), x);
    }
  }

  lemma {:induction false} ShownOnce(parts: seq<seq<Entry>>, i: nat, n: nat, l: nat, shown: seq<nat>, x: Entry)
    requires i < |parts| && |shown| == i && n == Taken(MergeFirst(parts, i), parts[i], n + l)
    requires Occurs(MergeFirst(parts, i), |MergeFirst(parts, i)|, n, x) == OccursInEach(parts, i, shown, x)
    ensures var m := MergeFirst(parts, i + 1);
      Occurs(m, |m|, n + l, x) == OccursInEach(parts, i + 1, shown + [l], x)
  {
    TakenOccurs(MergeFirst(parts, i), |MergeFirst(parts, i)|, parts[i], |parts[i]|, n, l, x);
    OccursInPrefix(parts, i, shown, l, x);
  }

  ghost predicate AllInTime(parts: seq<seq<Entry>>, parts': seq<seq<Entry>>, k: nat) {
    |parts'| == |parts| && forall p :: 0 <= p < |parts| ==> EndInTime(parts[p], parts'[p], k)
  }

  predicate AllAlike(parts: seq<seq<Entry>>, parts': seq<seq<Entry>>, i: nat, shown: seq<nat>)
    requires i <= |parts| && i <= |parts'| && i <= |shown|
  {
    i == 0 || (EndAlike(parts[i - 1], parts'[i - 1], shown[i - 1]) && AllAlike(parts, parts', i - 1, shown))
  }

  lemma {:induction false} AllAlikePrefix(parts: seq<seq<Entry>>, parts': seq<seq<Entry>>, i: nat, shown: seq<nat>,
                                          n: nat)
    requires i <= |shown| && i <= |parts| && i <= |parts'|
    ensures AllAlike(parts, parts', i, shown + [n]) <==> AllAlike(parts, parts', i, shown)
  {
    if i > 0 { AllAlikePrefix(parts, parts', i - 1, shown, n); }
  }

  lemma {:induction false} AllAlikeEach(parts: seq<seq<Entry>>, parts': seq<seq<Entry>>, i: nat, shown: seq<nat>)
    requires i <= |parts| && i <= |parts'| && i <= |shown|
    ensures AllAlike(parts, parts', i, shown) <==> forall p :: 0 <= p < i ==> EndAlike(parts[p], parts'[p], shown[p])
  {
    if i > 0 { AllAlikeEach(parts, parts', i - 1, shown); }
  }

  lemma {:induction false} InTimeShorter(a: seq<Entry>, b: seq<Entry>, k: nat, n: nat)
    requires n <= k
    ensures EndInTime(a, b, k) ==> EndInTime(a, b, n)
    ensures EndAlike(a, b, k) ==> EndAlike(a, b, n) && EndInTime(a, b, k)
  {
    AlignShorter(a, |a|, b, |b|, k, n);
  }

  lemma {:induction false} AllInTimeShorter(parts: seq<seq<Entry>>, parts': seq<seq<Entry>>, k: nat, n: nat)
    requires n <= k && AllInTime(parts, parts', k)
    ensures AllInTime(parts, parts', n)
  {
    forall p | 0 <= p < |parts| ensures EndInTime(parts[p], parts'[p], n) {
      InTimeShorter(parts[p], parts'[p], k, n);
    }
  }

  /** Parts that end with the same times: so do their merges, and the last `k` entries
      of the merges are the same exactly when those shown of every part are. */
  lemma {:induction false} MergeFirstAgree(parts: seq<seq<Entry>>, parts': seq<seq<Entry>>, i: nat, k: nat)
    requires AllInTime(parts, parts', k) && i <= |parts|
    ensures EndInTime(MergeFirst(parts, i), MergeFirst(parts', i), k)
    ensures EndAlike(MergeFirst(parts, i), MergeFirst(parts', i), k) <==> AllAlike(parts, parts', i, Shown(parts, i, k))
  {
    if i > 0 {
      var t := Taken(MergeFirst(parts, i - 1), parts[i - 1], k);
      MergeFirstAgree(parts, parts', i - 1, k);
      AllInTimeShorter(parts, parts', k, t);
      MergeFirstAgree(parts, parts', i - 1, t);
      AgreeOnce(parts, parts', i - 1, k, t, Shown(parts, i - 1, t));
    }
  }

  lemma {:induction false} AgreeOnce(parts: seq<seq<Entry>>, parts': seq<seq<Entry>>, i: nat, k: nat, t: nat,
                                     shown: seq<nat>)
    requires i < |parts| && i < |parts'| && i == |shown| && t == Taken(MergeFirst(parts, i), parts[i], k)
    requires EndInTime(MergeFirst(parts, i), MergeFirst(parts', i), k) && EndInTime(parts[i], parts'[i], k)
    requires EndAlike(MergeFirst(parts, i), MergeFirst(parts', i), t) <==> AllAlike(parts, parts', i, shown)
    ensures EndInTime(MergeFirst(parts, i + 1), MergeFirst(parts', i + 1), k)
    ensures EndAlike(MergeFirst(parts, i + 1), MergeFirst(parts', i + 1), k) <==>
            AllAlike(parts, parts', i + 1, shown + [k - t])
  {
    MergeAgree(MergeFirst(parts, i), parts[i], MergeFirst(parts', i), parts'[i], k);
    AllAlikePrefix(parts, parts', i, shown, k - t);
  }

  /** Limit pushdown: limiting every source to its latest `k` entries, merging and
      limiting again gives the latest `k` of everything, whatever ties there are. */
  lemma {:induction false} Pushdown(sources: seq<seq<Entry>>, limited: seq<seq<Entry>>, k: nat)
    requires |limited| == |sources|
    requires forall i :: 0 <= i < |sources| ==> Last(SortByTime(limited[i]), k) == Last(SortByTime(sources[i]), k)
    ensures Last(SortByTime(Flatten(limited)), k) == Last(SortByTime(Flatten(sources)), k)
  {
    var parts, parts', n := SortEach(sources), SortEach(limited), |sources|;
    var shown := Shown(parts, n, k);
    forall p | 0 <= p < n ensures EndInTime(parts[p], parts'[p], k) && EndAlike(parts[p], parts'[p], shown[p]) {
      LastAlike(parts[p], parts'[p], k);
      InTimeShorter(parts[p], parts'[p], k, shown[p]);
    }
    AllAlikeEach(parts, parts', n, shown);
    MergeFirstAgree(parts, parts', n, k);
    SortFlatten(sources);
    SortFlatten(limited);
    LastAlike(MergeFirst(parts, n), MergeFirst(parts', n), k);
  }

  // ---------------------------------------------------------------- one limited source

  /** The entries the database returns for a source kept in time order. */
  function Kept(sorted: seq<Entry>, limit: int): seq<Entry> {
    if limit < 0 then sorted else Last(sorted, limit)
  }

  function Earlier(entries: seq<Entry>, t: int): nat {
    if entries == [] then 0
    else Earlier(entries[..|entries| - 1], t) + if entries[|entries| - 1].at < t then 1 else 0
  }

  /** The place of entry `p` if the entries of its instant were reversed. */
  function Mirror(entries: seq<Entry>, p: nat): int
    requires p < |entries|
  {
    Earlier(entries, entries[p].at) + Earlier(entries, entries[p].at + 1) - 1 - p
  }

  /** The last `n` entries read the same when every instant's entries are reversed. */
  predicate Mirrored(entries: seq<Entry>, n: nat) {
    forall p :: 0 <= p < |entries| && |entries| - n <= p ==>
      0 <= Mirror(entries, p) < |entries| && entries[Mirror(entries, p)] == entries[p]
  }

  /** None of the last `n` entries shares its time with the one before it. */
  predicate Unshared(entries: seq<Entry>, n: nat) {
    forall p :: 0 < p < |entries| && |entries| - n <= p ==> entries[p - 1].at != entries[p].at
  }

  lemma {:induction false} EarlierSplits(entries: seq<Entry>, t: int)
    requires Ascending(entries)
    ensures Earlier(entries, t) <= |entries|
    ensures forall i :: 0 <= i < Earlier(entries, t) ==> entries[i].at < t
    ensures forall i :: Earlier(entries, t) <= i < |entries| ==> entries[i].at >= t
  {
    if entries != [] { EarlierSplits(entries[..|entries| - 1], t); }
  }

  /** `longer` is `entries` with `e` put in at `lo`. */
  ghost predicate Inserted(entries: seq<Entry>, lo: nat, e: Entry, longer: seq<Entry>) {
    lo <= |entries| && |longer| == |entries| + 1 && longer[lo] == e &&
    (forall p :: 0 <= p < lo ==> longer[p] == entries[p]) &&
    (forall p :: lo < p < |longer| ==> longer[p] == entries[p - 1])
  }

  lemma {:induction false} MergeOne(e: Entry, sorted: seq<Entry>)
    requires Ascending(sorted) && forall i :: 0 <= i < |sorted| ==> sorted[i].at <= e.at
    ensures Inserted(sorted, Earlier(sorted, e.at), e, Merge([e], sorted))
  {
    EarlierSplits(sorted, e.at);
    if sorted == [] {
      MergeNothing([e]);
    } else if sorted[|sorted| - 1].at < e.at {
      MergeSnoc([], sorted, e);
      MergeNothing(sorted);
      assert [] + [e] == [e];
    } else {
      var before, last := sorted[..|sorted| - 1], sorted[|sorted| - 1];
      MergeOne(e, before);
      MergeSnoc([e], before, last);
      assert sorted == before + [last];
    }
  }

  lemma {:induction false} EarlierSnoc(entries: seq<Entry>, e: Entry, t: int)
    ensures Earlier(entries + [e], t) == Earlier(entries, t) + if e.at < t then 1 else 0
  {
    assert (entries + [e])[..|entries|] == entries;
  }

  lemma {:induction false} EarlierAll(entries: seq<Entry>, t: int)
    requires forall i :: 0 <= i < |entries| ==> entries[i].at < t
    ensures Earlier(entries, t) == |entries|
  {
    if entries != [] { EarlierAll(entries[..|entries| - 1], t); }
  }

  /** Where entries lie once a latest one is added. */
  lemma {:induction false} MirrorSnoc(entries: seq<Entry>, e: Entry, p: nat)
    requires Ascending(entries) && (forall i :: 0 <= i < |entries| ==> entries[i].at <= e.at) && p <= |entries|
    ensures var lo := Earlier(entries, e.at);
      lo <= |entries| &&
      Mirror(entries + [e], p) ==
        (if p < lo then Mirror(entries, p) else if p == lo then |entries| else Mirror(entries, p - 1)) &&
      (if p < lo then entries[p].at < e.at else p < |entries| ==> entries[p].at == e.at)
  {
    EarlierSplits(entries, e.at);
    var all, lo := entries + [e], Earlier(entries, e.at);
    EarlierSnoc(entries, e, all[p].at);
    EarlierSnoc(entries, e, all[p].at + 1);
    EarlierAll(entries, e.at + 1);
    if p < lo {
      assert all[p] == entries[p];
    } else {
      assert all[p].at == e.at;
      assert p > lo ==> entries[p - 1].at == e.at;
    }
  }

  ghost predicate ReversesAt(entries: seq<Entry>, sorted: seq<Entry>, p: nat) {
    p < |entries| == |sorted| && 0 <= Mirror(entries, p) < |entries| &&
    sorted[p] == entries[Mirror(entries, p)] && sorted[p].at == entries[p].at
  }

  ghost predicate Reverses(entries: seq<Entry>, sorted: seq<Entry>) {
    |sorted| == |entries| && forall p :: 0 <= p < |entries| ==> ReversesAt(entries, sorted, p)
  }

  lemma {:induction false} ReversesSnocAt(entries: seq<Entry>, sorted: seq<Entry>, e: Entry, p: nat, longer: seq<Entry>)
    requires Ascending(entries) && (forall i :: 0 <= i < |entries| ==> entries[i].at <= e.at)
    requires Reverses(entries, sorted) && p <= |entries| && Inserted(sorted, Earlier(entries, e.at), e, longer)
    ensures ReversesAt(entries + [e], longer, p)
  {
    var lo := Earlier(entries, e.at);
    MirrorSnoc(entries, e, p);
    if p < lo {
      assert ReversesAt(entries, sorted, p);
    } else if p > lo {
      assert ReversesAt(entries, sorted, p - 1);
      MirrorSnoc(entries, e, p - 1);
    }
  }

  /** Putting a latest entry before those of its instant. */
  lemma {:induction false} ReversesSnoc(entries: seq<Entry>, sorted: seq<Entry>, e: Entry, longer: seq<Entry>)
    requires Ascending(entries) && (forall i :: 0 <= i < |entries| ==> entries[i].at <= e.at)
    requires Reverses(entries, sorted) && Inserted(sorted, Earlier(entries, e.at), e, longer)
    ensures Reverses(entries + [e], longer)
  {
    forall p: nat | p < |entries + [e]| ensures ReversesAt(entries + [e], longer, p) {
      ReversesSnocAt(entries, sorted, e, p, longer);
    }
  }

  lemma {:induction false} EarlierTimes(a: seq<Entry>, b: seq<Entry>, t: int)
    requires SameTimes(a, b)
    ensures Earlier(a, t) == Earlier(b, t)
  {
    if a != [] { EarlierTimes(a[..|a| - 1], b[..|b| - 1], t); }
  }

  lemma {:induction false} ReversesTimes(entries: seq<Entry>, sorted: seq<Entry>)
    requires Reverses(entries, sorted)
    ensures SameTimes(entries, sorted)
  {
    forall p | 0 <= p < |entries| ensures entries[p].at == sorted[p].at { assert ReversesAt(entries, sorted, p); }
  }

  lemma {:induction false} ReversedSnoc<T>(items: seq<T>, x: T)
    ensures Reversed(items + [x]) == [x] + Reversed(items)
  {
    assert (items + [x])[..|items|] == items;
  }

  /** Sorting a time-ordered source that was read backwards reverses each instant. */
  lemma {:induction false} SortReversed(entries: seq<Entry>)
    requires Ascending(entries)
    ensures Reverses(entries, SortByTime(Reversed(entries)))
  {
    if entries != [] {
      var before, last := entries[..|entries| - 1], entries[|entries| - 1];
      SortReversed(before);
      SortReversedSnoc(before, last);
      assert entries == before + [last];
    }
  }

  lemma {:induction false} SortReversedSnoc(entries: seq<Entry>, e: Entry)
    requires Ascending(entries) && (forall i :: 0 <= i < |entries| ==> entries[i].at <= e.at)
    requires Reverses(entries, SortByTime(Reversed(entries)))
    ensures Reverses(entries + [e], SortByTime(Reversed(entries + [e])))
  {
    var inner := SortByTime(Reversed(entries));
    ReversesTimes(entries, inner);
    ReversedSnoc(entries, e);
    SortConcat([e], Reversed(entries));
    SortSorted([e]);
    MergeOne(e, inner);
    EarlierTimes(entries, inner, e.at);
    ReversesSnoc(entries, inner, e, Merge([e], inner));
  }

  lemma {:induction false} KeptEnds(sorted: seq<Entry>, limit: int, n: nat)
    requires Ascending(sorted) && (limit < 0 || n <= limit)
    ensures Ascending(Kept(sorted, limit)) && Last(Kept(sorted, limit), n) == Last(sorted, n)
  {
    if limit >= 0 {
      LastOfLast(sorted, |sorted|, limit, n);
      LastAscending(sorted, limit);
    }
  }

  lemma {:induction false} AlignWhere(a: seq<Entry>, b: seq<Entry>, i: nat, n: nat)
    requires i <= |a| && i <= |b|
    ensures Align(a, i, b, i, n) <==> forall p :: 0 <= p < i && i - n <= p ==> b[p] == a[p]
    ensures SameTimes(a, b) ==> TimesAlign(a, i, b, i, n)
  {
    if n > 0 && i > 0 { AlignWhere(a, b, i - 1, n - 1); }
  }

  lemma {:induction false} ReversedEnds(kept: seq<Entry>, n: nat)
    requires Ascending(kept)
    ensures EndInTime(kept, SortByTime(Reversed(kept)), n)
    ensures EndAlike(kept, SortByTime(Reversed(kept)), n) <==> Mirrored(kept, n)
  {
    SortReversed(kept);
    var sorted := SortByTime(Reversed(kept));
    ReversesTimes(kept, sorted);
    AlignWhere(kept, sorted, |kept|, n);
    MirroredWhere(kept, sorted, n);
  }

  lemma {:induction false} MirroredWhere(kept: seq<Entry>, sorted: seq<Entry>, n: nat)
    requires Reverses(kept, sorted)
    ensures Mirrored(kept, n) <==> forall p :: 0 <= p < |kept| && |kept| - n <= p ==> sorted[p] == kept[p]
  {
    forall p: nat | p < |kept|
      ensures 0 <= Mirror(kept, p) < |kept| && sorted[p] == kept[Mirror(kept, p)]
    {
      assert ReversesAt(kept, sorted, p);
    }
  }

  /** What the database returns for a source in time order, sorted again, ends with the
      times of the source, and with its entries exactly when they are mirrored. */
  lemma {:induction false} LimitedAgrees(sorted: seq<Entry>, limit: int, n: nat)
    requires Ascending(sorted) && (limit < 0 || n <= limit)
    ensures EndInTime(sorted, SortByTime(Latest(sorted, limit)), n)
    ensures EndAlike(sorted, SortByTime(Latest(sorted, limit)), n) <==> Mirrored(Kept(sorted, limit), n)
  {
    var kept, returned := Kept(sorted, limit), SortByTime(Latest(sorted, limit));
    KeptEnds(sorted, limit, n);
    ReversedEnds(kept, n);
    LastAlike(kept, returned, n);
    LastAlike(sorted, returned, n);
  }

  ghost predicate Different(entries: seq<Entry>) {
    forall i, j :: 0 <= i < j < |entries| ==> entries[i] != entries[j]
  }

  /** For pairwise different entries, being mirrored is sharing no time. */
  lemma {:induction false} MirroredIff(entries: seq<Entry>, n: nat)
    requires Ascending(entries)
    ensures Unshared(entries, n) ==> Mirrored(entries, n)
    ensures Different(entries) && Mirrored(entries, n) ==> Unshared(entries, n)
  {
    if Unshared(entries, n) {
      forall p | 0 <= p < |entries| && |entries| - n <= p ensures Mirror(entries, p) == p {
        AloneInInstant(entries, n, p);
      }
    }
    if Different(entries) && Mirrored(entries, n) {
      forall p | 0 < p < |entries| && |entries| - n <= p ensures entries[p - 1].at != entries[p].at {
        InstantEnds(entries, p - 1);
        InstantEnds(entries, p);
        var hi := Earlier(entries, entries[p].at + 1) - 1;
        assert entries[Mirror(entries, hi)] == entries[hi];
      }
    }
  }

  lemma {:induction false} AloneInInstant(entries: seq<Entry>, n: nat, p: nat)
    requires Ascending(entries) && Unshared(entries, n) && p < |entries| && |entries| - n <= p
    ensures Mirror(entries, p) == p
  {
    InstantEnds(entries, p);
    var lo, hi := Earlier(entries, entries[p].at), Earlier(entries, entries[p].at + 1) - 1;
    var previous, next := if lo < p then p - 1 else p, if p < hi then p + 1 else p;
    assert entries[previous].at == entries[p].at && entries[next].at == entries[p].at;
  }

  /** The last entry of an instant mirrors its first. */
  lemma {:induction false} InstantEnds(entries: seq<Entry>, p: nat)
    requires Ascending(entries) && p < |entries|
    ensures Earlier(entries, entries[p].at) <= p < Earlier(entries, entries[p].at + 1) <= |entries|
    ensures var hi := Earlier(entries, entries[p].at + 1) - 1;
      entries[hi].at == entries[p].at && Mirror(entries, hi) == Earlier(entries, entries[p].at)
    ensures forall q :: Earlier(entries, entries[p].at) <= q < Earlier(entries, entries[p].at + 1) ==>
            entries[q].at == entries[p].at
  {
    EarlierSplits(entries, entries[p].at);
    EarlierSplits(entries, entries[p].at + 1);
  }

  // ---------------------------------------------------------------- one address

  /** Events, detections and scores were inserted in time order, ties allowed. */
  ghost predicate InTimeOrder(ev: Evidence, ip: Ip) {
    forall p :: 0 <= p < 3 ==> Ascending(Sources(ev, ip)[p])
  }

  /** What the queries return about an address, oldest first. */
  function KeptSources(ev: Evidence, ip: Ip, limit: int): seq<seq<Entry>> {
    [Kept(EventsOf(ev, ip), limit), Kept(DetectionsOf(ev, ip), limit), Kept(ScoresOf(ev, ip), limit),
     BanOf(ev, ip), Kept(SortByTime(AuditsOf(ev, ip)), limit)]
  }

  /** How many entries of each source are among the last `k` about an address. */
  function SharesOf(ev: Evidence, ip: Ip, k: nat): (shares: seq<nat>)
    ensures |shares| == 5
  {
    Shown(SortEach(Sources(ev, ip)), 5, k)
  }

  /** In each source the entries that are among the last `k` of all stay in place when
      entries of the same instant that the query returned are reversed. */
  ghost predicate Clear(ev: Evidence, ip: Ip, limit: int, k: nat) {
    forall p :: 0 <= p < 5 ==> Mirrored(KeptSources(ev, ip, limit)[p], SharesOf(ev, ip, k)[p])
  }

  lemma {:induction false} BanMirrored(ev: Evidence, ip: Ip, n: nat)
    ensures Mirrored(BanOf(ev, ip), n)
  {
    if ip in ev.activeBans {
      EarlierSplits(BanOf(ev, ip), ev.activeBans[ip].at);
      EarlierAll(BanOf(ev, ip), ev.activeBans[ip].at + 1);
    }
  }

  /** A limited source ends with the times of the source, and with its last `n`
      entries exactly when those kept are mirrored. */
  ghost predicate LimitedTo(source: seq<Entry>, limited: seq<Entry>, kept: seq<Entry>, n: nat) {
    EndInTime(SortByTime(source), SortByTime(limited), n) &&
    (EndAlike(SortByTime(source), SortByTime(limited), n) <==> Mirrored(kept, n))
  }

  lemma {:induction false} StoredAgrees(source: seq<Entry>, limit: int, n: nat)
    requires Ascending(source) && (limit < 0 || n <= limit)
    ensures LimitedTo(source, Latest(source, limit), Kept(source, limit), n)
  {
    SortSorted(source);
    LimitedAgrees(source, limit, n);
  }

  lemma {:induction false} SortedAgrees(source: seq<Entry>, limit: int, n: nat)
    requires limit < 0 || n <= limit
    ensures LimitedTo(source, Latest(SortByTime(source), limit), Kept(SortByTime(source), limit), n)
  {
    SortAscending(source);
    LimitedAgrees(SortByTime(source), limit, n);
  }

  lemma {:induction false} BanAgrees(ev: Evidence, ip: Ip, n: nat)
    ensures LimitedTo(BanOf(ev, ip), BanOf(ev, ip), BanOf(ev, ip), n)
  {
    BanMirrored(ev, ip, n);
    LastAlike(SortByTime(BanOf(ev, ip)), SortByTime(BanOf(ev, ip)), n);
  }

  /** A source of an address that is stored in time order, or sorted by its query. */
  lemma {:induction false} SourceAgrees(ev: Evidence, ip: Ip, limit: int, n: nat, p: nat)
    requires (limit < 0 || n <= limit) && p < 5 && (p < 3 ==> Ascending(Sources(ev, ip)[p]))
    ensures LimitedTo(Sources(ev, ip)[p], LimitedSources(ev, ip, limit)[p], KeptSources(ev, ip, limit)[p], n)
  {
    var source := Sources(ev, ip)[p];
    if p < 3 {
      assert LimitedSources(ev, ip, limit)[p] == Latest(source, limit) &&
        KeptSources(ev, ip, limit)[p] == Kept(source, limit);
      StoredAgrees(source, limit, n);
    } else if p == 3 {
      BanAgrees(ev, ip, n);
    } else {
      SortedAgrees(AuditsOf(ev, ip), limit, n);
    }
  }

  /** Sources that end with the same times: so does everything, and its last `k` entries
      are the same exactly when those shown of every source are. */
  lemma {:induction false} FlattenAgree(sources: seq<seq<Entry>>, limited: seq<seq<Entry>>, k: nat)
    requires |limited| == |sources|
    requires forall p :: 0 <= p < |sources| ==> EndInTime(SortByTime(sources[p]), SortByTime(limited[p]), k)
    ensures EndInTime(SortByTime(Flatten(sources)), SortByTime(Flatten(limited)), k)
    ensures EndAlike(SortByTime(Flatten(sources)), SortByTime(Flatten(limited)), k) <==>
            forall p :: 0 <= p < |sources| ==>
              EndAlike(SortByTime(sources[p]), SortByTime(limited[p]), Shown(SortEach(sources), |sources|, k)[p])
  {
    var parts, parts', n := SortEach(sources), SortEach(limited), |sources|;
    SortFlatten(sources);
    SortFlatten(limited);
    AllAlikeEach(parts, parts', n, Shown(parts, n, k));
    MergeFirstAgree(parts, parts', n, k);
  }

  /** What is gathered about an address ends with the times of everything about it,
      and with the entries of everything exactly when those are clear of ties. */
  lemma {:induction false} GatheredAgrees(ev: Evidence, ip: Ip, limit: int, k: nat)
    requires InTimeOrder(ev, ip) && (limit < 0 || k <= limit)
    ensures EndInTime(SortByTime(Everything(ev, ip)), SortByTime(Gathered(ev, ip, limit)), k)
    ensures EndAlike(SortByTime(Everything(ev, ip)), SortByTime(Gathered(ev, ip, limit)), k) <==>
            Clear(ev, ip, limit, k)
  {
    var sources, limited, kept := Sources(ev, ip), LimitedSources(ev, ip, limit), KeptSources(ev, ip, limit);
    forall p: nat | p < 5
      ensures LimitedTo(sources[p], limited[p], kept[p], k)
      ensures LimitedTo(sources[p], limited[p], kept[p], SharesOf(ev, ip, k)[p])
    {
      SourceAgrees(ev, ip, limit, k, p);
      SourceAgrees(ev, ip, limit, SharesOf(ev, ip, k)[p], p);
    }
    FlattenAgree(sources, limited, k);
  }

  /** How many of `n` entries a nonzero limit keeps. */
  function KeptBy(limit: int, n: nat): nat {
    if limit > 0 then limit else if n + limit > 0 then n + limit else 0
  }

  lemma {:induction false} TailIsLast(items: seq<Entry>, limit: int)
    requires limit != 0
    ensures Tail(items, limit) == Last(items, KeptBy(limit, |items|))
  {
  }

  lemma {:induction false} FlattenSnoc(sources: seq<seq<Entry>>, last: seq<Entry>)
    ensures Flatten(sources + [last]) == Flatten(sources) + last
  {
    assert (sources + [last])[..|sources|] == sources;
  }

  lemma {:induction false} FlattenFive(a: seq<Entry>, b: seq<Entry>, c: seq<Entry>, d: seq<Entry>, e: seq<Entry>)
    ensures Flatten([a, b, c, d, e]) == a + b + c + d + e
  {
    FlattenSnoc([], a);
    FlattenSnoc([a], b);
    FlattenSnoc([a, b], c);
    FlattenSnoc([a, b, c], d);
    FlattenSnoc([a, b, c, d], e);
    assert [] + [a] == [a];
    assert [a] + [b] == [a, b];
    assert [a, b] + [c] == [a, b, c];
    assert [a, b, c] + [d] == [a, b, c, d];
    assert [a, b, c, d] + [e] == [a, b, c, d, e];
    assert [] + a == a;
  }

  /** Lists of sources that are pairwise no longer. */
  lemma {:induction false} FlattenLengths(a: seq<seq<Entry>>, b: seq<seq<Entry>>)
    requires |a| == |b| && forall i :: 0 <= i < |a| ==> |a[i]| <= |b[i]|
    ensures |Flatten(a)| <= |Flatten(b)|
    ensures |Flatten(a)| == |Flatten(b)| <==> forall i :: 0 <= i < |a| ==> |a[i]| == |b[i]|
  {
    if a != [] {
      var n := |a| - 1;
      FlattenLengths(a[..n], b[..n]);
      assert forall i :: 0 <= i < n ==> a[..n][i] == a[i] && b[..n][i] == b[i];
      assert (forall i :: 0 <= i < n ==> |a[i]| == |b[i]|) <==> forall i :: 0 <= i < n ==> |a[..n][i]| == |b[..n][i]|;
    }
  }

  lemma {:induction false} GatheredLength(ev: Evidence, ip: Ip, limit: int)
    requires limit < 0
    ensures |Gathered(ev, ip, limit)| == |Everything(ev, ip)|
  {
    ReversedLength(EventsOf(ev, ip));
    ReversedLength(DetectionsOf(ev, ip));
    ReversedLength(ScoresOf(ev, ip));
    ReversedLength(SortByTime(AuditsOf(ev, ip)));
    SortLength(AuditsOf(ev, ip));
    FlattenFive(EventsOf(ev, ip), DetectionsOf(ev, ip), ScoresOf(ev, ip), BanOf(ev, ip), AuditsOf(ev, ip));
    FlattenFive(Latest(EventsOf(ev, ip), limit), Latest(DetectionsOf(ev, ip), limit), Latest(ScoresOf(ev, ip), limit),
                BanOf(ev, ip), Latest(SortByTime(AuditsOf(ev, ip)), limit));
  }

  /** The timeline of an address whose rows are in time order. */
  lemma {:induction false} InOrderAgrees(ev: Evidence, ip: Ip, limit: int)
    requires InTimeOrder(ev, ip) && limit != 0
    ensures var whole := Tail(SortByTime(Everything(ev, ip)), limit);
      SameTimes(whole, GenerateForIp(ev, ip, limit)) &&
      (GenerateForIp(ev, ip, limit) == whole <==> Clear(ev, ip, limit, KeptBy(limit, |Everything(ev, ip)|)))
  {
    var all, gathered := SortByTime(Everything(ev, ip)), SortByTime(Gathered(ev, ip, limit));
    var k := KeptBy(limit, |Everything(ev, ip)|);
    SortLength(Everything(ev, ip));
    SortLength(Gathered(ev, ip, limit));
    if limit < 0 { GatheredLength(ev, ip, limit); }
    TailIsLast(all, limit);
    TailIsLast(gathered, limit);
    GatheredAgrees(ev, ip, limit, k);
    LastAlike(all, gathered, k);
  }

  predicate OnlyBan(ev: Evidence, ip: Ip) {
    EventsOf(ev, ip) == [] && DetectionsOf(ev, ip) == [] && ScoresOf(ev, ip) == [] && AuditsOf(ev, ip) == []
  }

  /** A zero limit cuts every source to nothing and then keeps what is left, the ban. */
  lemma {:induction false} ZeroLimitShowsBan(ev: Evidence, ip: Ip)
    ensures GenerateForIp(ev, ip, 0) == BanOf(ev, ip)
  {
    FlattenFive([], [], [], BanOf(ev, ip), []);
    assert Gathered(ev, ip, 0) == BanOf(ev, ip);
    SortSorted(BanOf(ev, ip));
  }

  lemma {:induction false} EverythingLength(ev: Evidence, ip: Ip)
    ensures |BanOf(ev, ip)| <= |Everything(ev, ip)|
    ensures |BanOf(ev, ip)| == |Everything(ev, ip)| <==> OnlyBan(ev, ip)
    ensures OnlyBan(ev, ip) ==> Everything(ev, ip) == BanOf(ev, ip)
  {
    FlattenFive(EventsOf(ev, ip), DetectionsOf(ev, ip), ScoresOf(ev, ip), BanOf(ev, ip), AuditsOf(ev, ip));
  }

  lemma {:induction false} KeptOrdered(sorted: seq<Entry>, limit: int)
    requires Ascending(sorted)
    ensures Ascending(Kept(sorted, limit))
  {
    if limit >= 0 { LastAscending(sorted, limit); }
  }

  lemma {:induction false} KeptAscending(ev: Evidence, ip: Ip, limit: int, p: nat)
    requires InTimeOrder(ev, ip) && p < 5
    ensures Ascending(KeptSources(ev, ip, limit)[p])
  {
    if p < 3 {
      assert KeptSources(ev, ip, limit)[p] == Kept(Sources(ev, ip)[p], limit);
      KeptOrdered(Sources(ev, ip)[p], limit);
    } else if p == 4 {
      SortAscending(AuditsOf(ev, ip));
      KeptOrdered(SortByTime(AuditsOf(ev, ip)), limit);
    }
  }

  /** When the entries of each source are pairwise different, being clear of ties is
      that no shown entry shares its time with the one before it in its source. */
  lemma {:induction false} ClearIff(ev: Evidence, ip: Ip, limit: int, k: nat)
    requires InTimeOrder(ev, ip) && forall p :: 0 <= p < 5 ==> Different(KeptSources(ev, ip, limit)[p])
    ensures Clear(ev, ip, limit, k) <==>
            forall p :: 0 <= p < 5 ==> Unshared(KeptSources(ev, ip, limit)[p], SharesOf(ev, ip, k)[p])
  {
    forall p | 0 <= p < 5
      ensures Mirrored(KeptSources(ev, ip, limit)[p], SharesOf(ev, ip, k)[p]) <==>
              Unshared(KeptSources(ev, ip, limit)[p], SharesOf(ev, ip, k)[p])
    {
      KeptAscending(ev, ip, limit, p);
      MirroredIff(KeptSources(ev, ip, limit)[p], SharesOf(ev, ip, k)[p]);
    }
  }

  /** With two events of one instant and a ban, a limit of two shows the older event. */
  lemma {:induction false} TiesMislead(ip: Ip)
    ensures var ev := Evidence([Row(5, ip, "old"), Row(5, ip, "new")], [], [], [], map[ip := Row(6, ip, "ban")], map[]);
      var earlier, later, ban := Entry(5, EventEntry, "old", None), Entry(5, EventEntry, "new", None),
        Entry(6, ResponseEntry, "ban", None);
      GenerateForIp(ev, ip, 2) == [earlier, ban] && Tail(SortByTime(Everything(ev, ip)), 2) == [later, ban]
  {
    var rows := [Row(5, ip, "old"), Row(5, ip, "new")];
    var ev := Evidence(rows, [], [], [], map[ip := Row(6, ip, "ban")], map[]);
    var earlier, later, ban := Entry(5, EventEntry, "old", None), Entry(5, EventEntry, "new", None),
      Entry(6, ResponseEntry, "ban", None);
    RowsForTwo(rows[0], rows[1], ip);
    EntriesOfTwo(EventEntry, rows[0], rows[1]);
    LatestTwo(earlier, later);
    FlattenFive([later, earlier], [], [], [ban], []);
    FlattenFive([earlier, later], [], [], [ban], []);
    assert Gathered(ev, ip, 2) == [later, earlier, ban];
    assert Everything(ev, ip) == [earlier, later, ban];
    SortSorted([later, earlier, ban]);
    SortSorted([earlier, later, ban]);
    TailIsSlice([later, earlier, ban], 2);
    TailIsSlice([earlier, later, ban], 2);
  }

  lemma {:induction false} RowsForTwo(first: Row, second: Row, ip: Ip)
    requires first.ip == second.ip == ip
    ensures RowsFor([first, second], ip) == [first, second]
  {
    assert [first, second][..1] == [first] && [first][..0] == [];
    assert RowsFor([first], ip) == [first];
  }

  lemma {:induction false} EntriesOfTwo(kind: Kind, first: Row, second: Row)
    ensures AsEntries(kind, [first, second]) ==
            [Entry(first.at, kind, first.text, None), Entry(second.at, kind, second.text, None)]
  {
    assert [first, second][..1] == [first] && [first][..0] == [];
    assert AsEntries(kind, [first]) == [Entry(first.at, kind, first.text, None)];
  }

  lemma {:induction false} LatestTwo(a: Entry, b: Entry)
    ensures Latest([a, b], 2) == [b, a]
  {
    LastIsSlice([a, b], 2);
    assert [a, b][..1] == [a] && [a][..0] == [];
    assert Reversed([a]) == [a];
  }

  // ---------------------------------------------------------------- one incident

  ghost predicate Untagged(entries: seq<Entry>) {
    forall i :: 0 <= i < |entries| ==> entries[i].incident == None
  }

  lemma {:induction false} InsertUntagged(sorted: seq<Entry>, e: Entry)
    requires Untagged(sorted) && e.incident == None
    ensures Untagged(Insert(sorted, e))
  {
    if sorted != [] && sorted[|sorted| - 1].at > e.at { InsertUntagged(sorted[..|sorted| - 1], e); }
  }

  lemma {:induction false} SortUntagged(entries: seq<Entry>)
    requires Untagged(entries)
    ensures Untagged(SortByTime(entries))
  {
    if entries != [] {
      SortUntagged(entries[..|entries| - 1]);
      InsertUntagged(SortByTime(entries[..|entries| - 1]), entries[|entries| - 1]);
    }
  }

  lemma {:induction false} ReversedUntagged(entries: seq<Entry>)
    requires Untagged(entries)
    ensures Untagged(Reversed(entries))
  {
    if entries != [] { ReversedUntagged(entries[..|entries| - 1]); }
  }

  lemma {:induction false} LatestUntagged(entries: seq<Entry>, limit: int)
    requires Untagged(entries)
    ensures Untagged(Latest(entries, limit))
  {
    if limit >= 0 { LastOfAt(entries, |entries|, limit); }
    ReversedUntagged(if limit < 0 then entries else Last(entries, limit));
  }

  lemma {:induction false} ConcatUntagged(a: seq<Entry>, b: seq<Entry>)
    requires Untagged(a) && Untagged(b)
    ensures Untagged(a + b)
  {
  }

  lemma {:induction false} FiveUntagged(a: seq<Entry>, b: seq<Entry>, c: seq<Entry>, d: seq<Entry>, e: seq<Entry>)
    requires Untagged(a) && Untagged(b) && Untagged(c) && Untagged(d) && Untagged(e)
    ensures Untagged(SortByTime(Flatten([a, b, c, d, e])))
  {
    FlattenFive(a, b, c, d, e);
    ConcatUntagged(a, b);
    ConcatUntagged(a + b, c);
    ConcatUntagged(a + b + c, d);
    ConcatUntagged(a + b + c + d, e);
    SortUntagged(a + b + c + d + e);
  }

  lemma {:induction false} EntriesUntagged(kind: Kind, rows: seq<Row>)
    ensures Untagged(AsEntries(kind, rows))
  {
    if rows != [] { EntriesUntagged(kind, rows[..|rows| - 1]); }
  }

  lemma {:induction false} QueryUntagged(kind: Kind, rows: seq<Row>, limit: int)
    ensures Untagged(Latest(AsEntries(kind, rows), limit))
    ensures Untagged(Latest(SortByTime(AsEntries(kind, rows)), limit))
  {
    EntriesUntagged(kind, rows);
    SortUntagged(AsEntries(kind, rows));
    LatestUntagged(AsEntries(kind, rows), limit);
    LatestUntagged(SortByTime(AsEntries(kind, rows)), limit);
  }

  lemma {:induction false} EverythingUntagged(ev: Evidence, ip: Ip)
    ensures Untagged(SortByTime(Everything(ev, ip)))
  {
    EntriesUntagged(EventEntry, RowsFor(ev.events, ip));
    EntriesUntagged(DetectionEntry, RowsFor(ev.detections, ip));
    EntriesUntagged(RiskChange, RowsFor(ev.scores, ip));
    EntriesUntagged(ResponseEntry, RowsFor(ev.audits, ip));
    FiveUntagged(EventsOf(ev, ip), DetectionsOf(ev, ip), ScoresOf(ev, ip), BanOf(ev, ip), AuditsOf(ev, ip));
  }

  lemma {:induction false} GatheredUntagged(ev: Evidence, ip: Ip, limit: int)
    ensures Untagged(SortByTime(Gathered(ev, ip, limit)))
  {
    QueryUntagged(EventEntry, RowsFor(ev.events, ip), limit);
    QueryUntagged(DetectionEntry, RowsFor(ev.detections, ip), limit);
    QueryUntagged(RiskChange, RowsFor(ev.scores, ip), limit);
    QueryUntagged(ResponseEntry, RowsFor(ev.audits, ip), limit);
    FiveUntagged(Latest(EventsOf(ev, ip), limit), Latest(DetectionsOf(ev, ip), limit), Latest(ScoresOf(ev, ip), limit),
                 BanOf(ev, ip), Latest(SortByTime(AuditsOf(ev, ip)), limit));
  }

  lemma {:induction false} TaggedAlign(a: seq<Entry>, i: nat, b: seq<Entry>, j: nat, incident: string, n: nat)
    requires i <= |a| && j <= |b|
    ensures TimesAlign(Tagged(a, incident), i, Tagged(b, incident), j, n) <==> TimesAlign(a, i, b, j, n)
    ensures Untagged(a) && Untagged(b) ==>
              (Align(Tagged(a, incident), i, Tagged(b, incident), j, n) <==> Align(a, i, b, j, n))
  {
    if n > 0 && i > 0 && j > 0 { TaggedAlign(a, i - 1, b, j - 1, incident, n - 1); }
  }

  lemma {:induction false} TaggedSort(entries: seq<Entry>, incident: string)
    ensures SortByTime(Tagged(entries, incident)) == Tagged(SortByTime(entries), incident)
  {
    if entries != [] {
      var before, last := entries[..|entries| - 1], entries[|entries| - 1];
      assert Tagged(entries, incident)[..|entries| - 1] == Tagged(before, incident);
      TaggedSort(before, incident);
      TaggedInsert(SortByTime(before), last, incident);
    }
  }

  lemma {:induction false} TaggedInsert(sorted: seq<Entry>, e: Entry, incident: string)
    ensures Insert(Tagged(sorted, incident), e.(incident := Some(incident))) == Tagged(Insert(sorted, e), incident)
  {
    if sorted != [] && sorted[|sorted| - 1].at > e.at {
      assert Tagged(sorted, incident)[..|sorted| - 1] == Tagged(sorted[..|sorted| - 1], incident);
      TaggedInsert(sorted[..|sorted| - 1], e, incident);
    }
  }

  ghost predicate ActorsInTimeOrder(ev: Evidence, actors: seq<Ip>) {
    forall i :: 0 <= i < |actors| ==> InTimeOrder(ev, actors[i])
  }

  /** An actor's timeline for a positive limit against the actor's whole history. */
  lemma {:induction false} TimelineEnds(ev: Evidence, ip: Ip, limit: nat, n: nat)
    requires InTimeOrder(ev, ip) && n <= limit && limit > 0
    ensures var all, timeline := SortByTime(Everything(ev, ip)), GenerateForIp(ev, ip, limit);
      EndInTime(all, timeline, n) && (EndAlike(all, timeline, n) <==> Clear(ev, ip, limit, n))
  {
    var all, gathered := SortByTime(Everything(ev, ip)), SortByTime(Gathered(ev, ip, limit));
    LastOfLast(gathered, |gathered|, limit, n);
    LastAlike(all, GenerateForIp(ev, ip, limit), n);
    LastAlike(all, gathered, n);
    GatheredAgrees(ev, ip, limit, n);
  }

  lemma {:induction false} TimelineSorted(ev: Evidence, ip: Ip, limit: nat)
    requires limit > 0
    ensures SortByTime(GenerateForIp(ev, ip, limit)) == GenerateForIp(ev, ip, limit)
    ensures Untagged(GenerateForIp(ev, ip, limit))
  {
    var gathered := SortByTime(Gathered(ev, ip, limit));
    SortAscending(Gathered(ev, ip, limit));
    LastAscending(gathered, limit);
    SortSorted(Last(gathered, limit));
    GatheredUntagged(ev, ip, limit);
    LastOfAt(gathered, |gathered|, limit);
  }

  /** The same once both are marked. */
  lemma {:induction false} ActorAgrees(ev: Evidence, ip: Ip, incident: string, limit: nat, n: nat)
    requires InTimeOrder(ev, ip) && n <= limit && limit > 0
    ensures var all, some := SortByTime(Tagged(Everything(ev, ip), incident)),
                             SortByTime(Tagged(GenerateForIp(ev, ip, limit), incident));
      EndInTime(all, some, n) && (EndAlike(all, some, n) <==> Clear(ev, ip, limit, n))
  {
    var all, timeline := SortByTime(Everything(ev, ip)), GenerateForIp(ev, ip, limit);
    TimelineEnds(ev, ip, limit, n);
    TimelineSorted(ev, ip, limit);
    EverythingUntagged(ev, ip);
    TaggedSort(Everything(ev, ip), incident);
    TaggedSort(timeline, incident);
    TaggedAlign(all, |all|, timeline, |timeline|, incident, n);
  }

  lemma {:induction false} SelfAlike(entries: seq<Entry>, n: nat)
    ensures EndInTime(entries, entries, n) && EndAlike(entries, entries, n)
  {
    LastAlike(entries, entries, n);
  }

  /** One source of an incident against the actor's history. */
  lemma {:induction false} ActorAt(ev: Evidence, actors: seq<Ip>, incident: string, limit: nat, n: nat, i: nat)
    requires i < |actors| && InTimeOrder(ev, actors[i]) && n <= limit && limit > 0
    ensures var all, some := SortByTime(Tagged(HistoriesOf(ev, actors)[i], incident)),
                             SortByTime(Tagged(TimelinesOf(ev, actors, limit)[i], incident));
      EndInTime(all, some, n) && (EndAlike(all, some, n) <==> Clear(ev, actors[i], limit, n))
  {
    ActorAgrees(ev, actors[i], incident, limit, n);
  }

  lemma {:induction false} MarkedSource(first: seq<Entry>, a: seq<seq<Entry>>, b: seq<seq<Entry>>, incident: string,
                                        n: nat, p: nat, clear: bool)
    requires 0 < p <= |a| && |a| == |b|
    requires EndInTime(SortByTime(Tagged(a[p - 1], incident)), SortByTime(Tagged(b[p - 1], incident)), n)
    requires EndAlike(SortByTime(Tagged(a[p - 1], incident)), SortByTime(Tagged(b[p - 1], incident)), n) <==> clear
    ensures var c, d := Attributed(first, a, incident)[p], Attributed(first, b, incident)[p];
      EndInTime(SortByTime(c), SortByTime(d), n) && (EndAlike(SortByTime(c), SortByTime(d), n) <==> clear)
  {
  }

  lemma {:induction false} SourceOfIncident(ev: Evidence, first: seq<Entry>, actors: seq<Ip>, incident: string,
                                            limit: nat, n: nat, p: nat)
    requires 0 < p <= |actors| && InTimeOrder(ev, actors[p - 1]) && n <= limit && limit > 0
    ensures var history, timeline := Attributed(first, HistoriesOf(ev, actors), incident)[p],
                                     Attributed(first, TimelinesOf(ev, actors, limit), incident)[p];
      EndInTime(SortByTime(history), SortByTime(timeline), n) &&
      (EndAlike(SortByTime(history), SortByTime(timeline), n) <==> Clear(ev, actors[p - 1], limit, n))
  {
    ActorAt(ev, actors, incident, limit, n, p - 1);
    MarkedSource(first, HistoriesOf(ev, actors), TimelinesOf(ev, actors, limit), incident, n, p,
                 Clear(ev, actors[p - 1], limit, n));
  }

  lemma {:induction false} FirstSource(first: seq<Entry>, a: seq<seq<Entry>>, b: seq<seq<Entry>>, incident: string,
                                       n: nat)
    ensures var c, d := Attributed(first, a, incident)[0], Attributed(first, b, incident)[0];
      EndInTime(SortByTime(c), SortByTime(d), n) && EndAlike(SortByTime(c), SortByTime(d), n)
  {
    SelfAlike(SortByTime(first), n);
  }

  /** What is shown of every actor is clear of ties. */
  ghost predicate SharesClear(ev: Evidence, actors: seq<Ip>, limit: nat, shares: seq<nat>)
    requires |shares| == |actors| + 1
  {
    forall p :: 0 < p <= |actors| ==> Clear(ev, actors[p - 1], limit, shares[p])
  }

  lemma {:induction false} ActorsAgree(ev: Evidence, first: seq<Entry>, actors: seq<Ip>, incident: string, limit: nat)
    requires ActorsInTimeOrder(ev, actors) && limit > 0
    ensures var histories, timelines := Attributed(first, HistoriesOf(ev, actors), incident),
                                        Attributed(first, TimelinesOf(ev, actors, limit), incident);
      EndInTime(SortByTime(Flatten(histories)), SortByTime(Flatten(timelines)), limit) &&
      (EndAlike(SortByTime(Flatten(histories)), SortByTime(Flatten(timelines)), limit) <==>
       SharesClear(ev, actors, limit, Shown(SortEach(histories), |actors| + 1, limit)))
  {
    var histories, timelines := Attributed(first, HistoriesOf(ev, actors), incident),
                                Attributed(first, TimelinesOf(ev, actors, limit), incident);
    var shares := Shown(SortEach(histories), |actors| + 1, limit);
    forall p: nat | p <= |actors|
      ensures EndInTime(SortByTime(histories[p]), SortByTime(timelines[p]), limit)
      ensures EndAlike(SortByTime(histories[p]), SortByTime(timelines[p]), shares[p]) <==>
              p == 0 || Clear(ev, actors[p - 1], limit, shares[p])
    {
      if p == 0 {
        FirstSource(first, HistoriesOf(ev, actors), TimelinesOf(ev, actors, limit), incident, limit);
        FirstSource(first, HistoriesOf(ev, actors), TimelinesOf(ev, actors, limit), incident, shares[0]);
      } else {
        SourceOfIncident(ev, first, actors, incident, limit, limit, p);
        SourceOfIncident(ev, first, actors, incident, limit, shares[p], p);
      }
    }
    FlattenAgree(histories, timelines, limit);
  }

  /** How many of the first entries and of each actor's are among the last `k`. */
  function SharesFrom(ev: Evidence, first: seq<Entry>, actors: seq<Ip>, incident: string, k: nat): (shares: seq<nat>)
    ensures |shares| == |actors| + 1
  {
    Shown(SortEach(SourcesFrom(ev, first, actors, incident)), |actors| + 1, k)
  }

  /** For a positive limit and rows in time order the timeline has the times of the tail
      of everything, and its entries exactly when those of every actor are clear of ties. */
  lemma {:induction false} InOrderFromAgrees(ev: Evidence, first: seq<Entry>, actors: seq<Ip>, incident: string,
                                             limit: nat)
    requires ActorsInTimeOrder(ev, actors) && limit > 0
    ensures var whole, shown := Tail(WholeFrom(ev, first, actors, incident), limit),
                                TimelineFrom(ev, first, actors, incident, limit);
      SameTimes(whole, shown) &&
      (shown == whole <==> SharesClear(ev, actors, limit, SharesFrom(ev, first, actors, incident, limit)))
  {
    ActorsAgree(ev, first, actors, incident, limit);
    LastAlike(WholeFrom(ev, first, actors, incident),
              SortByTime(Flatten(Attributed(first, TimelinesOf(ev, actors, limit), incident))), limit);
  }

  /** At a zero limit the address has only a ban, below zero nothing at all. */
  predicate ActorShort(ev: Evidence, ip: Ip, limit: int) {
    if limit == 0 then OnlyBan(ev, ip) else Everything(ev, ip) == []
  }

  /** The lengths of an actor's timeline and history when the limit is not positive. */
  lemma {:induction false} ActorLengths(ev: Evidence, ip: Ip, limit: int)
    requires limit <= 0
    ensures var timeline, history := GenerateForIp(ev, ip, limit), Everything(ev, ip);
      |timeline| <= |history| &&
      (|timeline| == |history| <==> ActorShort(ev, ip, limit)) &&
      (|timeline| == |history| ==> timeline == history)
  {
    if limit == 0 {
      ZeroLimitShowsBan(ev, ip);
      EverythingLength(ev, ip);
    } else {
      SortLength(Gathered(ev, ip, limit));
      GatheredLength(ev, ip, limit);
      TailLength(SortByTime(Gathered(ev, ip, limit)), limit);
    }
  }

  ghost predicate ActorsShort(ev: Evidence, actors: seq<Ip>, limit: int) {
    forall i :: 0 <= i < |actors| ==> ActorShort(ev, actors[i], limit)
  }

  lemma {:induction false} AttributedLengths(first: seq<Entry>, a: seq<seq<Entry>>, b: seq<seq<Entry>>,
                                             incident: string)
    requires |a| == |b| && forall i :: 0 <= i < |a| ==> |a[i]| <= |b[i]|
    ensures var c, d := Flatten(Attributed(first, a, incident)), Flatten(Attributed(first, b, incident));
      |c| <= |d| && (|c| == |d| <==> forall i :: 0 <= i < |a| ==> |a[i]| == |b[i]|)
  {
    var c, d := Attributed(first, a, incident), Attributed(first, b, incident);
    assert forall i :: 0 <= i < |a| ==> |c[i + 1]| == |a[i]| && |d[i + 1]| == |b[i]|;
    FlattenLengths(c, d);
    if forall i :: 0 <= i < |a| ==> |a[i]| == |b[i]| {
      forall p | 0 <= p < |c| ensures |c[p]| == |d[p]| {
        if p > 0 { assert |a[p - 1]| == |b[p - 1]|; }
      }
    }
  }

  lemma {:induction false} ShortTimelines(ev: Evidence, first: seq<Entry>, actors: seq<Ip>, incident: string,
                                          limit: int)
    requires limit <= 0
    ensures var histories, timelines := Attributed(first, HistoriesOf(ev, actors), incident),
                                        Attributed(first, TimelinesOf(ev, actors, limit), incident);
      |Flatten(timelines)| <= |Flatten(histories)| &&
      (|Flatten(timelines)| == |Flatten(histories)| <==> ActorsShort(ev, actors, limit)) &&
      (ActorsShort(ev, actors, limit) ==> timelines == histories)
  {
    var a, b := TimelinesOf(ev, actors, limit), HistoriesOf(ev, actors);
    forall i | 0 <= i < |actors|
      ensures |a[i]| <= |b[i]|
      ensures |a[i]| == |b[i]| <==> ActorShort(ev, actors[i], limit)
      ensures |a[i]| == |b[i]| ==> a[i] == b[i]
    {
      ActorLengths(ev, actors[i], limit);
    }
    AttributedLengths(first, a, b, incident);
    if ActorsShort(ev, actors, limit) { assert a == b; }
  }

  /** Without a positive limit the timeline is the tail of everything, or at least has its
      times, exactly when every actor is short or all is dropped. */
  lemma {:induction false} ShortTimelineFrom(ev: Evidence, first: seq<Entry>, actors: seq<Ip>, incident: string,
                                             limit: int)
    requires limit <= 0
    ensures var whole := WholeFrom(ev, first, actors, incident);
      var shown, tail := TimelineFrom(ev, first, actors, incident, limit), Tail(whole, limit);
      (shown == tail <==> SameTimes(tail, shown)) &&
      (shown == tail <==> ActorsShort(ev, actors, limit) || (limit < 0 && |whole| <= -limit))
  {
    ShortTimelines(ev, first, actors, incident, limit);
    SortLength(Flatten(SourcesFrom(ev, first, actors, incident)));
    TailsOfLengths(Flatten(Attributed(first, TimelinesOf(ev, actors, limit), incident)),
                   Flatten(SourcesFrom(ev, first, actors, incident)), limit);
  }

  /** Tails without a positive limit, of a list that is shorter unless it is the same. */
  lemma {:induction false} TailsOfLengths(some: seq<Entry>, all: seq<Entry>, limit: int)
    requires limit <= 0 && |some| <= |all| && (|some| == |all| ==> some == all)
    ensures var shown, whole := Tail(SortByTime(some), limit), Tail(SortByTime(all), limit);
      (shown == whole <==> SameTimes(whole, shown)) &&
      (shown == whole <==> |some| == |all| || (limit < 0 && |all| <= -limit))
  {
    SortLength(some);
    SortLength(all);
    TailLength(SortByTime(some), limit);
    TailLength(SortByTime(all), limit);
  }

  lemma {:induction false} AttributedNone(first: seq<Entry>, incident: string)
    ensures Flatten(Attributed(first, [], incident)) == first
  {
    FlattenSnoc([], first);
    assert Attributed(first, [], incident) == [] + [first];
  }

  /** One more actor. */
  lemma {:induction false} AttributedNext(first: seq<Entry>, entries: seq<seq<Entry>>, i: nat, incident: string)
    requires i < |entries|
    ensures Flatten(Attributed(first, entries[..i + 1], incident)) ==
            Flatten(Attributed(first, entries[..i], incident)) + Tagged(entries[i], incident)
  {
    FlattenSnoc(Attributed(first, entries[..i], incident), Tagged(entries[i], incident));
    assert Attributed(first, entries[..i + 1], incident) ==
           Attributed(first, entries[..i], incident) + [Tagged(entries[i], incident)];
  }

  // ---------------------------------------------------------------- rows and entries in the same order

  lemma {:induction false} EntriesAt(kind: Kind, rows: seq<Row>)
    ensures |AsEntries(kind, rows)| == |rows|
    ensures forall i :: 0 <= i < |rows| ==> AsEntries(kind, rows)[i] == Entry(rows[i].at, kind, rows[i].text, None)
  {
    if rows != [] { EntriesAt(kind, rows[..|rows| - 1]); }
  }

  lemma {:induction false} ReversedEntries(kind: Kind, rows: seq<Row>)
    ensures AsEntries(kind, Reversed(rows)) == Reversed(AsEntries(kind, rows))
  {
    if rows != [] {
      var before, last := rows[..|rows| - 1], rows[|rows| - 1];
      ReversedEntries(kind, before);
      EntriesAt(kind, Reversed(before));
      EntriesAt(kind, [last] + Reversed(before));
    }
  }

  lemma {:induction false} LatestEntries(kind: Kind, rows: seq<Row>, limit: int)
    ensures AsEntries(kind, Latest(rows, limit)) == Latest(AsEntries(kind, rows), limit)
  {
    var kept := if limit < 0 then rows else Last(rows, limit);
    ReversedEntries(kind, kept);
    EntriesAt(kind, rows);
    EntriesAt(kind, kept);
    if limit >= 0 {
      LastIsSlice(rows, limit);
      LastIsSlice(AsEntries(kind, rows), limit);
    }
    assert AsEntries(kind, kept) == if limit < 0 then AsEntries(kind, rows) else Last(AsEntries(kind, rows), limit);
  }

  lemma {:induction false} GatheredByRows(ev: Evidence, ip: Ip, limit: int)
    ensures Gathered(ev, ip, limit) ==
            AsEntries(EventEntry, Latest(RowsFor(ev.events, ip), limit))
            + AsEntries(DetectionEntry, Latest(RowsFor(ev.detections, ip), limit))
            + AsEntries(RiskChange, Latest(RowsFor(ev.scores, ip), limit))
            + BanOf(ev, ip)
            + Latest(SortByTime(AuditsOf(ev, ip)), limit)
  {
    LatestEntries(EventEntry, RowsFor(ev.events, ip), limit);
    LatestEntries(DetectionEntry, RowsFor(ev.detections, ip), limit);
    LatestEntries(RiskChange, RowsFor(ev.scores, ip), limit);
    FlattenFive(Latest(EventsOf(ev, ip), limit), Latest(DetectionsOf(ev, ip), limit), Latest(ScoresOf(ev, ip), limit),
                BanOf(ev, ip), Latest(SortByTime(AuditsOf(ev, ip)), limit));
  }
}
