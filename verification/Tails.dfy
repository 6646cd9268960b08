/** When a timeline is the tail of everything stored, for rows inserted in any order:
    what the queries cut away must be outnumbered by later entries they returned. */
module Tails {
  import opened Domain
  import opened Timeline

  // ---------------------------------------------------------------- counting from an instant on

  /** How many entries are at `t` or later. */
  function Since(entries: seq<Entry>, t: int): nat {
    if entries == [] then 0
    else Since(entries[..|entries| - 1], t) + if entries[|entries| - 1].at >= t then 1 else 0
  }

  lemma {:induction false} SinceSnoc(entries: seq<Entry>, e: Entry, t: int)
    ensures Since(entries + [e], t) == Since(entries, t) + if e.at >= t then 1 else 0
  {
    assert (entries + [e])[..|entries|] == entries;
  }

  lemma {:induction false} SinceConcat(a: seq<Entry>, b: seq<Entry>, t: int)
    ensures Since(a + b, t) == Since(a, t) + Since(b, t)
  {
    if b == [] {
      assert a + b == a;
    } else {
      var b', last := b[..|b| - 1], b[|b| - 1];
      assert a + b == (a + b') + [last];
      SinceSnoc(a + b', last, t);
      SinceConcat(a, b', t);
    }
  }

  lemma {:induction false} SinceInsert(sorted: seq<Entry>, e: Entry, t: int)
    ensures Since(Insert(sorted, e), t) == Since(sorted, t) + if e.at >= t then 1 else 0
  {
    if sorted == [] || sorted[|sorted| - 1].at <= e.at {
      SinceSnoc(sorted, e, t);
      assert sorted == [] ==> sorted + [e] == [e];
    } else {
      SinceInsert(sorted[..|sorted| - 1], e, t);
      SinceSnoc(Insert(sorted[..|sorted| - 1], e), sorted[|sorted| - 1], t);
    }
  }

  lemma {:induction false} SinceSorted(entries: seq<Entry>, t: int)
    ensures Since(SortByTime(entries), t) == Since(entries, t)
  {
    if entries != [] {
      SinceSorted(entries[..|entries| - 1], t);
      SinceInsert(SortByTime(entries[..|entries| - 1]), entries[|entries| - 1], t);
    }
  }

  lemma {:induction false} SinceReversed(entries: seq<Entry>, t: int)
    ensures Since(Reversed(entries), t) == Since(entries, t)
  {
    if entries != [] {
      var before, last := entries[..|entries| - 1], entries[|entries| - 1];
      SinceReversed(before, t);
      SinceConcat([last], Reversed(before), t);
      SinceSnoc([], last, t);
      assert [] + [last] == [last];
    }
  }

  lemma {:induction false} SinceTagged(entries: seq<Entry>, incident: string, t: int)
    ensures Since(Tagged(entries, incident), t) == Since(entries, t)
  {
    if entries != [] {
      var n := |entries| - 1;
      SinceTagged(entries[..n], incident, t);
      assert Tagged(entries, incident)[..n] == Tagged(entries[..n], incident);
    }
  }

  lemma {:induction false} SinceBounds(entries: seq<Entry>, t: int)
    ensures Since(entries, t) <= |entries|
    ensures Since(entries, t) == |entries| <==> forall i :: 0 <= i < |entries| ==> entries[i].at >= t
    ensures Since(entries, t) == 0 <==> forall i :: 0 <= i < |entries| ==> entries[i].at < t
  {
    if entries != [] { SinceBounds(entries[..|entries| - 1], t); }
  }

  lemma {:induction false} SinceEarlier(entries: seq<Entry>, t: int, u: int)
    requires t <= u
    ensures Since(entries, u) <= Since(entries, t)
  {
    if entries != [] { SinceEarlier(entries[..|entries| - 1], t, u); }
  }

  function AtMost(n: nat, m: nat): nat { if n < m then n else m }

  lemma {:induction false} NoneBefore(sorted: seq<Entry>, i: nat, t: int)
    requires Ascending(sorted) && 0 < i <= |sorted| && sorted[i - 1].at < t
    ensures Since(sorted[..i - 1], t) == 0
  {
    SinceBounds(sorted[..i - 1], t);
  }

  lemma {:induction false} SinceOneMore(last: seq<Entry>, all: seq<Entry>, e: Entry, n: nat, t: int)
    requires n > 0 && Since(last, t) == AtMost(Since(all, t), n - 1) && (e.at < t ==> Since(all, t) == 0)
    ensures Since(last + [e], t) == AtMost(Since(all + [e], t), n)
  {
    SinceSnoc(last, e, t);
    SinceSnoc(all, e, t);
  }

  lemma {:induction false} SinceLastOf(sorted: seq<Entry>, i: nat, n: nat, t: int)
    requires Ascending(sorted) && i <= |sorted|
    ensures Since(LastOf(sorted, i, n), t) == AtMost(Since(sorted[..i], t), n)
  {
    if n > 0 && i > 0 {
      SinceLastOf(sorted, i - 1, n - 1, t);
      if sorted[i - 1].at < t { NoneBefore(sorted, i, t); }
      SinceOneMore(LastOf(sorted, i - 1, n - 1), sorted[..i - 1], sorted[i - 1], n, t);
      assert sorted[..i] == sorted[..i - 1] + [sorted[i - 1]];
    }
  }

  /** The last entries of a sorted list are the latest. */
  lemma {:induction false} SinceLast(sorted: seq<Entry>, n: nat, t: int)
    requires Ascending(sorted)
    ensures Since(Last(sorted, n), t) == AtMost(Since(sorted, t), n)
  {
    SinceLastOf(sorted, |sorted|, n, t);
    assert sorted[..|sorted|] == sorted;
  }

  // ---------------------------------------------------------------- times by counting

  ghost predicate SinceAlike(a: seq<Entry>, b: seq<Entry>) {
    forall t :: Since(a, t) == Since(b, t)
  }

  lemma {:induction false} TimesCount(a: seq<Entry>, b: seq<Entry>, t: int)
    requires SameTimes(a, b)
    ensures Since(a, t) == Since(b, t)
  {
    if a != [] { TimesCount(a[..|a| - 1], b[..|b| - 1], t); }
  }

  lemma {:induction false} LatestOf(a: seq<Entry>, b: seq<Entry>)
    requires Ascending(b) && SinceAlike(a, b) && a != []
    ensures b != [] && b[|b| - 1].at >= a[|a| - 1].at
  {
    var t := a[|a| - 1].at;
    assert Since(a, t) == Since(b, t);
    SinceBounds(b, t);
  }

  /** Sorted lists with equal counts have the same times. */
  lemma {:induction false} CountTimes(a: seq<Entry>, b: seq<Entry>)
    requires Ascending(a) && Ascending(b) && SinceAlike(a, b)
    ensures SameTimes(a, b)
  {
    if a != [] { LatestOf(a, b); }
    if b != [] { LatestOf(b, a); }
    if a != [] && b != [] {
      var a', b' := a[..|a| - 1], b[..|b| - 1];
      forall t ensures Since(a', t) == Since(b', t) { assert Since(a, t) == Since(b, t); }
      CountTimes(a', b');
    }
  }

  /** From every instant on, the gathered entries are all there are or at least `k`. */
  ghost predicate CountsReach(all: seq<Entry>, gathered: seq<Entry>, k: nat) {
    forall t :: Since(gathered, t) == Since(all, t) || Since(gathered, t) >= k
  }

  /** The last `k` times of what was gathered are those of everything exactly when, from
      every instant on, nothing is missing or `k` entries are there anyway. */
  lemma {:induction false} EndTimesIff(all: seq<Entry>, gathered: seq<Entry>, k: nat)
    requires forall t :: Since(gathered, t) <= Since(all, t)
    ensures SameTimes(Last(SortByTime(all), k), Last(SortByTime(gathered), k)) <==> CountsReach(all, gathered, k)
  {
    var x, y := Last(SortByTime(all), k), Last(SortByTime(gathered), k);
    SortAscending(all);
    SortAscending(gathered);
    LastAscending(SortByTime(all), k);
    LastAscending(SortByTime(gathered), k);
    forall t
      ensures Since(x, t) == AtMost(Since(all, t), k) && Since(y, t) == AtMost(Since(gathered, t), k)
    {
      SinceSorted(all, t);
      SinceSorted(gathered, t);
      SinceLast(SortByTime(all), k, t);
      SinceLast(SortByTime(gathered), k, t);
    }
    if SameTimes(x, y) {
      forall t ensures Since(gathered, t) == Since(all, t) || Since(gathered, t) >= k { TimesCount(x, y, t); }
    }
    if CountsReach(all, gathered, k) {
      forall t ensures Since(x, t) == Since(y, t) {
        assert Since(gathered, t) == Since(all, t) || Since(gathered, t) >= k;
      }
      CountTimes(x, y);
    }
  }

  // ---------------------------------------------------------------- entries by instants

  /** What is left of `n` once `m` are taken. */
  function Room(n: nat, m: nat): nat { if n > m then n - m else 0 }

  /** What the last `k` entries in time order show of one instant. */
  function ShownAt(entries: seq<Entry>, k: nat, t: int): seq<Entry> {
    Last(AtTime(entries, t), Room(k, Since(entries, t + 1)))
  }

  /** Two unsorted lists show the same of every instant. */
  ghost predicate InstantsAlike(all: seq<Entry>, gathered: seq<Entry>, k: nat) {
    forall t :: ShownAt(all, k, t) == ShownAt(gathered, k, t)
  }

  lemma {:induction false} AtTimeSnoc(entries: seq<Entry>, e: Entry, t: int)
    ensures AtTime(entries + [e], t) == AtTime(entries, t) + if e.at == t then [e] else []
  {
    assert (entries + [e])[..|entries|] == entries;
  }

  lemma {:induction false} AtTimeNone(entries: seq<Entry>, t: int)
    requires forall i :: 0 <= i < |entries| ==> entries[i].at != t
    ensures AtTime(entries, t) == []
  {
    if entries != [] { AtTimeNone(entries[..|entries| - 1], t); }
  }

  lemma {:induction false} LastOfNothing(n: nat)
    ensures Last<Entry>([], n) == []
  {
  }

  lemma {:induction false} AtTimeLast(sorted: seq<Entry>, n: nat, t: int)
    requires Ascending(sorted)
    ensures AtTime(Last(sorted, n), t) == ShownAt(sorted, n, t)
  {
    if n == 0 {
      LastOfNothing(0);
    } else if sorted == [] {
      LastOfNothing(n);
    } else {
      AtTimeLast(sorted[..|sorted| - 1], n - 1, t);
      AtTimeLastSnoc(sorted[..|sorted| - 1], sorted[|sorted| - 1], sorted, n, t);
    }
  }

  lemma {:induction false} AtTimeLastSnoc(before: seq<Entry>, e: Entry, sorted: seq<Entry>, n: nat, t: int)
    requires n > 0 && sorted == before + [e] && forall i :: 0 <= i < |before| ==> before[i].at <= e.at
    requires AtTime(Last(before, n - 1), t) == ShownAt(before, n - 1, t)
    ensures AtTime(Last(sorted, n), t) == ShownAt(sorted, n, t)
  {
    LastSnoc(before, e, n);
    AtTimeSnoc(Last(before, n - 1), e, t);
    ShownSnoc(before, e, n, t);
  }

  /** What one latest entry more shows of an instant. */
  lemma {:induction false} ShownSnoc(entries: seq<Entry>, e: Entry, n: nat, t: int)
    requires n > 0 && forall i :: 0 <= i < |entries| ==> entries[i].at <= e.at
    ensures ShownAt(entries + [e], n, t) == ShownAt(entries, n - 1, t) + if e.at == t then [e] else []
  {
    AtTimeSnoc(entries, e, t);
    SinceSnoc(entries, e, t + 1);
    assert AtTime(entries, t) + [] == AtTime(entries, t);
    if e.at == t {
      SinceBounds(entries, t + 1);
      LastSnoc(AtTime(entries, t), e, n);
    } else if e.at < t {
      AtTimeNone(entries, t);
      LastOfNothing(Room(n - 1, Since(entries, t + 1)));
      LastOfNothing(Room(n, Since(entries + [e], t + 1)));
    }
  }

  ghost predicate AtTimeAlike(a: seq<Entry>, b: seq<Entry>) {
    forall t :: AtTime(a, t) == AtTime(b, t)
  }

  lemma {:induction false} LastInstant(a: seq<Entry>, b: seq<Entry>)
    requires Ascending(b) && AtTimeAlike(a, b) && a != []
    ensures b != [] && b[|b| - 1].at >= a[|a| - 1].at
  {
    var t := a[|a| - 1].at;
    assert AtTime(a, t) == AtTime(b, t) != [];
    if b == [] || b[|b| - 1].at < t { AtTimeNone(b, t); }
  }

  /** Sorted lists that agree at every instant are the same. */
  lemma {:induction false} InstantsDetermine(a: seq<Entry>, b: seq<Entry>)
    requires Ascending(a) && Ascending(b) && AtTimeAlike(a, b)
    ensures a == b
  {
    if a != [] { LastInstant(a, b); }
    if b != [] { LastInstant(b, a); }
    if a != [] && b != [] {
      var a', b', x, y := a[..|a| - 1], b[..|b| - 1], a[|a| - 1], b[|b| - 1];
      assert a == a' + [x] && b == b' + [y];
      AtTimeSnoc(a', x, x.at);
      AtTimeSnoc(b', y, x.at);
      assert AtTime(a, x.at) == AtTime(b, x.at);
      SnocEqual(AtTime(a', x.at), AtTime(b', x.at), x, y);
      forall t ensures AtTime(a', t) == AtTime(b', t) {
        AtTimeSnoc(a', x, t);
        AtTimeSnoc(b', y, t);
        assert AtTime(a', t) + [] == AtTime(a', t) && AtTime(b', t) + [] == AtTime(b', t);
        assert AtTime(a, t) == AtTime(b, t);
        if t == x.at { assert AtTime(a', t) == AtTime(b', t); }
      }
      InstantsDetermine(a', b');
    }
  }

  /** The last `k` entries of what was gathered are those of everything exactly when
      both show the same of every instant. */
  lemma {:induction false} EndEntriesIff(all: seq<Entry>, gathered: seq<Entry>, k: nat)
    ensures Last(SortByTime(all), k) == Last(SortByTime(gathered), k) <==> InstantsAlike(all, gathered, k)
  {
    var x, y := Last(SortByTime(all), k), Last(SortByTime(gathered), k);
    SortAscending(all);
    SortAscending(gathered);
    forall t ensures AtTime(x, t) == ShownAt(all, k, t) && AtTime(y, t) == ShownAt(gathered, k, t) {
      ShownSorted(all, k, t);
      ShownSorted(gathered, k, t);
      AtTimeLast(SortByTime(all), k, t);
      AtTimeLast(SortByTime(gathered), k, t);
    }
    if x == y {
      forall t ensures ShownAt(all, k, t) == ShownAt(gathered, k, t) { assert AtTime(x, t) == AtTime(y, t); }
    }
    if InstantsAlike(all, gathered, k) {
      forall t ensures AtTime(x, t) == AtTime(y, t) { assert ShownAt(all, k, t) == ShownAt(gathered, k, t); }
      LastAscending(SortByTime(all), k);
      LastAscending(SortByTime(gathered), k);
      InstantsDetermine(x, y);
    }
  }

  lemma {:induction false} ShownSorted(entries: seq<Entry>, k: nat, t: int)
    ensures ShownAt(SortByTime(entries), k, t) == ShownAt(entries, k, t)
  {
    SortStable(entries, t);
    SinceSorted(entries, t + 1);
  }

  // ---------------------------------------------------------------- what the queries cut away

  /** The rows left out by a LIMIT on descending order. */
  function CutRows(rows: seq<Entry>, limit: int): seq<Entry> {
    if limit < 0 || limit >= |rows| then [] else rows[..|rows| - limit]
  }

  lemma {:induction false} CutAndKept(rows: seq<Entry>, limit: int)
    ensures rows == CutRows(rows, limit) + Kept(rows, limit)
  {
    if limit >= 0 { LastIsSlice(rows, limit); }
  }

  lemma {:induction false} CutAndLatest(rows: seq<Entry>, limit: int, t: int)
    ensures Since(rows, t) == Since(CutRows(rows, limit), t) + Since(Latest(rows, limit), t)
  {
    CutAndKept(rows, limit);
    SinceConcat(CutRows(rows, limit), Kept(rows, limit), t);
    SinceReversed(Kept(rows, limit), t);
  }

  /** Every row about an address that one of the four limited queries leaves out. */
  function CutOf(ev: Evidence, ip: Ip, limit: int): seq<Entry> {
    CutRows(EventsOf(ev, ip), limit) + CutRows(DetectionsOf(ev, ip), limit) + CutRows(ScoresOf(ev, ip), limit) +
    CutRows(SortByTime(AuditsOf(ev, ip)), limit)
  }

  lemma {:induction false} SinceFive(a: seq<Entry>, b: seq<Entry>, c: seq<Entry>, d: seq<Entry>, e: seq<Entry>, t: int)
    ensures Since(Flatten([a, b, c, d, e]), t) == Since(a, t) + Since(b, t) + Since(c, t) + Since(d, t) + Since(e, t)
  {
    FlattenFive(a, b, c, d, e);
    SinceConcat(a, b, t);
    SinceConcat(a + b, c, t);
    SinceConcat(a + b + c, d, t);
    SinceConcat(a + b + c + d, e, t);
  }

  /** From every instant on, everything is what was gathered and what was cut. */
  lemma {:induction false} GatheredCounts(ev: Evidence, ip: Ip, limit: int, t: int)
    ensures Since(Everything(ev, ip), t) == Since(Gathered(ev, ip, limit), t) + Since(CutOf(ev, ip, limit), t)
  {
    var a, b, c, e := EventsOf(ev, ip), DetectionsOf(ev, ip), ScoresOf(ev, ip), SortByTime(AuditsOf(ev, ip));
    SinceFive(a, b, c, BanOf(ev, ip), AuditsOf(ev, ip), t);
    SinceFive(Latest(a, limit), Latest(b, limit), Latest(c, limit), BanOf(ev, ip), Latest(e, limit), t);
    SinceSorted(AuditsOf(ev, ip), t);
    CutAndLatest(a, limit, t);
    CutAndLatest(b, limit, t);
    CutAndLatest(c, limit, t);
    CutAndLatest(e, limit, t);
    SinceConcat(CutRows(a, limit), CutRows(b, limit), t);
    SinceConcat(CutRows(a, limit) + CutRows(b, limit), CutRows(c, limit), t);
    SinceConcat(CutRows(a, limit) + CutRows(b, limit) + CutRows(c, limit), CutRows(e, limit), t);
  }

  /** Every row that was cut has at least `k` gathered entries at its time or later. */
  ghost predicate Outnumbered(missing: seq<Entry>, gathered: seq<Entry>, k: int) {
    forall e :: e in missing ==> Since(gathered, e.at) >= k
  }

  /** Entries that are missing from a gathered list do no harm exactly when they are
      outnumbered. */
  lemma {:induction false} OutnumberedIff(all: seq<Entry>, gathered: seq<Entry>, missing: seq<Entry>, k: nat)
    requires forall t :: Since(all, t) == Since(gathered, t) + Since(missing, t)
    ensures CountsReach(all, gathered, k) <==> Outnumbered(missing, gathered, k)
  {
    if CountsReach(all, gathered, k) {
      forall e | e in missing ensures Since(gathered, e.at) >= k {
        SinceBounds(missing, e.at);
        assert Since(gathered, e.at) == Since(all, e.at) || Since(gathered, e.at) >= k;
      }
    }
    if Outnumbered(missing, gathered, k) {
      forall t ensures Since(gathered, t) == Since(all, t) || Since(gathered, t) >= k {
        SinceBounds(missing, t);
        if Since(missing, t) > 0 {
          var i :| 0 <= i < |missing| && missing[i].at >= t;
          assert missing[i] in missing;
          SinceEarlier(gathered, t, missing[i].at);
        }
      }
    }
  }

  // ---------------------------------------------------------------- one address

  lemma {:induction false} NothingCut(ev: Evidence, ip: Ip, limit: int)
    requires limit < 0
    ensures CutOf(ev, ip, limit) == []
  {
  }

  lemma {:induction false} TimelineLast(ev: Evidence, ip: Ip, limit: int)
    requires limit != 0
    ensures var k := KeptBy(limit, |Everything(ev, ip)|);
      Tail(SortByTime(Everything(ev, ip)), limit) == Last(SortByTime(Everything(ev, ip)), k) &&
      GenerateForIp(ev, ip, limit) == Last(SortByTime(Gathered(ev, ip, limit)), k)
  {
    SortLength(Everything(ev, ip));
    SortLength(Gathered(ev, ip, limit));
    if limit < 0 { GatheredLength(ev, ip, limit); }
    TailIsLast(SortByTime(Everything(ev, ip)), limit);
    TailIsLast(SortByTime(Gathered(ev, ip, limit)), limit);
  }

  lemma {:induction false} ZeroLimitIff(ev: Evidence, ip: Ip)
    ensures var shown, whole := GenerateForIp(ev, ip, 0), Tail(SortByTime(Everything(ev, ip)), 0);
      (shown == whole <==> OnlyBan(ev, ip)) && (SameTimes(whole, shown) <==> OnlyBan(ev, ip))
  {
    ZeroLimitShowsBan(ev, ip);
    EverythingLength(ev, ip);
    SortLength(Everything(ev, ip));
    SortSorted(BanOf(ev, ip));
  }

  /** The times of an address's timeline are those of the tail of everything stored
      about it, whatever the order of insertion, exactly when every row that a query cut
      has at least `limit` gathered entries at its time or later; for a zero limit
      exactly when there is only a ban. */
  lemma {:induction false} TimelineTimesIff(ev: Evidence, ip: Ip, limit: int)
    ensures SameTimes(Tail(SortByTime(Everything(ev, ip)), limit), GenerateForIp(ev, ip, limit)) <==>
            if limit == 0 then OnlyBan(ev, ip)
            else Outnumbered(CutOf(ev, ip, limit), Gathered(ev, ip, limit), limit)
  {
    if limit == 0 {
      ZeroLimitIff(ev, ip);
    } else {
      var all, gathered, k := Everything(ev, ip), Gathered(ev, ip, limit), KeptBy(limit, |Everything(ev, ip)|);
      TimelineLast(ev, ip, limit);
      forall t ensures Since(all, t) == Since(gathered, t) + Since(CutOf(ev, ip, limit), t) {
        GatheredCounts(ev, ip, limit, t);
      }
      EndTimesIff(all, gathered, k);
      OutnumberedIff(all, gathered, CutOf(ev, ip, limit), k);
      if limit < 0 { NothingCut(ev, ip, limit); }
    }
  }

  /** The timeline is the tail of everything stored, whatever the order of insertion,
      exactly when what was gathered of every instant ends with what is to be shown of
      it; for a zero limit exactly when there is only a ban. */
  lemma {:induction false} TimelineIsTailIff(ev: Evidence, ip: Ip, limit: int)
    ensures GenerateForIp(ev, ip, limit) == Tail(SortByTime(Everything(ev, ip)), limit) <==>
            if limit == 0 then OnlyBan(ev, ip)
            else InstantsAlike(Everything(ev, ip), Gathered(ev, ip, limit), KeptBy(limit, |Everything(ev, ip)|))
  {
    if limit == 0 {
      ZeroLimitIff(ev, ip);
    } else {
      TimelineLast(ev, ip, limit);
      EndEntriesIff(Everything(ev, ip), Gathered(ev, ip, limit), KeptBy(limit, |Everything(ev, ip)|));
    }
  }

  lemma {:induction false} AtTimeConcat(a: seq<Entry>, b: seq<Entry>, t: int)
    ensures AtTime(a + b, t) == AtTime(a, t) + AtTime(b, t)
  {
    if b == [] {
      assert a + b == a;
    } else {
      var b', last := b[..|b| - 1], b[|b| - 1];
      assert a + b == (a + b') + [last];
      AtTimeSnoc(a + b', last, t);
      AtTimeConcat(a, b', t);
    }
  }

  lemma {:induction false} AtTimeReversed(entries: seq<Entry>, t: int)
    ensures AtTime(Reversed(entries), t) == Reversed(AtTime(entries, t))
  {
    if entries != [] {
      var before, last := entries[..|entries| - 1], entries[|entries| - 1];
      AtTimeReversed(before, t);
      AtTimeConcat([last], Reversed(before), t);
      AtTimeSnoc([], last, t);
      assert [] + [last] == [last];
      ReversedSnoc(AtTime(before, t), last);
      assert AtTime(before, t) + [] == AtTime(before, t);
    }
  }

  lemma {:induction false} AtTimeFive(a: seq<Entry>, b: seq<Entry>, c: seq<Entry>, d: seq<Entry>, e: seq<Entry>, t: int)
    ensures AtTime(Flatten([a, b, c, d, e]), t) ==
            AtTime(a, t) + AtTime(b, t) + AtTime(c, t) + AtTime(d, t) + AtTime(e, t)
  {
    FlattenFive(a, b, c, d, e);
    AtTimeConcat(a, b, t);
    AtTimeConcat(a + b, c, t);
    AtTimeConcat(a + b + c, d, t);
    AtTimeConcat(a + b + c + d, e, t);
  }

  /** What was gathered of an instant: what each query kept of it, read backwards. */
  lemma {:induction false} GatheredInstant(ev: Evidence, ip: Ip, limit: int, t: int)
    ensures AtTime(Gathered(ev, ip, limit), t) ==
            Reversed(AtTime(Kept(EventsOf(ev, ip), limit), t)) +
            Reversed(AtTime(Kept(DetectionsOf(ev, ip), limit), t)) +
            Reversed(AtTime(Kept(ScoresOf(ev, ip), limit), t)) +
            AtTime(BanOf(ev, ip), t) +
            Reversed(AtTime(Kept(SortByTime(AuditsOf(ev, ip)), limit), t))
  {
    var a, b, c, e := Kept(EventsOf(ev, ip), limit), Kept(DetectionsOf(ev, ip), limit),
                      Kept(ScoresOf(ev, ip), limit), Kept(SortByTime(AuditsOf(ev, ip)), limit);
    AtTimeFive(Reversed(a), Reversed(b), Reversed(c), BanOf(ev, ip), Reversed(e), t);
    AtTimeReversed(a, t);
    AtTimeReversed(b, t);
    AtTimeReversed(c, t);
    AtTimeReversed(e, t);
  }

  // ---------------------------------------------------------------- conditions that suffice

  lemma {:induction false} CutIsEarlier(rows: seq<Entry>, limit: nat, e: Entry, i: nat)
    requires Ascending(rows) && e in CutRows(rows, limit) && i < |Last(rows, limit)|
    ensures |Last(rows, limit)| == limit && e.at <= Last(rows, limit)[i].at
    ensures Strict(rows) ==> e.at < Last(rows, limit)[i].at
  {
    var cut := CutRows(rows, limit);
    LastOfAt(rows, |rows|, limit);
    var q :| 0 <= q < |cut| && cut[q] == e;
    assert rows[q] == e && Last(rows, limit)[i] == rows[|rows| - limit + i];
  }

  /** A row cut from a source in time order is outnumbered by those kept of the source. */
  lemma {:induction false} InOrderOutnumbered(rows: seq<Entry>, limit: nat, e: Entry)
    requires Ascending(rows) && e in CutRows(rows, limit)
    ensures Since(Latest(rows, limit), e.at) == limit
    ensures Strict(rows) ==> Since(Latest(rows, limit), e.at + 1) == limit
  {
    var kept := Last(rows, limit);
    LastOfAt(rows, |rows|, limit);
    forall i: nat | i < |kept| ensures kept[i].at >= e.at && (Strict(rows) ==> kept[i].at >= e.at + 1) {
      CutIsEarlier(rows, limit, e, i);
    }
    AllSince(kept, e.at);
    if Strict(rows) { AllSince(kept, e.at + 1); }
  }

  lemma {:induction false} AllSince(entries: seq<Entry>, t: int)
    requires forall i: nat :: i < |entries| ==> entries[i].at >= t
    ensures Since(Reversed(entries), t) == |entries|
  {
    SinceBounds(entries, t);
    SinceReversed(entries, t);
  }

  lemma {:induction false} SinceEach(ev: Evidence, ip: Ip, limit: int, t: int)
    ensures Since(Latest(EventsOf(ev, ip), limit), t) <= Since(Gathered(ev, ip, limit), t)
    ensures Since(Latest(DetectionsOf(ev, ip), limit), t) <= Since(Gathered(ev, ip, limit), t)
    ensures Since(Latest(ScoresOf(ev, ip), limit), t) <= Since(Gathered(ev, ip, limit), t)
    ensures Since(Latest(SortByTime(AuditsOf(ev, ip)), limit), t) <= Since(Gathered(ev, ip, limit), t)
  {
    SinceFive(Latest(EventsOf(ev, ip), limit), Latest(DetectionsOf(ev, ip), limit), Latest(ScoresOf(ev, ip), limit),
              BanOf(ev, ip), Latest(SortByTime(AuditsOf(ev, ip)), limit), t);
  }

  /** The source a cut row was cut from. */
  lemma {:induction false} CutFrom(ev: Evidence, ip: Ip, limit: int, e: Entry)
    requires e in CutOf(ev, ip, limit)
    ensures e in CutRows(EventsOf(ev, ip), limit) || e in CutRows(DetectionsOf(ev, ip), limit) ||
            e in CutRows(ScoresOf(ev, ip), limit) || e in CutRows(SortByTime(AuditsOf(ev, ip)), limit)
  {
  }

  /** With rows inserted in time order every cut row is outnumbered. */
  lemma {:induction false} InOrderIsOutnumbered(ev: Evidence, ip: Ip, limit: int)
    requires InTimeOrder(ev, ip)
    ensures Outnumbered(CutOf(ev, ip, limit), Gathered(ev, ip, limit), limit)
  {
    forall e | e in CutOf(ev, ip, limit) ensures Since(Gathered(ev, ip, limit), e.at) >= limit {
      if limit > 0 {
        CutFrom(ev, ip, limit, e);
        SinceEach(ev, ip, limit, e.at);
        CutInOrder(ev, ip, limit, e);
      }
    }
  }

  lemma {:induction false} CutInOrder(ev: Evidence, ip: Ip, limit: nat, e: Entry)
    requires InTimeOrder(ev, ip)
    ensures e in CutRows(EventsOf(ev, ip), limit) ==> Since(Latest(EventsOf(ev, ip), limit), e.at) == limit
    ensures e in CutRows(DetectionsOf(ev, ip), limit) ==> Since(Latest(DetectionsOf(ev, ip), limit), e.at) == limit
    ensures e in CutRows(ScoresOf(ev, ip), limit) ==> Since(Latest(ScoresOf(ev, ip), limit), e.at) == limit
    ensures e in CutRows(SortByTime(AuditsOf(ev, ip)), limit) ==>
              Since(Latest(SortByTime(AuditsOf(ev, ip)), limit), e.at) == limit
  {
    var a, b, c, d := Sources(ev, ip)[0], Sources(ev, ip)[1], Sources(ev, ip)[2], SortByTime(AuditsOf(ev, ip));
    SortAscending(AuditsOf(ev, ip));
    if e in CutRows(a, limit) { InOrderOutnumbered(a, limit, e); }
    if e in CutRows(b, limit) { InOrderOutnumbered(b, limit, e); }
    if e in CutRows(c, limit) { InOrderOutnumbered(c, limit, e); }
    if e in CutRows(d, limit) { InOrderOutnumbered(d, limit, e); }
  }

  /** With rows inserted in time order, ties allowed, the times are always right, and the
      entries exactly when the shown ones are clear of ties. */
  lemma {:induction false} InOrderTimeline(ev: Evidence, ip: Ip, limit: int)
    requires InTimeOrder(ev, ip) && limit != 0
    ensures var whole := Tail(SortByTime(Everything(ev, ip)), limit);
      SameTimes(whole, GenerateForIp(ev, ip, limit)) &&
      (GenerateForIp(ev, ip, limit) == whole <==> Clear(ev, ip, limit, KeptBy(limit, |Everything(ev, ip)|)))
  {
    InOrderIsOutnumbered(ev, ip, limit);
    TimelineTimesIff(ev, ip, limit);
    InOrderAgrees(ev, ip, limit);
  }

  /** A source has at most one entry of any instant. */
  ghost predicate OncePerInstant(rows: seq<Entry>) {
    forall t :: |AtTime(rows, t)| <= 1
  }

  /** No two entries of one source share a time, in whatever order they were inserted;
      those of different sources may. */
  ghost predicate DistinctWithin(ev: Evidence, ip: Ip) {
    OncePerInstant(EventsOf(ev, ip)) && OncePerInstant(DetectionsOf(ev, ip)) && OncePerInstant(ScoresOf(ev, ip)) &&
    OncePerInstant(AuditsOf(ev, ip))
  }

  /** Every row that was cut has at least `k` gathered entries later than itself. */
  ghost predicate OutnumberedLater(missing: seq<Entry>, gathered: seq<Entry>, k: int) {
    forall e :: e in missing ==> Since(gathered, e.at + 1) >= k
  }

  lemma {:induction false} ReversedShort(items: seq<Entry>)
    requires |items| <= 1
    ensures Reversed(items) == items
  {
    if items != [] { assert items[..0] == []; }
  }

  /** A source without ties shows the same of an instant of which nothing was cut. */
  lemma {:induction false} SourceInstant(rows: seq<Entry>, limit: int, t: int)
    requires |AtTime(rows, t)| <= 1 && forall e :: e in CutRows(rows, limit) ==> e.at != t
    ensures AtTime(rows, t) == Reversed(AtTime(Kept(rows, limit), t))
  {
    var cut, kept := CutRows(rows, limit), Kept(rows, limit);
    CutAndKept(rows, limit);
    AtTimeConcat(cut, kept, t);
    AtTimeNone(cut, t);
    assert [] + AtTime(kept, t) == AtTime(kept, t);
    ReversedShort(AtTime(kept, t));
  }

  lemma {:induction false} SameInstant(ev: Evidence, ip: Ip, limit: int, t: int)
    requires DistinctWithin(ev, ip) && forall e :: e in CutOf(ev, ip, limit) ==> e.at != t
    ensures AtTime(Everything(ev, ip), t) == AtTime(Gathered(ev, ip, limit), t)
  {
    AtTimeFive(EventsOf(ev, ip), DetectionsOf(ev, ip), ScoresOf(ev, ip), BanOf(ev, ip), AuditsOf(ev, ip), t);
    GatheredInstant(ev, ip, limit, t);
    SourceInstant(EventsOf(ev, ip), limit, t);
    SourceInstant(DetectionsOf(ev, ip), limit, t);
    SourceInstant(ScoresOf(ev, ip), limit, t);
    SortStable(AuditsOf(ev, ip), t);
    SourceInstant(SortByTime(AuditsOf(ev, ip)), limit, t);
  }

  lemma {:induction false} ShownAlike(all: seq<Entry>, gathered: seq<Entry>, k: nat, t: int)
    requires (Since(all, t + 1) >= k && Since(gathered, t + 1) >= k) ||
             (Since(all, t + 1) == Since(gathered, t + 1) && AtTime(all, t) == AtTime(gathered, t))
    ensures ShownAt(all, k, t) == ShownAt(gathered, k, t)
  {
  }

  lemma {:induction false} NoneSince(entries: seq<Entry>, t: int)
    requires forall e :: e in entries ==> e.at < t
    ensures Since(entries, t) == 0
  {
    SinceBounds(entries, t);
  }

  /** What was cut at an instant or later leaves no room for the instant. */
  lemma {:induction false} DistinctShown(ev: Evidence, ip: Ip, limit: int, k: nat, t: int)
    requires DistinctWithin(ev, ip) && (limit < 0 || k == limit)
    requires OutnumberedLater(CutOf(ev, ip, limit), Gathered(ev, ip, limit), limit)
    ensures ShownAt(Everything(ev, ip), k, t) == ShownAt(Gathered(ev, ip, limit), k, t)
  {
    var gathered, cut := Gathered(ev, ip, limit), CutOf(ev, ip, limit);
    if limit < 0 { NothingCut(ev, ip, limit); }
    GatheredCounts(ev, ip, limit, t + 1);
    if e :| e in cut && e.at >= t {
      SinceEarlier(gathered, t + 1, e.at + 1);
    } else {
      NoneSince(cut, t + 1);
      SameInstant(ev, ip, limit, t);
    }
    ShownAlike(Everything(ev, ip), gathered, k, t);
  }

  /** Times distinct within each source suffice, for every nonzero limit and every order
      of insertion, when what a query cuts is outnumbered by later entries. */
  lemma {:induction false} PushdownForIp(ev: Evidence, ip: Ip, limit: int)
    requires DistinctWithin(ev, ip) && limit != 0
    requires OutnumberedLater(CutOf(ev, ip, limit), Gathered(ev, ip, limit), limit)
    ensures GenerateForIp(ev, ip, limit) == Tail(SortByTime(Everything(ev, ip)), limit)
  {
    var k := KeptBy(limit, |Everything(ev, ip)|);
    forall t ensures ShownAt(Everything(ev, ip), k, t) == ShownAt(Gathered(ev, ip, limit), k, t) {
      DistinctShown(ev, ip, limit, k, t);
    }
    TimelineIsTailIff(ev, ip, limit);
  }

  /** The rows of each source have increasing times, audits once their query sorted them. */
  ghost predicate StrictInSource(ev: Evidence, ip: Ip) {
    Strict(EventsOf(ev, ip)) && Strict(DetectionsOf(ev, ip)) && Strict(ScoresOf(ev, ip)) &&
    Strict(SortByTime(AuditsOf(ev, ip)))
  }

  lemma {:induction false} StrictOnce(rows: seq<Entry>, t: int)
    requires Strict(rows)
    ensures |AtTime(rows, t)| <= 1
  {
    if rows != [] {
      if rows[|rows| - 1].at == t { AtTimeNone(rows[..|rows| - 1], t); } else { StrictOnce(rows[..|rows| - 1], t); }
    }
  }

  lemma {:induction false} StrictIsDistinct(ev: Evidence, ip: Ip)
    requires StrictInSource(ev, ip)
    ensures DistinctWithin(ev, ip)
  {
    forall t
      ensures |AtTime(EventsOf(ev, ip), t)| <= 1 && |AtTime(DetectionsOf(ev, ip), t)| <= 1
      ensures |AtTime(ScoresOf(ev, ip), t)| <= 1 && |AtTime(AuditsOf(ev, ip), t)| <= 1
    {
      StrictOnce(EventsOf(ev, ip), t);
      StrictOnce(DetectionsOf(ev, ip), t);
      StrictOnce(ScoresOf(ev, ip), t);
      StrictOnce(SortByTime(AuditsOf(ev, ip)), t);
      SortStable(AuditsOf(ev, ip), t);
    }
  }

  lemma {:induction false} StrictOutnumbered(ev: Evidence, ip: Ip, limit: nat, e: Entry)
    requires StrictInSource(ev, ip) && e in CutOf(ev, ip, limit)
    ensures Since(Gathered(ev, ip, limit), e.at + 1) >= limit
  {
    var a, b, c, d := EventsOf(ev, ip), DetectionsOf(ev, ip), ScoresOf(ev, ip), SortByTime(AuditsOf(ev, ip));
    CutFrom(ev, ip, limit, e);
    SinceEach(ev, ip, limit, e.at + 1);
    if e in CutRows(a, limit) {
      InOrderOutnumbered(a, limit, e);
    } else if e in CutRows(b, limit) {
      InOrderOutnumbered(b, limit, e);
    } else if e in CutRows(c, limit) {
      InOrderOutnumbered(c, limit, e);
    } else {
      InOrderOutnumbered(d, limit, e);
    }
  }

  /** Increasing times within each source suffice, for every nonzero limit. */
  lemma {:induction false} InOrderPushdown(ev: Evidence, ip: Ip, limit: int)
    requires StrictInSource(ev, ip) && limit != 0
    ensures GenerateForIp(ev, ip, limit) == Tail(SortByTime(Everything(ev, ip)), limit)
  {
    StrictIsDistinct(ev, ip);
    forall e | e in CutOf(ev, ip, limit) ensures Since(Gathered(ev, ip, limit), e.at + 1) >= limit {
      if limit > 0 { StrictOutnumbered(ev, ip, limit, e); }
    }
    PushdownForIp(ev, ip, limit);
  }

  /** Two events inserted against their times: a limit of one shows the older event. */
  lemma {:induction false} OutOfOrderMisleads(ip: Ip)
    ensures var ev := Evidence([Row(9, ip, "later"), Row(5, ip, "older")], [], [], [], map[], map[]);
      var later, older := Entry(9, EventEntry, "later", None), Entry(5, EventEntry, "older", None);
      GenerateForIp(ev, ip, 1) == [older] && Tail(SortByTime(Everything(ev, ip)), 1) == [later]
  {
    var rows := [Row(9, ip, "later"), Row(5, ip, "older")];
    var ev := Evidence(rows, [], [], [], map[], map[]);
    var later, older := Entry(9, EventEntry, "later", None), Entry(5, EventEntry, "older", None);
    RowsForTwo(rows[0], rows[1], ip);
    EntriesOfTwo(EventEntry, rows[0], rows[1]);
    LatestOne(later, older);
    FlattenFive([older], [], [], [], []);
    FlattenFive([later, older], [], [], [], []);
    assert Gathered(ev, ip, 1) == [older];
    assert Everything(ev, ip) == [later, older];
    SortSorted([older]);
    SortTwo(later, older);
    TailIsSlice([older], 1);
    TailIsSlice([older, later], 1);
  }

  lemma {:induction false} LatestOne(a: Entry, b: Entry)
    ensures Latest([a, b], 1) == [b]
  {
    LastIsSlice([a, b], 1);
    assert Last([a, b], 1) == [b];
    ReversedShort([b]);
  }

  lemma {:induction false} SortTwo(a: Entry, b: Entry)
    requires b.at < a.at
    ensures SortByTime([a, b]) == [b, a]
  {
    assert [a, b][..1] == [a] && [a][..0] == [];
    assert SortByTime([a]) == [a];
    assert Insert([a], b) == Insert([], b) + [a] == [b, a];
  }

  // ---------------------------------------------------------------- one incident

  /** How many entries of the first `n` sources are at `t` or later. */
  function SinceInEach(sources: seq<seq<Entry>>, n: nat, t: int): nat
    requires n <= |sources|
  {
    if n == 0 then 0 else SinceInEach(sources, n - 1, t) + Since(sources[n - 1], t)
  }

  lemma {:induction false} SinceInPrefix(sources: seq<seq<Entry>>, last: seq<Entry>, n: nat, t: int)
    requires n <= |sources|
    ensures SinceInEach(sources + [last], n, t) == SinceInEach(sources, n, t)
  {
    if n > 0 { SinceInPrefix(sources, last, n - 1, t); }
  }

  lemma {:induction false} SinceFlatten(sources: seq<seq<Entry>>, t: int)
    ensures Since(Flatten(sources), t) == SinceInEach(sources, |sources|, t)
  {
    if sources != [] {
      var before, last := sources[..|sources| - 1], sources[|sources| - 1];
      assert sources == before + [last];
      SinceFlatten(before, t);
      SinceConcat(Flatten(before), last, t);
      SinceInPrefix(before, last, |before|, t);
    }
  }

  lemma {:induction false} CountsInEach(a: seq<seq<Entry>>, b: seq<seq<Entry>>, n: nat, t: int)
    requires n <= |a| == |b| && forall i :: 0 <= i < n ==> Since(a[i], t) <= Since(b[i], t)
    ensures SinceInEach(a, n, t) <= SinceInEach(b, n, t)
    ensures SinceInEach(a, n, t) == SinceInEach(b, n, t) <==>
            forall i :: 0 <= i < n ==> Since(a[i], t) == Since(b[i], t)
    ensures forall i :: 0 <= i < n ==> Since(a[i], t) <= SinceInEach(a, n, t)
  {
    if n > 0 { CountsInEach(a, b, n - 1, t); }
  }

  /** Lists of sources that pairwise have no more entries from `t` on. */
  lemma {:induction false} FlattenCounts(a: seq<seq<Entry>>, b: seq<seq<Entry>>, t: int)
    requires |a| == |b| && forall i :: 0 <= i < |a| ==> Since(a[i], t) <= Since(b[i], t)
    ensures Since(Flatten(a), t) <= Since(Flatten(b), t)
    ensures Since(Flatten(a), t) == Since(Flatten(b), t) <==>
            forall i :: 0 <= i < |a| ==> Since(a[i], t) == Since(b[i], t)
    ensures forall i :: 0 <= i < |a| ==> Since(a[i], t) <= Since(Flatten(a), t)
  {
    SinceFlatten(a, t);
    SinceFlatten(b, t);
    CountsInEach(a, b, |a|, t);
  }

  lemma {:induction false} AttributedCounts(first: seq<Entry>, a: seq<seq<Entry>>, b: seq<seq<Entry>>,
                                            incident: string, t: int)
    requires |a| == |b| && forall i :: 0 <= i < |a| ==> Since(a[i], t) <= Since(b[i], t)
    ensures var c, d := Flatten(Attributed(first, a, incident)), Flatten(Attributed(first, b, incident));
      Since(c, t) <= Since(d, t) &&
      (Since(c, t) == Since(d, t) <==> forall i :: 0 <= i < |a| ==> Since(a[i], t) == Since(b[i], t)) &&
      (forall i :: 0 <= i < |a| ==> Since(a[i], t) <= Since(c, t))
  {
    var c, d := Attributed(first, a, incident), Attributed(first, b, incident);
    forall p: nat | p <= |a|
      ensures Since(c[p], t) == if p == 0 then Since(first, t) else Since(a[p - 1], t)
      ensures Since(d[p], t) == if p == 0 then Since(first, t) else Since(b[p - 1], t)
    {
      AttributedCount(first, a, incident, p, t);
      AttributedCount(first, b, incident, p, t);
    }
    FlattenCounts(c, d, t);
    CountsByPlace(first, a, b, c, d, t);
  }

  lemma {:induction false} AttributedCount(first: seq<Entry>, a: seq<seq<Entry>>, incident: string, p: nat, t: int)
    requires p <= |a|
    ensures Since(Attributed(first, a, incident)[p], t) == if p == 0 then Since(first, t) else Since(a[p - 1], t)
  {
    if p > 0 { SinceTagged(a[p - 1], incident, t); }
  }

  lemma {:induction false} CountsByPlace(first: seq<Entry>, a: seq<seq<Entry>>, b: seq<seq<Entry>>,
                                         c: seq<seq<Entry>>, d: seq<seq<Entry>>, t: int)
    requires |a| == |b| && |c| == |d| == |a| + 1
    requires forall p: nat :: p <= |a| ==> Since(c[p], t) == if p == 0 then Since(first, t) else Since(a[p - 1], t)
    requires forall p: nat :: p <= |a| ==> Since(d[p], t) == if p == 0 then Since(first, t) else Since(b[p - 1], t)
    ensures (forall p :: 0 <= p < |c| ==> Since(c[p], t) == Since(d[p], t)) <==>
            (forall i :: 0 <= i < |a| ==> Since(a[i], t) == Since(b[i], t))
    ensures forall i :: 0 <= i < |a| ==> Since(c[i + 1], t) == Since(a[i], t)
  {
    forall i | 0 <= i < |a| ensures Since(c[i + 1], t) == Since(a[i], t) && Since(d[i + 1], t) == Since(b[i], t) {
      assert a[(i + 1) - 1] == a[i] && b[(i + 1) - 1] == b[i];
    }
  }

  /** An actor's timeline from an instant on: what was gathered, up to the limit. */
  lemma {:induction false} ActorCounts(ev: Evidence, ip: Ip, limit: nat, t: int)
    requires limit > 0
    ensures Since(GenerateForIp(ev, ip, limit), t) == AtMost(Since(Gathered(ev, ip, limit), t), limit)
    ensures Since(Gathered(ev, ip, limit), t) <= Since(Everything(ev, ip), t)
  {
    SinceSorted(Gathered(ev, ip, limit), t);
    SortAscending(Gathered(ev, ip, limit));
    SinceLast(SortByTime(Gathered(ev, ip, limit)), limit, t);
    GatheredCounts(ev, ip, limit, t);
  }

  /** Every row that a query cut for any of the actors is outnumbered. */
  ghost predicate ActorsOutnumbered(ev: Evidence, actors: seq<Ip>, gathered: seq<Entry>, limit: int) {
    forall i :: 0 <= i < |actors| ==> Outnumbered(CutOf(ev, actors[i], limit), gathered, limit)
  }

  /** The entries of an incident before they are sorted and truncated. */
  function GatheredFrom(ev: Evidence, first: seq<Entry>, actors: seq<Ip>, incident: string, limit: int): seq<Entry> {
    Flatten(Attributed(first, TimelinesOf(ev, actors, limit), incident))
  }

  lemma {:induction false} FromCounts(ev: Evidence, first: seq<Entry>, actors: seq<Ip>, incident: string, limit: nat,
                                      t: int)
    requires limit > 0
    ensures var all, gathered := Flatten(SourcesFrom(ev, first, actors, incident)),
                                 GatheredFrom(ev, first, actors, incident, limit);
      Since(gathered, t) <= Since(all, t) &&
      (Since(gathered, t) == Since(all, t) <==>
       forall i :: 0 <= i < |actors| ==>
         Since(GenerateForIp(ev, actors[i], limit), t) == Since(Everything(ev, actors[i]), t)) &&
      (forall i :: 0 <= i < |actors| ==> Since(GenerateForIp(ev, actors[i], limit), t) <= Since(gathered, t))
  {
    var a, b := TimelinesOf(ev, actors, limit), HistoriesOf(ev, actors);
    forall i | 0 <= i < |actors|
      ensures a[i] == GenerateForIp(ev, actors[i], limit) && b[i] == Everything(ev, actors[i])
      ensures Since(a[i], t) <= Since(b[i], t)
    {
      ActorCounts(ev, actors[i], limit, t);
    }
    AttributedCounts(first, a, b, incident, t);
  }

  /** An actor's row that was cut is missing from its time on. */
  lemma {:induction false} CutIsMissed(ev: Evidence, ip: Ip, limit: nat, e: Entry)
    requires limit > 0 && e in CutOf(ev, ip, limit)
    ensures Since(GenerateForIp(ev, ip, limit), e.at) < Since(Everything(ev, ip), e.at)
  {
    ActorCounts(ev, ip, limit, e.at);
    GatheredCounts(ev, ip, limit, e.at);
    SinceBounds(CutOf(ev, ip, limit), e.at);
  }

  /** What an actor's timeline misses from an instant on was cut by a query, or `limit`
      entries of the actor are there. */
  lemma {:induction false} MissedIsCut(ev: Evidence, ip: Ip, limit: nat, gathered: seq<Entry>, t: int)
    requires limit > 0 && Since(GenerateForIp(ev, ip, limit), t) < Since(Everything(ev, ip), t)
    requires Since(GenerateForIp(ev, ip, limit), t) <= Since(gathered, t)
    requires Outnumbered(CutOf(ev, ip, limit), gathered, limit)
    ensures Since(gathered, t) >= limit
  {
    var cut := CutOf(ev, ip, limit);
    ActorCounts(ev, ip, limit, t);
    GatheredCounts(ev, ip, limit, t);
    if Since(Gathered(ev, ip, limit), t) < limit {
      SinceBounds(cut, t);
      var i :| 0 <= i < |cut| && cut[i].at >= t;
      assert cut[i] in cut;
      SinceEarlier(gathered, t, cut[i].at);
    }
  }

  /** A cut row is among the gathered entries of the incident or is outnumbered. */
  lemma {:induction false} CutIsReached(ev: Evidence, first: seq<Entry>, actors: seq<Ip>, incident: string,
                                        limit: nat, i: nat, e: Entry)
    requires limit > 0 && i < |actors| && e in CutOf(ev, actors[i], limit)
    requires CountsReach(Flatten(SourcesFrom(ev, first, actors, incident)),
                         GatheredFrom(ev, first, actors, incident, limit), limit)
    ensures Since(GatheredFrom(ev, first, actors, incident, limit), e.at) >= limit
  {
    var all, gathered := Flatten(SourcesFrom(ev, first, actors, incident)),
                         GatheredFrom(ev, first, actors, incident, limit);
    FromCounts(ev, first, actors, incident, limit, e.at);
    CutIsMissed(ev, actors[i], limit, e);
    assert Since(gathered, e.at) == Since(all, e.at) || Since(gathered, e.at) >= limit;
  }

  lemma {:induction false} ActorIsReached(ev: Evidence, actors: seq<Ip>, i: nat, gathered: seq<Entry>, limit: nat,
                                          t: int)
    requires limit > 0 && i < |actors| && ActorsOutnumbered(ev, actors, gathered, limit)
    requires Since(GenerateForIp(ev, actors[i], limit), t) <= Since(gathered, t) < limit
    ensures Since(GenerateForIp(ev, actors[i], limit), t) == Since(Everything(ev, actors[i]), t)
  {
    ActorCounts(ev, actors[i], limit, t);
    if Since(GenerateForIp(ev, actors[i], limit), t) < Since(Everything(ev, actors[i]), t) {
      MissedIsCut(ev, actors[i], limit, gathered, t);
    }
  }

  lemma {:induction false} InstantIsReached(ev: Evidence, first: seq<Entry>, actors: seq<Ip>, incident: string,
                                            limit: nat, t: int)
    requires limit > 0
    requires ActorsOutnumbered(ev, actors, GatheredFrom(ev, first, actors, incident, limit), limit)
    ensures var all, gathered := Flatten(SourcesFrom(ev, first, actors, incident)),
                                 GatheredFrom(ev, first, actors, incident, limit);
      Since(gathered, t) == Since(all, t) || Since(gathered, t) >= limit
  {
    var gathered := GatheredFrom(ev, first, actors, incident, limit);
    FromCounts(ev, first, actors, incident, limit, t);
    if Since(gathered, t) < limit {
      forall i: nat | i < |actors|
        ensures Since(GenerateForIp(ev, actors[i], limit), t) == Since(Everything(ev, actors[i]), t)
      {
        ActorIsReached(ev, actors, i, gathered, limit, t);
      }
    }
  }

  lemma {:induction false} FromReaches(ev: Evidence, first: seq<Entry>, actors: seq<Ip>, incident: string, limit: nat)
    requires limit > 0
    ensures var all, gathered := Flatten(SourcesFrom(ev, first, actors, incident)),
                                 GatheredFrom(ev, first, actors, incident, limit);
      CountsReach(all, gathered, limit) <==> ActorsOutnumbered(ev, actors, gathered, limit)
  {
    var all, gathered := Flatten(SourcesFrom(ev, first, actors, incident)),
                         GatheredFrom(ev, first, actors, incident, limit);
    if CountsReach(all, gathered, limit) {
      forall i: nat, e | i < |actors| && e in CutOf(ev, actors[i], limit) ensures Since(gathered, e.at) >= limit {
        CutIsReached(ev, first, actors, incident, limit, i, e);
      }
    }
    if ActorsOutnumbered(ev, actors, gathered, limit) {
      forall t ensures Since(gathered, t) == Since(all, t) || Since(gathered, t) >= limit {
        InstantIsReached(ev, first, actors, incident, limit, t);
      }
    }
  }

  lemma {:induction false} FromTimesIff(ev: Evidence, first: seq<Entry>, actors: seq<Ip>, incident: string, limit: nat)
    requires limit > 0
    ensures var whole, shown := Tail(WholeFrom(ev, first, actors, incident), limit),
                                TimelineFrom(ev, first, actors, incident, limit);
      SameTimes(whole, shown) <==>
      ActorsOutnumbered(ev, actors, GatheredFrom(ev, first, actors, incident, limit), limit)
  {
    var all, gathered := Flatten(SourcesFrom(ev, first, actors, incident)),
                         GatheredFrom(ev, first, actors, incident, limit);
    forall t ensures Since(gathered, t) <= Since(all, t) { FromCounts(ev, first, actors, incident, limit, t); }
    EndTimesIff(all, gathered, limit);
    FromReaches(ev, first, actors, incident, limit);
  }

  /** At a zero limit every actor has only a ban; below zero every history is empty or
      all is dropped. */
  ghost predicate NothingLost(ev: Evidence, incident: string, limit: int)
    requires incident in ev.incidents
  {
    ActorsShort(ev, ev.incidents[incident].actors, limit) || (limit < 0 && |WholeIncident(ev, incident)| <= -limit)
  }

  /** The times of an incident's timeline are those of the tail of its creation and its
      actors' whole histories, whatever the order of insertion, exactly when for a
      positive limit every row cut for any actor is outnumbered, and otherwise nothing
      is lost. */
  lemma {:induction false} IncidentTimesIff(ev: Evidence, incident: string, limit: int)
    requires incident in ev.incidents
    ensures var actors, gathered := ev.incidents[incident].actors, GatheredForIncident(ev, incident, limit);
      SameTimes(Tail(WholeIncident(ev, incident), limit), GenerateForIncident(ev, incident, limit)) <==>
      if limit > 0 then ActorsOutnumbered(ev, actors, gathered, limit) else NothingLost(ev, incident, limit)
  {
    var first, actors := Creation(ev, incident), ev.incidents[incident].actors;
    if limit > 0 {
      FromTimesIff(ev, first, actors, incident, limit);
    } else {
      ShortTimelineFrom(ev, first, actors, incident, limit);
    }
  }

  function GatheredForIncident(ev: Evidence, incident: string, limit: int): seq<Entry>
    requires incident in ev.incidents
  {
    GatheredFrom(ev, Creation(ev, incident), ev.incidents[incident].actors, incident, limit)
  }

  /** Its entries are those of the tail exactly when the same holds of every instant. */
  lemma {:induction false} IncidentIsTailIff(ev: Evidence, incident: string, limit: int)
    requires incident in ev.incidents
    ensures GenerateForIncident(ev, incident, limit) == Tail(WholeIncident(ev, incident), limit) <==>
            if limit > 0 then
              InstantsAlike(EverythingOf(ev, incident), GatheredForIncident(ev, incident, limit), limit)
            else NothingLost(ev, incident, limit)
  {
    var first, actors := Creation(ev, incident), ev.incidents[incident].actors;
    if limit > 0 {
      EndEntriesIff(EverythingOf(ev, incident), GatheredForIncident(ev, incident, limit), limit);
    } else {
      ShortTimelineFrom(ev, first, actors, incident, limit);
    }
  }

  function EverythingOf(ev: Evidence, incident: string): seq<Entry>
    requires incident in ev.incidents
  {
    Flatten(SourcesFrom(ev, Creation(ev, incident), ev.incidents[incident].actors, incident))
  }

  /** With the actors' rows inserted in time order, ties allowed, the times are right for
      every positive limit, and the entries exactly when those shown of every actor are
      clear of ties. */
  lemma {:induction false} InOrderIncident(ev: Evidence, incident: string, limit: nat)
    requires incident in ev.incidents && ActorsInTimeOrder(ev, ev.incidents[incident].actors) && limit > 0
    ensures var first, actors := Creation(ev, incident), ev.incidents[incident].actors;
      var whole, shown := Tail(WholeIncident(ev, incident), limit), GenerateForIncident(ev, incident, limit);
      ActorsOutnumbered(ev, actors, GatheredForIncident(ev, incident, limit), limit) && SameTimes(whole, shown) &&
      (shown == whole <==> SharesClear(ev, actors, limit, SharesFrom(ev, first, actors, incident, limit)))
  {
    InOrderFromAgrees(ev, Creation(ev, incident), ev.incidents[incident].actors, incident, limit);
    IncidentTimesIff(ev, incident, limit);
  }
}
