/** The sliding windows of the detectors, specified over the whole event
    history, and what their deques mean for ordered and for arbitrary streams. */
module Detection {
  import opened Domain

  /** Which events a detector pushes onto its deque. */
  datatype Signal = Failures | InvalidUsers | NamedFailures

  predicate Qualifies(s: Signal, e: SecurityEvent) {
    match s
    case Failures => IsFailure(e)
    case InvalidUsers => TargetsInvalidUser(e)
    case NamedFailures => IsFailure(e) && e.username != ""
  }

  predicate Pushes(s: Signal, e: SecurityEvent, ip: Ip) {
    e.sourceIp == ip && Qualifies(s, e)
  }

  /** Everything a detector has been shown, latest event outermost. */
  datatype History = Nothing | Then(before: History, last: SecurityEvent)

  // ---------------------------------------------------------------- specification

  /** The qualifying events of `ip`, oldest first. */
  function Qualifying(s: Signal, history: History, ip: Ip): seq<SecurityEvent> {
    match history
    case Nothing => []
    case Then(before, e) =>
      if Pushes(s, e, ip) then Qualifying(s, before, ip) + [e] else Qualifying(s, before, ip)
  }

  /** The members of `events` at or after `cutoff`, in order. */
  function NotBefore(events: seq<SecurityEvent>, cutoff: int): seq<SecurityEvent> {
    if events == [] then []
    else if events[0].timestamp >= cutoff then [events[0]] + NotBefore(events[1..], cutoff)
    else NotBefore(events[1..], cutoff)
  }

  /** The largest time of any event of `ip`, qualifying or not. */
  function LatestTime(history: History, ip: Ip): Option<int> {
    match history
    case Nothing => None
    case Then(before, e) =>
      var latest := LatestTime(before, ip);
      if e.sourceIp != ip then latest
      else if latest.Some? && latest.value > e.timestamp then latest
      else Some(e.timestamp)
  }

  /** No event of `ip` is older than an earlier event of `ip`. */
  predicate OrderedFor(history: History, ip: Ip) {
    match history
    case Nothing => true
    case Then(before, e) =>
      OrderedFor(before, ip) &&
      (e.sourceIp == ip && LatestTime(before, ip).Some? ==> LatestTime(before, ip).value <= e.timestamp)
  }

  function OnlyFrom(history: History, ip: Ip): History {
    match history
    case Nothing => Nothing
    case Then(before, e) => if e.sourceIp == ip then Then(OnlyFrom(before, ip), e) else OnlyFrom(before, ip)
  }

  // ---------------------------------------------------------------- deque semantics

  /** Entries without those at the front whose time, given by `at`, is before the cutoff. */
  function DropStale<T>(entries: seq<T>, at: T -> int, cutoff: int): seq<T> {
    if entries != [] && at(entries[0]) < cutoff then DropStale(entries[1..], at, cutoff) else entries
  }

  function EventTime(): SecurityEvent -> int { (e: SecurityEvent) => e.timestamp }

  /** The deque of `ip` just before an event evicts: pushed onto if it qualifies. */
  function Pending(s: Signal, window: int, before: History, e: SecurityEvent): seq<SecurityEvent> {
    if Qualifies(s, e) then Retained(s, window, before, e.sourceIp) + [e]
    else Retained(s, window, before, e.sourceIp)
  }

  /** What the deque of `ip` retains after `history`: each event of `ip` is
      pushed when it qualifies and evicts stale entries from the front either way. */
  function Retained(s: Signal, window: int, history: History, ip: Ip): seq<SecurityEvent> {
    match history
    case Nothing => []
    case Then(before, e) =>
      if e.sourceIp != ip then Retained(s, window, before, ip)
      else DropStale(Pending(s, window, before, e), EventTime(), e.timestamp - window)
  }

  /** How many entries have been popped from the deque of `ip` so far. */
  function Popped(s: Signal, window: int, history: History, ip: Ip): int {
    match history
    case Nothing => 0
    case Then(before, e) =>
      Popped(s, window, before, ip) +
      if e.sourceIp == ip then |Pending(s, window, before, e)| - |Retained(s, window, history, ip)| else 0
  }

  /** What a deque keeps of each event. */
  function View<T>(entries: seq<SecurityEvent>, kept: SecurityEvent -> T): seq<T> {
    seq(|entries|, i requires 0 <= i < |entries| => kept(entries[i]))
  }

  // ---------------------------------------------------------------- eviction

  /** `n` is the length of the longest stale prefix of `entries`. */
  ghost predicate StalePrefix<T>(entries: seq<T>, at: T -> int, cutoff: int, n: nat) {
    && n <= |entries|
    && (forall i :: 0 <= i < n ==> at(entries[i]) < cutoff)
    && (n < |entries| ==> at(entries[n]) >= cutoff)
  }

  /** Eviction removes exactly the longest stale prefix. */
  lemma {:induction false} DropStaleIsSuffix<T>(entries: seq<T>, at: T -> int, cutoff: int) returns (n: nat)
    ensures StalePrefix(entries, at, cutoff, n)
    ensures DropStale(entries, at, cutoff) == entries[n..]
  {
    if entries != [] && at(entries[0]) < cutoff {
      var m := DropStaleIsSuffix(entries[1..], at, cutoff);
      n := m + 1;
      forall i | 0 <= i < n ensures at(entries[i]) < cutoff {
        if i > 0 { assert entries[i] == entries[1..][i - 1]; }
      }
      assert entries[1..][m..] == entries[n..];
    } else {
      n := 0;
    }
  }

  /** The longest stale prefix is unique, so any loop that finds one agrees with `DropStale`. */
  lemma {:induction false} StalePrefixUnique<T>(entries: seq<T>, at: T -> int, cutoff: int, n: nat)
    requires StalePrefix(entries, at, cutoff, n)
    ensures DropStale(entries, at, cutoff) == entries[n..]
  {
    var m := DropStaleIsSuffix(entries, at, cutoff);
    assert m == n;
  }

  /** Evicting from what is kept of the events is evicting the events. */
  lemma {:induction false} DropStaleOfView<T>(entries: seq<SecurityEvent>, kept: SecurityEvent -> T, at: T -> int,
                                              cutoff: int)
    requires forall e :: at(kept(e)) == e.timestamp
    ensures DropStale(View(entries, kept), at, cutoff) == View(DropStale(entries, EventTime(), cutoff), kept)
  {
    if entries != [] && entries[0].timestamp < cutoff {
      assert View(entries, kept)[1..] == View(entries[1..], kept);
      DropStaleOfView(entries[1..], kept, at, cutoff);
    }
  }

  // ---------------------------------------------------------------- arbitrary streams

  /** Dropping `k` entries of a suffix that starts at `p` gives the suffix at `p + k`. */
  lemma {:induction false} SuffixOfSuffix<T>(q: seq<T>, p: nat, k: nat)
    requires p + k <= |q|
    ensures q[p..][k..] == q[p + k..]
  {
  }

  /** Conservation, for arbitrary streams: the deque is a suffix of the qualifying
      history, and everything ever pushed was either popped or is still retained. */
  lemma {:induction false} RetainedIsSuffix(s: Signal, window: int, history: History, ip: Ip)
    ensures 0 <= Popped(s, window, history, ip) <= |Qualifying(s, history, ip)|
    ensures Retained(s, window, history, ip) == Qualifying(s, history, ip)[Popped(s, window, history, ip)..]
  {
    match history
    case Nothing =>
    case Then(before, e) =>
      RetainedIsSuffix(s, window, before, ip);
      if e.sourceIp == ip {
        var q, p := Qualifying(s, history, ip), Popped(s, window, before, ip);
        assert Pending(s, window, before, e) == q[p..];
        var k := EvictionFromSuffix(q, p, e.timestamp - window);
      }
  }

  lemma {:induction false} EvictionFromSuffix(q: seq<SecurityEvent>, p: nat, cutoff: int) returns (k: nat)
    requires p <= |q|
    ensures p + k <= |q| && DropStale(q[p..], EventTime(), cutoff) == q[p + k..]
  {
    k := DropStaleIsSuffix(q[p..], EventTime(), cutoff);
    SuffixOfSuffix(q, p, k);
  }

  /** Arbitrary streams never undercount: whatever has been popped was older than
      the largest time seen for the address, less the window. */
  lemma {:induction false} NoUndercount(s: Signal, window: int, history: History, ip: Ip, i: nat)
    requires i < Popped(s, window, history, ip)
    ensures i < |Qualifying(s, history, ip)| && LatestTime(history, ip).Some?
    ensures Qualifying(s, history, ip)[i].timestamp < LatestTime(history, ip).value - window
  {
    RetainedIsSuffix(s, window, history, ip);
    match history
    case Then(before, e) =>
      var p := Popped(s, window, before, ip);
      RetainedIsSuffix(s, window, before, ip);
      if i < p {
        NoUndercount(s, window, before, ip, i);
      } else {
        var pending := Pending(s, window, before, e);
        var k := DropStaleIsSuffix(pending, EventTime(), e.timestamp - window);
        assert pending[i - p] == Qualifying(s, history, ip)[i];
      }
  }

  /** A qualifying event just processed is always the last entry of its deque. */
  lemma {:induction false} NewestSurvives(s: Signal, window: int, before: History, e: SecurityEvent)
    requires window >= 0 && Qualifies(s, e)
    ensures var kept := Retained(s, window, Then(before, e), e.sourceIp);
      kept != [] && kept[|kept| - 1] == e
  {
    var pending := Pending(s, window, before, e);
    var k := DropStaleIsSuffix(pending, EventTime(), e.timestamp - window);
    assert pending[|pending| - 1] == e;
  }

  /** Events of other addresses never affect the deque of `ip`. */
  lemma {:induction false} OtherAddressesIrrelevant(s: Signal, window: int, history: History, ip: Ip)
    ensures Retained(s, window, history, ip) == Retained(s, window, OnlyFrom(history, ip), ip)
  {
    match history
    case Nothing =>
    case Then(before, e) => OtherAddressesIrrelevant(s, window, before, ip);
  }

  /** Nested windows: on one arbitrary stream, the deque under a shorter window is
      a suffix of the deque under a longer one. */
  lemma {:induction false} NestedWindows(s: Signal, short: int, long: int, history: History, ip: Ip)
    requires short <= long
    ensures IsSuffix(Retained(s, short, history, ip), Retained(s, long, history, ip))
  {
    match history
    case Nothing =>
    case Then(before, e) =>
      NestedWindows(s, short, long, before, ip);
      if e.sourceIp == ip {
        var inner, outer := Pending(s, short, before, e), Pending(s, long, before, e);
        assert IsSuffix(inner, outer);
        EvictionKeepsSuffix(inner, outer, e.timestamp - short, e.timestamp - long);
      }
  }

  predicate IsSuffix(inner: seq<SecurityEvent>, outer: seq<SecurityEvent>) {
    |inner| <= |outer| && inner == outer[|outer| - |inner|..]
  }

  lemma {:induction false} EvictionKeepsSuffix(inner: seq<SecurityEvent>, outer: seq<SecurityEvent>, late: int,
                                               early: int)
    requires IsSuffix(inner, outer) && early <= late
    ensures IsSuffix(DropStale(inner, EventTime(), late), DropStale(outer, EventTime(), early))
  {
    var d := |outer| - |inner|;
    var i := DropStaleIsSuffix(inner, EventTime(), late);
    var o := DropStaleIsSuffix(outer, EventTime(), early);
    assert i < |inner| ==> outer[d + i] == inner[i];
    SuffixOfSuffix(outer, d, i);
    SuffixOfSuffix(outer, o, d + i - o);
  }

  // ---------------------------------------------------------------- ordered streams

  ghost predicate Ascending(events: seq<SecurityEvent>) {
    forall i, j :: 0 <= i < j < |events| ==> events[i].timestamp <= events[j].timestamp
  }

  lemma {:induction false} NotBeforeKeepsAll(events: seq<SecurityEvent>, cutoff: int)
    requires forall i :: 0 <= i < |events| ==> events[i].timestamp >= cutoff
    ensures NotBefore(events, cutoff) == events
  {
    if events != [] { NotBeforeKeepsAll(events[1..], cutoff); }
  }

  /** On ascending entries eviction from the front is filtering. */
  lemma {:induction false} DropStaleIsFilter(events: seq<SecurityEvent>, n: nat, cutoff: int)
    requires Ascending(events) && StalePrefix(events, EventTime(), cutoff, n)
    ensures NotBefore(events, cutoff) == events[n..]
  {
    if n == 0 {
      NotBeforeKeepsAll(events, cutoff);
    } else {
      DropStaleIsFilter(events[1..], n - 1, cutoff);
      SuffixOfSuffix(events, 1, n - 1);
    }
  }

  lemma {:induction false} NoneAfterLatest(s: Signal, history: History, ip: Ip, i: nat)
    requires i < |Qualifying(s, history, ip)|
    ensures LatestTime(history, ip).Some? && Qualifying(s, history, ip)[i].timestamp <= LatestTime(history, ip).value
  {
    match history
    case Then(before, e) =>
      if i < |Qualifying(s, before, ip)| { NoneAfterLatest(s, before, ip, i); }
  }

  lemma {:induction false} OrderedHistoryAscends(s: Signal, history: History, ip: Ip)
    requires OrderedFor(history, ip)
    ensures Ascending(Qualifying(s, history, ip))
  {
    match history
    case Nothing =>
    case Then(before, e) =>
      OrderedHistoryAscends(s, before, ip);
      if Pushes(s, e, ip) {
        var q := Qualifying(s, before, ip);
        forall i | 0 <= i < |q| ensures q[i].timestamp <= e.timestamp { NoneAfterLatest(s, before, ip, i); }
      }
  }

  /** Window refinement: on streams ordered per address the deque is exactly the
      qualifying history of the address no older than its latest event less the window. */
  lemma {:induction false} WindowRefinement(s: Signal, window: int, history: History, ip: Ip)
    requires OrderedFor(history, ip) && LatestTime(history, ip).Some?
    ensures Retained(s, window, history, ip) ==
            NotBefore(Qualifying(s, history, ip), LatestTime(history, ip).value - window)
  {
    match history
    case Then(before, e) =>
      if e.sourceIp != ip {
        WindowRefinement(s, window, before, ip);
      } else {
        var q, p := Qualifying(s, history, ip), Popped(s, window, history, ip);
        RetainedIsSuffix(s, window, history, ip);
        OrderedHistoryAscends(s, history, ip);
        forall i | 0 <= i < p ensures q[i].timestamp < e.timestamp - window {
          NoUndercount(s, window, history, ip, i);
        }
        var k := DropStaleIsSuffix(Pending(s, window, before, e), EventTime(), e.timestamp - window);
        assert p < |q| ==> q[p] == Retained(s, window, history, ip)[0];
        DropStaleIsFilter(q, p, e.timestamp - window);
      }
  }

  // ---------------------------------------------------------------- what a window holds

  /** How often an event occurs in a history. */
  function Times(history: History, x: SecurityEvent): nat {
    match history
    case Nothing => 0
    case Then(before, e) => Times(before, x) + if e == x then 1 else 0
  }

  lemma {:induction false} QualifyingCounted(s: Signal, history: History, ip: Ip, x: SecurityEvent)
    ensures multiset(Qualifying(s, history, ip))[x] == if Pushes(s, x, ip) then Times(history, x) else 0
  {
    match history
    case Nothing =>
    case Then(before, e) => QualifyingCounted(s, before, ip, x);
  }

  lemma {:induction false} NotBeforeCounted(events: seq<SecurityEvent>, cutoff: int, x: SecurityEvent)
    ensures multiset(NotBefore(events, cutoff))[x] == if x.timestamp >= cutoff then multiset(events)[x] else 0
  {
    if events != [] {
      NotBeforeCounted(events[1..], cutoff, x);
      assert events == [events[0]] + events[1..];
    }
  }

  lemma {:induction false} WindowCounted(s: Signal, window: int, history: History, ip: Ip, x: SecurityEvent)
    requires OrderedFor(history, ip) && LatestTime(history, ip).Some?
    ensures multiset(Retained(s, window, history, ip))[x] ==
            if Pushes(s, x, ip) && x.timestamp >= LatestTime(history, ip).value - window then Times(history, x) else 0
  {
    WindowRefinement(s, window, history, ip);
    NotBeforeCounted(Qualifying(s, history, ip), LatestTime(history, ip).value - window, x);
    QualifyingCounted(s, history, ip, x);
  }

  /** What a detector counts, on a stream ordered for the address: every failure of the
      address, every event that targets an invalid user, or every failure with a username,
      that is no older than the latest event less the window, as often as it occurred, and
      nothing else. */
  lemma {:induction false} WindowHolds(s: Signal, window: int, before: History, e: SecurityEvent, x: SecurityEvent)
    requires OrderedFor(Then(before, e), e.sourceIp)
    ensures var failure := x.eventType == AuthFailure || x.eventType == InvalidUser;
      var counts := match s
        case Failures => failure
        case InvalidUsers => x.eventType == InvalidUser || x.invalidUserFlag
        case NamedFailures => failure && x.username != "";
      multiset(Retained(s, window, Then(before, e), e.sourceIp))[x] ==
      if counts && x.sourceIp == e.sourceIp && x.timestamp >= e.timestamp - window then Times(Then(before, e), x)
      else 0
  {
    WindowCounted(s, window, Then(before, e), e.sourceIp, x);
  }
}
