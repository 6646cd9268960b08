/** The detector objects: per-address deques mutated in place, each proved to
    hold what `Detection.Retained` says of the whole history it was shown. */
module Detectors {
  import opened Domain
  import opened Detection

  // ---------------------------------------------------------------- shared eviction loop

  /** Pop entries from the front while they are older than the cutoff: what is popped
      is the longest stale prefix. */
  method ExpireOld<T>(entries: seq<T>, at: T -> int, cutoff: int) returns (kept: seq<T>, ghost popped: nat)
    ensures StalePrefix(entries, at, cutoff, popped) && kept == entries[popped..]
    ensures kept == DropStale(entries, at, cutoff)
  {
    kept, popped := entries, 0;
    while kept != [] && at(kept[0]) < cutoff
      invariant popped <= |entries| && kept == entries[popped..]
      invariant forall i :: 0 <= i < popped ==> at(entries[i]) < cutoff
    {
      kept, popped := kept[1..], popped + 1;
    }
    StalePrefixUnique(entries, at, cutoff, popped);
  }

  /** A deque of bare times. */
  function Instant(): int -> int { (t: int) => t }

  function DequeOf<T>(deques: map<Ip, seq<T>>, ip: Ip): seq<T> {
    if ip in deques then deques[ip] else []
  }

  /** Every deque holds what is kept of the entries its history says are retained. */
  ghost predicate Tracks<T(!new)>(deques: map<Ip, seq<T>>, kept: SecurityEvent -> T, s: Signal, window: int,
                                  history: History) {
    forall ip :: DequeOf(deques, ip) == View(Retained(s, window, history, ip), kept)
  }

  /** Pushing a qualifying event and evicting, or only evicting, keeps a detector on track. */
  lemma {:induction false} TracksStep<T(!new)>(deques: map<Ip, seq<T>>, kept: SecurityEvent -> T, at: T -> int,
                                               s: Signal, window: int, history: History, e: SecurityEvent)
    requires Tracks(deques, kept, s, window, history) && forall e :: at(kept(e)) == e.timestamp
    ensures var deque := DequeOf(deques, e.sourceIp);
      var pending := if Qualifies(s, e) then deque + [kept(e)] else deque;
      Tracks(deques[e.sourceIp := DropStale(pending, at, e.timestamp - window)], kept, s, window, Then(history, e))
  {
    var deque := DequeOf(deques, e.sourceIp);
    var pending := if Qualifies(s, e) then deque + [kept(e)] else deque;
    assert pending == View(Pending(s, window, history, e), kept);
    DropStaleOfView(Pending(s, window, history, e), kept, at, e.timestamp - window);
    var after := deques[e.sourceIp := DropStale(pending, at, e.timestamp - window)];
    forall ip ensures DequeOf(after, ip) == View(Retained(s, window, Then(history, e), ip), kept) {
      if ip != e.sourceIp { assert DequeOf(after, ip) == DequeOf(deques, ip); }
    }
  }

  // ---------------------------------------------------------------- brute force

  class BruteForceDetector {
    const threshold: int
    const window: int
    const enabled: bool
    var failures: map<Ip, seq<int>>
    ghost var history: History

    ghost predicate Valid()
      reads this
    {
      threshold > 0 && window > 0 && Tracks(failures, EventTime(), Failures, window, history)
    }

    constructor (threshold: int, windowSeconds: int, enabled: bool)
      requires threshold > 0 && windowSeconds > 0
      ensures Valid() && history == Nothing
      ensures this.threshold == threshold && window == windowSeconds * SECOND && this.enabled == enabled
    {
      this.threshold := threshold;
      this.window := windowSeconds * SECOND;
      this.enabled := enabled;
      failures := map[];
      history := Nothing;
    }

    method Evaluate(event: SecurityEvent) returns (r: DetectionResult)
      requires Valid()
      modifies `failures, `history
      ensures Valid()
      ensures history == if enabled then Then(old(history), event) else old(history)
      ensures r.eventCount == if enabled then |Retained(Failures, window, history, event.sourceIp)| else 0
      ensures r.detected <==> enabled && IsFailure(event) && r.eventCount >= threshold
      ensures r.sourceIp == event.sourceIp && r.threshold == threshold && r.detector == BruteForce
    {
      if !enabled {
        return DetectionResult(false, event.sourceIp, 0, threshold, BruteForce);
      }
      TracksStep(failures, EventTime(), Instant(), Failures, window, history, event);
      if !IsFailure(event) {
        var active := CountActive(event.sourceIp, event.timestamp);
        history := Then(history, event);
        return DetectionResult(false, event.sourceIp, active, threshold, BruteForce);
      }
      var pushed := DequeOf(failures, event.sourceIp) + [event.timestamp];
      var timestamps, _ := ExpireOld(pushed, Instant(), event.timestamp - window);
      failures := failures[event.sourceIp := timestamps];
      history := Then(history, event);
      var count := |timestamps|;
      assert timestamps == DequeOf(failures, event.sourceIp);
      if count >= threshold {
        return DetectionResult(true, event.sourceIp, count, threshold, BruteForce);
      }
      return DetectionResult(false, event.sourceIp, count, threshold, BruteForce);
    }

    method CountActive(sourceIp: Ip, currentTime: int) returns (count: nat)
      modifies `failures
      ensures failures == old(failures)[sourceIp := DropStale(DequeOf(old(failures), sourceIp), Instant(),
                                                              currentTime - window)]
      ensures count == |failures[sourceIp]|
    {
      var timestamps, _ := ExpireOld(DequeOf(failures, sourceIp), Instant(), currentTime - window);
      failures := failures[sourceIp := timestamps];
      count := |timestamps|;
    }

    method Reset()
      requires Valid()
      modifies `failures, `history
      ensures Valid() && history == Nothing
    {
      failures := map[];
      history := Nothing;
    }
  }

  // ---------------------------------------------------------------- burst velocity

  class BurstDetector {
    const threshold: int
    const window: int
    const enabled: bool
    var recent: map<Ip, seq<int>>
    ghost var history: History

    ghost predicate Valid()
      reads this
    {
      threshold > 0 && window > 0 && Tracks(recent, EventTime(), Failures, window, history)
    }

    constructor (threshold: int, windowSeconds: int, enabled: bool)
      requires threshold > 0 && windowSeconds > 0
      ensures Valid() && history == Nothing
      ensures this.threshold == threshold && window == windowSeconds * SECOND && this.enabled == enabled
    {
      this.threshold := threshold;
      this.window := windowSeconds * SECOND;
      this.enabled := enabled;
      recent := map[];
      history := Nothing;
    }

    method Evaluate(event: SecurityEvent) returns (r: DetectionResult)
      requires Valid()
      modifies `recent, `history
      ensures Valid()
      ensures history == if enabled then Then(old(history), event) else old(history)
      ensures r.eventCount == if enabled then |Retained(Failures, window, history, event.sourceIp)| else 0
      ensures r.detected <==> enabled && IsFailure(event) && r.eventCount >= threshold
      ensures r.sourceIp == event.sourceIp && r.threshold == threshold && r.detector == BurstVelocity
    {
      if !enabled {
        return DetectionResult(false, event.sourceIp, 0, threshold, BurstVelocity);
      }
      TracksStep(recent, EventTime(), Instant(), Failures, window, history, event);
      if !IsFailure(event) {
        var active := CountActive(event.sourceIp, event.timestamp);
        history := Then(history, event);
        return DetectionResult(false, event.sourceIp, active, threshold, BurstVelocity);
      }
      var pushed := DequeOf(recent, event.sourceIp) + [event.timestamp];
      var timestamps, _ := ExpireOld(pushed, Instant(), event.timestamp - window);
      recent := recent[event.sourceIp := timestamps];
      history := Then(history, event);
      assert timestamps == DequeOf(recent, event.sourceIp);
      r := DetectionResult(|timestamps| >= threshold, event.sourceIp, |timestamps|, threshold, BurstVelocity);
    }

    method CountActive(sourceIp: Ip, currentTime: int) returns (count: nat)
      modifies `recent
      ensures recent == old(recent)[sourceIp := DropStale(DequeOf(old(recent), sourceIp), Instant(),
                                                          currentTime - window)]
      ensures count == |recent[sourceIp]|
    {
      var timestamps, _ := ExpireOld(DequeOf(recent, sourceIp), Instant(), currentTime - window);
      recent := recent[sourceIp := timestamps];
      count := |timestamps|;
    }
  }

  /** Run side by side from the start, a burst detector never counts more than a
      brute-force detector whose window is at least as long. */
  method EvaluateBoth(burst: BurstDetector, brute: BruteForceDetector, event: SecurityEvent)
    returns (b: DetectionResult, f: DetectionResult)
    requires burst.Valid() && brute.Valid() && burst.enabled && brute.enabled
    requires burst.history == brute.history && burst.window <= brute.window
    modifies burst`recent, burst`history, brute`failures, brute`history
    ensures burst.Valid() && brute.Valid() && burst.history == brute.history
    ensures b.eventCount <= f.eventCount
    ensures b.detected && brute.threshold <= burst.threshold ==> f.detected
  {
    b := burst.Evaluate(event);
    f := brute.Evaluate(event);
    NestedWindows(Failures, burst.window, brute.window, burst.history, event.sourceIp);
  }

  // ---------------------------------------------------------------- username enumeration

  class UsernameEnumerationDetector {
    const threshold: int
    const window: int
    const enabled: bool
    var recent: map<Ip, seq<int>>
    ghost var history: History

    ghost predicate Valid()
      reads this
    {
      threshold > 0 && window > 0 && Tracks(recent, EventTime(), InvalidUsers, window, history)
    }

    constructor (threshold: int, windowSeconds: int, enabled: bool)
      requires threshold > 0 && windowSeconds > 0
      ensures Valid() && history == Nothing
      ensures this.threshold == threshold && window == windowSeconds * SECOND && this.enabled == enabled
    {
      this.threshold := threshold;
      this.window := windowSeconds * SECOND;
      this.enabled := enabled;
      recent := map[];
      history := Nothing;
    }

    method Evaluate(event: SecurityEvent) returns (r: DetectionResult)
      requires Valid()
      modifies `recent, `history
      ensures Valid()
      ensures history == if enabled then Then(old(history), event) else old(history)
      ensures r.eventCount == if enabled then |Retained(InvalidUsers, window, history, event.sourceIp)| else 0
      ensures r.detected <==> enabled && TargetsInvalidUser(event) && r.eventCount >= threshold
      ensures r.sourceIp == event.sourceIp && r.threshold == threshold && r.detector == UsernameEnumeration
    {
      if !enabled {
        return DetectionResult(false, event.sourceIp, 0, threshold, UsernameEnumeration);
      }
      TracksStep(recent, EventTime(), Instant(), InvalidUsers, window, history, event);
      var isInvalid := event.eventType == InvalidUser || event.invalidUserFlag;
      if !isInvalid {
        var active := CountActive(event.sourceIp, event.timestamp);
        history := Then(history, event);
        return DetectionResult(false, event.sourceIp, active, threshold, UsernameEnumeration);
      }
      var pushed := DequeOf(recent, event.sourceIp) + [event.timestamp];
      var timestamps, _ := ExpireOld(pushed, Instant(), event.timestamp - window);
      recent := recent[event.sourceIp := timestamps];
      history := Then(history, event);
      assert timestamps == DequeOf(recent, event.sourceIp);
      r := DetectionResult(|timestamps| >= threshold, event.sourceIp, |timestamps|, threshold, UsernameEnumeration);
    }

    method CountActive(sourceIp: Ip, currentTime: int) returns (count: nat)
      modifies `recent
      ensures recent == old(recent)[sourceIp := DropStale(DequeOf(old(recent), sourceIp), Instant(),
                                                          currentTime - window)]
      ensures count == |recent[sourceIp]|
    {
      var timestamps, _ := ExpireOld(DequeOf(recent, sourceIp), Instant(), currentTime - window);
      recent := recent[sourceIp := timestamps];
      count := |timestamps|;
    }
  }
}
