/** The password spray detector: a window of (time, username) attempts and the
    per-user counts derived from it. */
module Spray {
  import opened Domain
  import opened Detection
  import opened Detectors

  // ---------------------------------------------------------------- counting, specified

  function UserSet(attempts: seq<(int, string)>): set<string> {
    set i | 0 <= i < |attempts| :: attempts[i].1
  }

  /** How many of the attempts target `user`. */
  function AttemptsOn(attempts: seq<(int, string)>, user: string): nat {
    if attempts == [] then 0
    else AttemptsOn(attempts[..|attempts| - 1], user) + if attempts[|attempts| - 1].1 == user then 1 else 0
  }

  /** Sum of the counts of the users in `among`. */
  ghost function TotalOn(attempts: seq<(int, string)>, among: set<string>): nat {
    if among == {} then 0
    else
      var u :| u in among;
      AttemptsOn(attempts, u) + TotalOn(attempts, among - {u})
  }

  ghost predicate IsSpray(attempts: seq<(int, string)>, minUsernames: int, maxPerUser: int) {
    |UserSet(attempts)| >= minUsernames &&
    forall u :: u in UserSet(attempts) ==> AttemptsOn(attempts, u) <= maxPerUser
  }

  // ---------------------------------------------------------------- counting, proved

  lemma {:induction false} TotalOfLonger(attempts: seq<(int, string)>, among: set<string>)
    requires attempts != []
    ensures var last := attempts[|attempts| - 1].1;
      TotalOn(attempts, among) == TotalOn(attempts[..|attempts| - 1], among) + if last in among then 1 else 0
  {
    if among != {} {
      var u :| u in among;
      TotalPick(attempts, among, u);
      TotalPick(attempts[..|attempts| - 1], among, u);
      TotalOfLonger(attempts, among - {u});
    }
  }

  /** The sum does not depend on which user is counted first. */
  lemma {:induction false} TotalPick(attempts: seq<(int, string)>, among: set<string>, v: string)
    requires v in among
    ensures TotalOn(attempts, among) == AttemptsOn(attempts, v) + TotalOn(attempts, among - {v})
  {
    var u :| u in among && TotalOn(attempts, among) == AttemptsOn(attempts, u) + TotalOn(attempts, among - {u});
    if u != v {
      TotalPick(attempts, among - {u}, v);
      TotalPick(attempts, among - {v}, u);
      assert among - {u} - {v} == among - {v} - {u};
    }
  }

  lemma {:induction false} TotalOfNone(among: set<string>)
    ensures TotalOn([], among) == 0
  {
    if among != {} {
      var u :| u in among;
      TotalPick([], among, u);
      TotalOfNone(among - {u});
    }
  }

  /** The per-user counts add up to the length of the deque. */
  lemma {:induction false} CountsSumToLength(attempts: seq<(int, string)>, among: set<string>)
    requires UserSet(attempts) <= among
    ensures TotalOn(attempts, among) == |attempts|
  {
    if attempts == [] {
      TotalOfNone(among);
    } else {
      var shorter := attempts[..|attempts| - 1];
      assert attempts[|attempts| - 1].1 in UserSet(attempts);
      forall u | u in UserSet(shorter) ensures u in among {
        var i :| 0 <= i < |shorter| && shorter[i].1 == u;
        assert attempts[i].1 in UserSet(attempts);
      }
      CountsSumToLength(shorter, among);
      TotalOfLonger(attempts, among);
    }
  }

  lemma {:induction false} UserSetGrows(attempts: seq<(int, string)>, i: nat)
    requires i < |attempts|
    ensures UserSet(attempts[..i + 1]) == UserSet(attempts[..i]) + {attempts[i].1}
  {
  }

  lemma {:induction false} EveryUserCounted(attempts: seq<(int, string)>, u: string)
    ensures AttemptsOn(attempts, u) > 0 <==> u in UserSet(attempts)
  {
    if attempts != [] {
      var n := |attempts| - 1;
      EveryUserCounted(attempts[..n], u);
      UserSetGrows(attempts, n);
      assert attempts[..n + 1] == attempts;
    }
  }

  lemma {:induction false} TotalBounds(attempts: seq<(int, string)>, among: set<string>, most: int)
    requires forall u :: u in among ==> 1 <= AttemptsOn(attempts, u) <= most
    ensures |among| <= TotalOn(attempts, among) <= |among| * most
  {
    if among != {} {
      var u :| u in among;
      TotalPick(attempts, among, u);
      TotalBounds(attempts, among - {u}, most);
      OneMore(|among - {u}|, most);
    }
  }

  lemma {:induction false} OneMore(n: nat, most: int)
    ensures (n + 1) * most == n * most + most
  {
  }

  /** The users in a window are those some attempt names. */
  lemma {:induction false} UsersInWindow(entries: seq<SecurityEvent>, u: string)
    ensures u in UserSet(Attempts(entries)) <==> exists k :: 0 <= k < |entries| && entries[k].username == u
  {
    var attempts := Attempts(entries);
    if k :| 0 <= k < |entries| && entries[k].username == u { assert attempts[k].1 in UserSet(attempts); }
    if u in UserSet(attempts) {
      var k :| 0 <= k < |attempts| && attempts[k].1 == u;
      assert entries[k].username == u;
    }
  }

  /** A detected spray has between one and `maxPerUser` attempts for each distinct user. */
  lemma {:induction false} SprayBounds(attempts: seq<(int, string)>, minUsernames: int, maxPerUser: int)
    requires IsSpray(attempts, minUsernames, maxPerUser)
    ensures |UserSet(attempts)| <= |attempts| <= |UserSet(attempts)| * maxPerUser
  {
    forall u | u in UserSet(attempts) ensures AttemptsOn(attempts, u) > 0 {
      EveryUserCounted(attempts, u);
    }
    CountsSumToLength(attempts, UserSet(attempts));
    TotalBounds(attempts, UserSet(attempts), maxPerUser);
  }

  // ---------------------------------------------------------------- the two loops

  /** Count the attempts per user, one dictionary entry per distinct username. */
  method CountPerUser(attempts: seq<(int, string)>) returns (counts: map<string, nat>)
    ensures counts.Keys == UserSet(attempts)
    ensures forall u :: u in counts ==> counts[u] == AttemptsOn(attempts, u)
  {
    counts := map[];
    for i := 0 to |attempts|
      invariant counts.Keys == UserSet(attempts[..i])
      invariant forall u :: u in counts ==> counts[u] == AttemptsOn(attempts[..i], u)
    {
      var u := attempts[i].1;
      EveryUserCounted(attempts[..i], u);
      assert attempts[..i + 1][..i] == attempts[..i];
      UserSetGrows(attempts, i);
      counts := counts[u := (if u in counts then counts[u] else 0) + 1];
    }
    assert attempts[..|attempts|] == attempts;
  }

  /** The largest count, 0 when there is none. */
  method MaxCount(counts: map<string, nat>) returns (most: nat)
    ensures forall u :: u in counts ==> counts[u] <= most
    ensures if counts == map[] then most == 0 else exists u :: u in counts && counts[u] == most
  {
    most := 0;
    var left := counts.Keys;
    ghost var seen: set<string> := {};
    while left != {}
      invariant left + seen == counts.Keys
      invariant forall u :: u in seen ==> counts[u] <= most
      invariant if seen == {} then most == 0 else exists u :: u in seen && counts[u] == most
      decreases |left|
    {
      var u :| u in left;
      if counts[u] > most { most := counts[u]; }
      left := left - {u};
      seen := seen + {u};
      assert u in seen;
    }
    assert seen == counts.Keys;
    assert counts == map[] <==> counts.Keys == {};
  }

  /** Both thresholds, read off the counts. */
  lemma {:induction false} SprayDecision(attempts: seq<(int, string)>, counts: map<string, nat>, most: nat,
                                         minUsernames: int, maxPerUser: int)
    requires counts.Keys == UserSet(attempts) && forall u :: u in counts ==> counts[u] == AttemptsOn(attempts, u)
    requires forall u :: u in counts ==> counts[u] <= most
    requires if counts == map[] then most == 0 else exists u :: u in counts && counts[u] == most
    requires minUsernames > 0
    ensures |counts| == |UserSet(attempts)|
    ensures |counts| >= minUsernames && most <= maxPerUser <==>
            |UserSet(attempts)| >= minUsernames &&
            forall u :: u in UserSet(attempts) ==> AttemptsOn(attempts, u) <= maxPerUser
  {
    assert |counts| == |counts.Keys|;
    assert forall u :: u in UserSet(attempts) <==> u in counts;
  }

  // ---------------------------------------------------------------- the detector

  /** What the deque keeps of an event, and the time of an attempt. */
  function Attempt(): SecurityEvent -> (int, string) { (e: SecurityEvent) => (e.timestamp, e.username) }
  function AttemptTime(): ((int, string)) -> int { (a: (int, string)) => a.0 }

  function Attempts(entries: seq<SecurityEvent>): seq<(int, string)> { View(entries, Attempt()) }

  class PasswordSprayDetector {
    const minUsernames: int
    const maxAttemptsPerUser: int
    const window: int
    const enabled: bool
    var recent: map<Ip, seq<(int, string)>>
    ghost var history: History

    ghost predicate Valid()
      reads this
    {
      minUsernames > 1 && window > 0 && Tracks(recent, Attempt(), NamedFailures, window, history)
    }

    constructor (minUsernames: int, maxAttemptsPerUser: int, windowSeconds: int, enabled: bool)
      requires minUsernames > 1 && windowSeconds > 0
      ensures Valid() && history == Nothing
      ensures this.minUsernames == minUsernames && this.maxAttemptsPerUser == maxAttemptsPerUser
      ensures window == windowSeconds * SECOND && this.enabled == enabled
    {
      this.minUsernames := minUsernames;
      this.maxAttemptsPerUser := maxAttemptsPerUser;
      this.window := windowSeconds * SECOND;
      this.enabled := enabled;
      recent := map[];
      history := Nothing;
    }

    /** The reported count is the number of distinct users in the window, and a
        spray is detected exactly when there are enough users and none has too
        many attempts. */
    method Evaluate(event: SecurityEvent) returns (r: DetectionResult)
      requires Valid()
      modifies `recent, `history
      ensures Valid()
      ensures history == if enabled then Then(old(history), event) else old(history)
      ensures var inWindow := Attempts(Retained(NamedFailures, window, history, event.sourceIp));
        && r.eventCount == (if enabled then |UserSet(inWindow)| else 0)
        && (r.detected <==>
              && enabled && IsFailure(event) && event.username != "" && |UserSet(inWindow)| >= minUsernames
              && forall u :: u in UserSet(inWindow) ==> AttemptsOn(inWindow, u) <= maxAttemptsPerUser)
      ensures r.sourceIp == event.sourceIp && r.threshold == minUsernames && r.detector == PasswordSpray
    {
      if !enabled {
        return DetectionResult(false, event.sourceIp, 0, minUsernames, PasswordSpray);
      }
      TracksStep(recent, Attempt(), AttemptTime(), NamedFailures, window, history, event);
      if !IsFailure(event) || event.username == "" {
        var kept, _ := ExpireOld(DequeOf(recent, event.sourceIp), AttemptTime(), event.timestamp - window);
        recent := recent[event.sourceIp := kept];
        history := Then(history, event);
        assert kept == DequeOf(recent, event.sourceIp);
        return DetectionResult(false, event.sourceIp, |UserSet(kept)|, minUsernames, PasswordSpray);
      }
      var pushed := DequeOf(recent, event.sourceIp) + [(event.timestamp, event.username)];
      var attempts, _ := ExpireOld(pushed, AttemptTime(), event.timestamp - window);
      recent := recent[event.sourceIp := attempts];
      history := Then(history, event);
      assert attempts == DequeOf(recent, event.sourceIp);
      var userCounts := CountPerUser(attempts);
      var maxAttempts := MaxCount(userCounts);
      var distinct := |userCounts|;
      SprayDecision(attempts, userCounts, maxAttempts, minUsernames, maxAttemptsPerUser);
      var isSpray := distinct >= minUsernames && maxAttempts <= maxAttemptsPerUser;
      r := DetectionResult(isSpray, event.sourceIp, distinct, minUsernames, PasswordSpray);
    }
  }
}
