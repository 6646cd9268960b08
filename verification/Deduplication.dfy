/** Alert deduplication: a cache of the last accepted alert per address and detector,
    how late alerts may be before its eviction is noticed, and how often alerts pass. */
module Deduplication {
  import opened Domain

  type Key = (Ip, DetectorName)
  type Cache = map<Key, int>

  /** The detectors triggered by one event of `ip` at time `now`. */
  datatype Alert = Alert(now: int, ip: Ip, detectors: seq<DetectorName>)

  /** A remembered time of zero counts as no time at all. */
  predicate Suppressed(cache: Cache, key: Key, now: int, window: int) {
    key in cache && cache[key] != 0 && now - cache[key] < window
  }

  function Accept(cache: Cache, key: Key, now: int, window: int): Cache {
    if Suppressed(cache, key, now, window) then cache else cache[key := now]
  }

  /** The cache after all the detectors of one event, in order. */
  function Absorb(cache: Cache, a: Alert, window: int, n: nat): Cache
    requires n <= |a.detectors|
  {
    if n == 0 then cache
    else Accept(Absorb(cache, a, window, n - 1), (a.ip, a.detectors[n - 1]), a.now, window)
  }

  /** Whether any of the first `n` detectors was found to repeat a recent alert. */
  predicate Repeats(cache: Cache, a: Alert, window: int, n: nat)
    requires n <= |a.detectors|
  {
    n > 0 &&
    (Repeats(cache, a, window, n - 1) ||
     Suppressed(Absorb(cache, a, window, n - 1), (a.ip, a.detectors[n - 1]), a.now, window))
  }

  function Clean(cache: Cache, now: int, window: int): Cache {
    map k | k in cache && cache[k] >= now - window * 2 :: cache[k]
  }

  function After(cache: Cache, a: Alert, window: int, evicting: bool): Cache {
    var absorbed := Absorb(cache, a, window, |a.detectors|);
    if evicting then Clean(absorbed, a.now, window) else absorbed
  }

  /** The duplicate answers given over a whole stream. */
  function Answers(cache: Cache, window: int, alerts: seq<Alert>, evicting: bool): seq<bool>
    decreases |alerts|
  {
    if alerts == [] then []
    else
      [Repeats(cache, alerts[0], window, |alerts[0].detectors|)] +
      Answers(After(cache, alerts[0], window, evicting), window, alerts[1..], evicting)
  }

  /** Every alert is at most `late` behind the largest time before it, counting `top`. */
  predicate AlmostInOrder(alerts: seq<Alert>, top: int, late: int)
    decreases |alerts|
  {
    alerts != [] ==>
      alerts[0].now >= top - late &&
      AlmostInOrder(alerts[1..], if alerts[0].now > top then alerts[0].now else top, late)
  }

  /** No stream position is more than `late` behind the latest time so far. */
  predicate AtMostLate(alerts: seq<Alert>, late: int) {
    alerts != [] ==> AlmostInOrder(alerts, alerts[0].now, late)
  }

  // ---------------------------------------------------------------- what one event does

  /** An entry that is neither zero nor a window old when the event comes. */
  ghost predicate Recent(cache: Cache, key: Key, now: int, window: int) {
    key in cache && cache[key] != 0 && now < cache[key] + window
  }

  /** Of the first `n` detectors each without a recent entry gets the event's time; nothing
      else in the cache changes. */
  lemma {:induction false} AbsorbExactly(cache: Cache, a: Alert, window: int, n: nat, key: Key)
    requires n <= |a.detectors|
    ensures var after := Absorb(cache, a, window, n);
      var listed := key.0 == a.ip && exists i :: 0 <= i < n && a.detectors[i] == key.1;
      && (key in after <==> key in cache || listed)
      && (key in after ==>
            after[key] == if listed && !Recent(cache, key, a.now, window) then a.now else cache[key])
  {
    if n > 0 {
      AbsorbExactly(cache, a, window, n - 1, key);
      if key == (a.ip, a.detectors[n - 1]) { assert a.detectors[n - 1] == key.1; }
    }
  }

  /** The event repeats an alert exactly when some detector had a recent entry, or one
      fired twice, unless the event is at time zero or the window is empty. */
  lemma {:induction false} RepeatsExactly(cache: Cache, a: Alert, window: int, n: nat)
    requires n <= |a.detectors|
    ensures Repeats(cache, a, window, n) <==>
            || (exists i :: 0 <= i < n && Recent(cache, (a.ip, a.detectors[i]), a.now, window))
            || (a.now != 0 && window > 0 && exists i, j :: 0 <= i < j < n && a.detectors[i] == a.detectors[j])
  {
    if n > 0 {
      var d := a.detectors[n - 1];
      RepeatsExactly(cache, a, window, n - 1);
      AbsorbExactly(cache, a, window, n - 1, (a.ip, d));
    }
  }

  // ---------------------------------------------------------------- when eviction is invisible

  /** The evicting cache lacks only entries older than two windows before `top`. */
  ghost predicate ForgetsOnlyOld(small: Cache, full: Cache, top: int, window: int) {
    (forall k :: k in small ==> k in full && small[k] == full[k]) &&
    (forall k :: k in full && k !in small ==> full[k] < top - window * 2)
  }

  lemma {:induction false} AbsorbAgrees(small: Cache, full: Cache, a: Alert, window: int, top: int, n: nat)
    requires window >= 0 && n <= |a.detectors| && a.now >= top - (window + 1)
    requires ForgetsOnlyOld(small, full, top, window)
    ensures ForgetsOnlyOld(Absorb(small, a, window, n), Absorb(full, a, window, n), top, window)
    ensures Repeats(small, a, window, n) == Repeats(full, a, window, n)
  {
    if n > 0 { AbsorbAgrees(small, full, a, window, top, n - 1); }
  }

  lemma {:induction false} AnswersAgree(small: Cache, full: Cache, top: int, window: int, late: int, alerts: seq<Alert>)
    requires window >= 0 && late <= window + 1
    requires AlmostInOrder(alerts, top, late) && ForgetsOnlyOld(small, full, top, window)
    ensures Answers(small, window, alerts, true) == Answers(full, window, alerts, false)
    decreases |alerts|
  {
    if alerts != [] {
      var a := alerts[0];
      AbsorbAgrees(small, full, a, window, top, |a.detectors|);
      AnswersAgree(After(small, a, window, true), After(full, a, window, false),
                   if a.now > top then a.now else top, window, late, alerts[1..]);
    }
  }

  /** On every stream in time order the evicting cache answers exactly as a cache
      that never forgets, whichever detectors each event triggers. */
  lemma {:induction false} EvictionInvisible(window: int, alerts: seq<Alert>)
    requires window >= 0 && AtMostLate(alerts, 0)
    ensures Answers(map[], window, alerts, true) == Answers(map[], window, alerts, false)
  {
    InvisibleUpTo(window, 0, alerts);
  }

  lemma {:induction false} InvisibleUpTo(window: int, late: int, alerts: seq<Alert>)
    requires window >= 0 && late <= window + 1 && AtMostLate(alerts, late)
    ensures Answers(map[], window, alerts, true) == Answers(map[], window, alerts, false)
  {
    if alerts != [] { AnswersAgree(map[], map[], alerts[0].now, window, late, alerts); }
  }

  /** Three alerts: one, a much later one of another address, and a late repetition. */
  function LateStream(first: Ip, second: Ip, t0: int, t1: int, t2: int): seq<Alert> {
    [Alert(t0, first, [BruteForce]), Alert(t1, second, [BruteForce]), Alert(t2, first, [BruteForce])]
  }

  /** A repetition within the window is missed when its entry was evicted in between. */
  lemma {:induction false} LateAlertsSlipThrough(first: Ip, second: Ip, window: int, t0: int, t1: int, t2: int)
    requires first != second && t0 != 0 && t1 > t0 + window * 2 && t2 < t0 + window
    ensures Answers(map[], window, LateStream(first, second, t0, t1, t2), true) == [false, false, false]
    ensures Answers(map[], window, LateStream(first, second, t0, t1, t2), false) == [false, false, true]
  {
    var a, b, c := Alert(t0, first, [BruteForce]), Alert(t1, second, [BruteForce]), Alert(t2, first, [BruteForce]);
    assert t1 - window * 2 > t0;
    OneDetector(map[], a, window);
    var once: Cache := map[(first, BruteForce) := t0];
    assert After(map[], a, window, false) == once;
    OneDetector(After(map[], a, window, true), b, window);
    OneDetector(once, b, window);
    OneDetector(After(After(map[], a, window, true), b, window, true), c, window);
    OneDetector(After(once, b, window, false), c, window);
    FirstAnswers(map[], window, a, b, c, true);
    FirstAnswers(map[], window, a, b, c, false);
  }

  /** How late alerts may be: eviction is invisible on all streams with alerts at most
      `late` behind exactly when `late` is no more than one tick over the window. */
  lemma {:induction false} EvictionInvisibleIff(window: int, late: int)
    requires window >= 0 && late >= 0
    ensures (forall alerts: seq<Alert> :: AtMostLate(alerts, late) ==>
              Answers(map[], window, alerts, true) == Answers(map[], window, alerts, false))
       <==> late <= window + 1
  {
    if late <= window + 1 {
      forall alerts: seq<Alert> | AtMostLate(alerts, late)
        ensures Answers(map[], window, alerts, true) == Answers(map[], window, alerts, false)
      {
        InvisibleUpTo(window, late, alerts);
      }
    } else {
      var first, second := Address(V4, 1), Address(V4, 2);
      var t0, t1, t2 := 1, 1 + window * 2 + 1, 1 + window - 1;
      var alerts := LateStream(first, second, t0, t1, t2);
      LateStreamOrder(first, second, t0, t1, t2, late);
      LateAlertsSlipThrough(first, second, window, t0, t1, t2);
      assert AtMostLate(alerts, late);
    }
  }

  lemma {:induction false} LateStreamOrder(first: Ip, second: Ip, t0: int, t1: int, t2: int, late: int)
    requires late >= 0 && t0 <= t1 && t2 >= t1 - late
    ensures AtMostLate(LateStream(first, second, t0, t1, t2), late)
  {
    var alerts := LateStream(first, second, t0, t1, t2);
    assert alerts[1..][1..] == [alerts[2]];
    assert AlmostInOrder([alerts[2]], t1, late);
    assert AlmostInOrder(alerts[1..], t0, late);
  }

  lemma {:induction false} OneDetector(cache: Cache, a: Alert, window: int)
    requires |a.detectors| == 1
    ensures Absorb(cache, a, window, 1) == Accept(cache, (a.ip, a.detectors[0]), a.now, window)
    ensures Repeats(cache, a, window, 1) == Suppressed(cache, (a.ip, a.detectors[0]), a.now, window)
  {
  }

  lemma {:induction false} FirstAnswers(cache: Cache, window: int, a: Alert, b: Alert, c: Alert, evicting: bool)
    ensures var c1 := After(cache, a, window, evicting);
      var c2 := After(c1, b, window, evicting);
      Answers(cache, window, [a, b, c], evicting) ==
        [Repeats(cache, a, window, |a.detectors|), Repeats(c1, b, window, |b.detectors|),
         Repeats(c2, c, window, |c.detectors|)]
  {
    var c1 := After(cache, a, window, evicting);
    var c2 := After(c1, b, window, evicting);
    assert [a, b, c][1..] == [b, c];
    assert [b, c][1..] == [c];
    assert Answers(c2, window, [c], evicting) == [Repeats(c2, c, window, |c.detectors|)];
  }

  // ---------------------------------------------------------------- the rate of accepted alerts

  /** The times, one per acceptance, at which one event's alerts of `key` are accepted. */
  function AcceptedNow(cache: Cache, a: Alert, window: int, n: nat, key: Key): seq<int>
    requires n <= |a.detectors|
  {
    if n == 0 then []
    else
      var k := (a.ip, a.detectors[n - 1]);
      AcceptedNow(cache, a, window, n - 1, key) +
      if k == key && !Suppressed(Absorb(cache, a, window, n - 1), k, a.now, window) then [a.now] else []
  }

  function Accepted(cache: Cache, window: int, alerts: seq<Alert>, key: Key): seq<int>
    decreases |alerts|
  {
    if alerts == [] then []
    else
      AcceptedNow(cache, alerts[0], window, |alerts[0].detectors|, key) +
      Accepted(After(cache, alerts[0], window, true), window, alerts[1..], key)
  }

  ghost predicate NonZero(alerts: seq<Alert>) {
    forall i :: 0 <= i < |alerts| ==> alerts[i].now != 0
  }

  /** Consecutive times, and the first after `last`, are at least a window apart. */
  predicate Spaced(last: Option<int>, times: seq<int>, window: int)
    decreases |times|
  {
    times != [] ==> (last.Some? ==> times[0] - last.value >= window) && Spaced(Some(times[0]), times[1..], window)
  }

  /** The cache knows when `key` was last accepted, unless that is long before `top`. */
  ghost predicate Remembers(cache: Cache, key: Key, last: Option<int>, top: int, window: int) {
    match last
    case None => key !in cache
    case Some(t) => t != 0 && t <= top && if key in cache then cache[key] == t else t < top - window * 2
  }

  function Later(a: int, b: int): int { if a > b then a else b }

  /** One event accepts an alert of a key at most once, and only a window after the last. */
  lemma {:induction false} AcceptedOnce(cache: Cache, a: Alert, window: int, n: nat, key: Key, last: Option<int>,
                                        top: int)
    requires window > 0 && a.now != 0 && n <= |a.detectors|
    requires Remembers(cache, key, last, top, window) && a.now >= top - (window + 1)
    ensures var times := AcceptedNow(cache, a, window, n, key);
      var absorbed := Absorb(cache, a, window, n);
      if times == [] then Remembers(absorbed, key, last, top, window)
      else times == [a.now] && (last.Some? ==> a.now - last.value >= window) &&
           key in absorbed && absorbed[key] == a.now
  {
    if n > 0 { AcceptedOnce(cache, a, window, n - 1, key, last, top); }
  }

  lemma {:induction false} SpacedFrom(cache: Cache, window: int, alerts: seq<Alert>, key: Key,
                                      last: Option<int>, top: int, late: int)
    requires window > 0 && late <= window + 1 && AlmostInOrder(alerts, top, late) && NonZero(alerts)
    requires Remembers(cache, key, last, top, window)
    ensures Spaced(last, Accepted(cache, window, alerts, key), window)
    decreases |alerts|
  {
    if alerts != [] {
      var a := alerts[0];
      var times, after, top' := AcceptedNow(cache, a, window, |a.detectors|, key), After(cache, a, window, true),
                                Later(a.now, top);
      assert forall k :: 0 <= k < |alerts[1..]| ==> alerts[1..][k] == alerts[k + 1];
      AcceptedOnce(cache, a, window, |a.detectors|, key, last, top);
      var rest := Accepted(after, window, alerts[1..], key);
      if times == [] {
        SpacedFrom(after, window, alerts[1..], key, last, top', late);
        assert [] + rest == rest;
      } else {
        SpacedFrom(after, window, alerts[1..], key, Some(a.now), top', late);
        assert ([a.now] + rest)[1..] == rest;
      }
    }
  }

  /** Accepted alerts of one address and detector are at least a window apart, on every
      stream whose alerts are late by no more than the window and one tick. */
  lemma {:induction false} AcceptedSpaced(window: int, alerts: seq<Alert>, key: Key, late: int)
    requires window > 0 && late <= window + 1 && AtMostLate(alerts, late) && NonZero(alerts)
    ensures Spaced(None, Accepted(map[], window, alerts, key), window)
  {
    if alerts != [] { SpacedFrom(map[], window, alerts, key, None, alerts[0].now, late); }
  }

  /** The late repetition is accepted less than a window after the first alert. */
  lemma {:induction false} LateAccepted(first: Ip, second: Ip, window: int, t0: int, t1: int, t2: int)
    requires first != second && t0 != 0 && t1 > t0 + window * 2
    ensures Accepted(map[], window, LateStream(first, second, t0, t1, t2), (first, BruteForce)) == [t0, t2]
  {
    var key := (first, BruteForce);
    var a, b, c := Alert(t0, first, [BruteForce]), Alert(t1, second, [BruteForce]), Alert(t2, first, [BruteForce]);
    var c1 := After(map[], a, window, true);
    var c2 := After(c1, b, window, true);
    assert t1 - window * 2 > t0;
    OneDetector(map[], a, window);
    OneDetector(c1, b, window);
    assert key !in c2;
    AcceptedOne(map[], a, window, key);
    AcceptedOne(c1, b, window, key);
    AcceptedOne(c2, c, window, key);
    assert [a, b, c][1..] == [b, c] && [b, c][1..] == [c];
    assert Accepted(c2, window, [c], key) == [t2];
    assert Accepted(c1, window, [b, c], key) == [t2];
  }

  lemma {:induction false} AcceptedOne(cache: Cache, a: Alert, window: int, key: Key)
    requires |a.detectors| == 1
    ensures AcceptedNow(cache, a, window, 1, key) ==
            if (a.ip, a.detectors[0]) == key && !Suppressed(cache, key, a.now, window) then [a.now] else []
  {
    assert Absorb(cache, a, window, 0) == cache;
    assert AcceptedNow(cache, a, window, 0, key) == [];
  }

  /** How late alerts may be: on all streams with no alert at time zero and none more than
      `late` behind, the accepted ones of every key are spaced by the window exactly when
      `late` is no more than one tick over the window. */
  lemma {:induction false} AcceptedSpacedIff(window: int, late: int)
    requires window > 0 && late >= 0
    ensures (forall alerts: seq<Alert>, key: Key :: NonZero(alerts) && AtMostLate(alerts, late) ==>
              Spaced(None, Accepted(map[], window, alerts, key), window))
       <==> late <= window + 1
  {
    if late <= window + 1 {
      forall alerts: seq<Alert>, key: Key | NonZero(alerts) && AtMostLate(alerts, late)
        ensures Spaced(None, Accepted(map[], window, alerts, key), window)
      {
        AcceptedSpaced(window, alerts, key, late);
      }
    } else {
      var first, second := Address(V4, 1), Address(V4, 2);
      var t0, t1, t2 := 1, 1 + window * 2 + 1, window;
      var alerts := LateStream(first, second, t0, t1, t2);
      LateStreamOrder(first, second, t0, t1, t2, late);
      LateAccepted(first, second, window, t0, t1, t2);
      assert [t0, t2][1..] == [t2];
      assert !Spaced(Some(t0), [t2], window);
      assert AtMostLate(alerts, late) && NonZero(alerts);
      assert !Spaced(None, Accepted(map[], window, alerts, (first, BruteForce)), window);
    }
  }

  /** An alert accepted at time zero is not remembered: it is accepted again at once. */
  lemma {:induction false} ZeroIsForgotten(ip: Ip, window: int)
    requires window > 0
    ensures var a := Alert(0, ip, [BruteForce]);
      AtMostLate([a, a], 0) && Accepted(map[], window, [a, a], (ip, BruteForce)) == [0, 0]
  {
    var a := Alert(0, ip, [BruteForce]);
    var c1 := After(map[], a, window, true);
    assert [a, a][1..] == [a];
    OneDetector(map[], a, window);
    AcceptedOne(map[], a, window, (ip, BruteForce));
    AcceptedOne(c1, a, window, (ip, BruteForce));
    assert Accepted(c1, window, [a], (ip, BruteForce)) == [0];
  }

  lemma {:induction false} SpacedDistance(last: Option<int>, times: seq<int>, window: int, i: nat, j: nat)
    requires Spaced(last, times, window) && i <= j < |times|
    ensures times[j] - times[i] >= (j - i) * window
    decreases |times|
  {
    if i > 0 {
      SpacedDistance(Some(times[0]), times[1..], window, i - 1, j - 1);
    } else if j > 0 {
      SpacedDistance(Some(times[0]), times[1..], window, 0, j - 1);
      assert times[1] - times[0] >= window by { assert times[1] == times[1..][0]; }
      OneMoreWindow(j - 1, window);
    }
  }

  lemma {:induction false} OneMoreWindow(k: int, window: int)
    ensures (k + 1) * window == k * window + window
  {
  }

  lemma {:induction false} MoreWindows(a: int, b: int, window: int)
    requires window > 0
    ensures a < b ==> a * window + window <= b * window
  {
    if a < b { OneMoreWindow(a, window); }
  }

  lemma {:induction false} WindowsInSpan(k: nat, window: int, span: int)
    requires window > 0 && k * window <= span
    ensures k <= span / window
  {
    MoreWindows(span / window, k, window);
    assert span == span / window * window + span % window;
  }

  /** At most floor(span / window) + 1 alerts of one address and detector are accepted
      within any span of time, on every stream whose alerts are late by no more than the
      window and one tick. */
  lemma {:induction false} AlertRateBounded(window: int, alerts: seq<Alert>, key: Key, late: int, i: nat, j: nat,
                                            span: int)
    requires window > 0 && late <= window + 1 && NonZero(alerts) && AtMostLate(alerts, late)
    requires var times := Accepted(map[], window, alerts, key);
      i <= j < |times| && times[j] - times[i] <= span
    ensures j - i + 1 <= span / window + 1
  {
    var times := Accepted(map[], window, alerts, key);
    AcceptedSpaced(window, alerts, key, late);
    SpacedDistance(None, times, window, i, j);
    WindowsInSpan(j - i, window, span);
  }
}
