/** The explainable threat score: a profile is assessed from one event, the
    stored profile, the detections and the matched indicators. */
module Risk {
  import opened Domain

  datatype ScoringConfig = ScoringConfig(
    failedAuthWeight: int,
    invalidUserWeight: int,
    burstVelocityWeight: int,
    bruteForceWeight: int,
    passwordSprayWeight: int,
    enumerationWeight: int,
    maxAttemptsWeight: int,
    repeatOffenderWeight: int,
    successAuthWeight: int,
    trustedIpDiscount: int,
    mediumThreshold: int,
    highThreshold: int,
    criticalThreshold: int,
    trustedIps: set<Ip>)

  const LOOPBACK4 := Address(V4, 0x7F00_0001)
  const LOOPBACK6 := Address(V6, 1)

  const DEFAULT_SCORING :=
    ScoringConfig(5, 10, 25, 20, 20, 20, 20, 15, -10, -100, 40, 70, 85,
                  {LOOPBACK4, LOOPBACK6, HostName("localhost")})

  /** What configuration validation demands of the weights. */
  predicate NonNegativeWeights(cfg: ScoringConfig) {
    cfg.failedAuthWeight >= 0 && cfg.invalidUserWeight >= 0 && cfg.burstVelocityWeight >= 0 &&
    cfg.bruteForceWeight >= 0 && cfg.passwordSprayWeight >= 0 && cfg.enumerationWeight >= 0 &&
    cfg.maxAttemptsWeight >= 0 && cfg.repeatOffenderWeight >= 0
  }

  // ---------------------------------------------------------------- sums

  function SumBy<T>(items: seq<T>, points: T -> int): int {
    if items == [] then 0
    else SumBy(items[..|items| - 1], points) + points(items[|items| - 1])
  }

  lemma {:induction false} SumByConcat<T>(a: seq<T>, b: seq<T>, points: T -> int)
    ensures SumBy(a + b, points) == SumBy(a, points) + SumBy(b, points)
  {
    if b == [] {
      assert a + b == a;
    } else {
      SumByConcat(a, b[..|b| - 1], points);
      assert (a + b)[..|a + b| - 1] == a + b[..|b| - 1];
    }
  }

  lemma {:induction false} SumByOne<T>(item: T, points: T -> int)
    ensures SumBy([item], points) == points(item)
  {
  }

  lemma {:induction false} SumByInsert<T>(items: seq<T>, i: nat, item: T, points: T -> int)
    requires i <= |items|
    ensures SumBy(items[..i] + [item] + items[i..], points) == SumBy(items, points) + points(item)
  {
    SumByConcat(items[..i] + [item], items[i..], points);
    SumByConcat(items[..i], [item], points);
    SumByOne(item, points);
    SumByConcat(items[..i], items[i..], points);
    assert items[..i] + items[i..] == items;
  }

  /** Taking one item out. */
  lemma {:induction false} SumByPick<T>(items: seq<T>, i: nat, points: T -> int)
    requires i < |items|
    ensures var rest := items[..i] + items[i + 1..];
      && multiset(rest) == multiset(items) - multiset{items[i]}
      && SumBy(items, points) == SumBy(rest, points) + points(items[i])
  {
    var rest := items[..i] + items[i + 1..];
    assert rest[..i] == items[..i] && rest[i..] == items[i + 1..];
    assert items == items[..i] + [items[i]] + items[i + 1..];
    SumByInsert(rest, i, items[i], points);
  }

  lemma {:induction false} SumByPermutation<T>(a: seq<T>, b: seq<T>, points: T -> int)
    requires multiset(a) == multiset(b)
    ensures SumBy(a, points) == SumBy(b, points)
    decreases |a|
  {
    if a == [] {
      assert |multiset(b)| == |b|;
    } else {
      var before, x := a[..|a| - 1], a[|a| - 1];
      assert a == before + [x];
      assert multiset(before) == multiset(a) - multiset{x};
      assert x in multiset(b);
      var i :| 0 <= i < |b| && b[i] == x;
      SumByPick(b, i, points);
      SumByPermutation(before, b[..i] + b[i + 1..], points);
    }
  }

  // ---------------------------------------------------------------- points per signal

  function DetectorWeight(cfg: ScoringConfig, d: DetectorName): Option<int> {
    match d
    case BruteForce => Some(cfg.bruteForceWeight)
    case PasswordSpray => Some(cfg.passwordSprayWeight)
    case UsernameEnumeration => Some(cfg.enumerationWeight)
    case BurstVelocity => Some(cfg.burstVelocityWeight)
    case Custom(_) => None
  }

  function DetectionPoints(cfg: ScoringConfig): DetectionResult -> int {
    (d: DetectionResult) =>
      if d.detected && DetectorWeight(cfg, d.detector).Some? then DetectorWeight(cfg, d.detector).value else 0
  }

  /** 15 to 30 points, in proportion to the confidence. */
  function IocPoints(): Ioc -> int {
    (ioc: Ioc) =>
      var scaled := ioc.confidence * 30 / 100;
      if scaled > 30 then 30 else if scaled < 15 then 15 else scaled
  }

  function FactorDelta(): ScoreFactor -> int { (f: ScoreFactor) => f.delta }

  function FailuresAfter(e: SecurityEvent, existing: Option<Profile>): nat {
    (if existing.Some? then existing.value.authFailures else 0) + if IsFailure(e) then 1 else 0
  }

  function FailurePoints(cfg: ScoringConfig, failures: nat): int {
    if failures == 0 then 0
    else if failures * cfg.failedAuthWeight < 30 then failures * cfg.failedAuthWeight else 30
  }

  predicate RepeatOffender(existing: Option<Profile>) {
    existing.Some? && existing.value.authFailures >= 15
  }

  function EventPoints(cfg: ScoringConfig, e: SecurityEvent, existing: Option<Profile>): int {
    FailurePoints(cfg, FailuresAfter(e, existing))
    + (if TargetsInvalidUser(e) then cfg.invalidUserWeight else 0)
    + (if e.maxAttemptsExceeded then cfg.maxAttemptsWeight else 0)
  }

  /** Points that need neither a detection nor an indicator. */
  function BasePoints(cfg: ScoringConfig, e: SecurityEvent, existing: Option<Profile>): int {
    EventPoints(cfg, e, existing)
    + (if RepeatOffender(existing) then cfg.repeatOffenderWeight else 0)
    + (if e.eventType == AuthSuccess then cfg.successAuthWeight else 0)
  }

  function RawScore(cfg: ScoringConfig, e: SecurityEvent, existing: Option<Profile>,
                    detections: seq<DetectionResult>, iocs: seq<Ioc>): int {
    BasePoints(cfg, e, existing) + SumBy(detections, DetectionPoints(cfg)) + SumBy(iocs, IocPoints())
  }

  // ---------------------------------------------------------------- factors, in the listed order

  function When(condition: bool, name: FactorName, delta: int): seq<ScoreFactor> {
    if condition then [ScoreFactor(name, delta)] else []
  }

  function DetectionFactors(cfg: ScoringConfig, detections: seq<DetectionResult>): seq<ScoreFactor> {
    if detections == [] then []
    else
      var d := detections[|detections| - 1];
      DetectionFactors(cfg, detections[..|detections| - 1]) +
      When(d.detected && DetectorWeight(cfg, d.detector).Some?, DetectorFactor(d.detector), DetectionPoints(cfg)(d))
  }

  function IocFactors(iocs: seq<Ioc>): seq<ScoreFactor> {
    if iocs == [] then []
    else
      var ioc := iocs[|iocs| - 1];
      IocFactors(iocs[..|iocs| - 1]) + [ScoreFactor(IocFactor(ioc.iocId), IocPoints()(ioc))]
  }

  /** The factors known before any detection is looked at. */
  function EventFactors(cfg: ScoringConfig, e: SecurityEvent, existing: Option<Profile>): seq<ScoreFactor> {
    var failures := FailuresAfter(e, existing);
    When(failures > 0, FailureFactor, FailurePoints(cfg, failures))
    + When(TargetsInvalidUser(e), InvalidUserFactor, cfg.invalidUserWeight)
    + When(e.maxAttemptsExceeded, MaxAttemptsFactor, cfg.maxAttemptsWeight)
  }

  function Factors(cfg: ScoringConfig, e: SecurityEvent, existing: Option<Profile>,
                   detections: seq<DetectionResult>, iocs: seq<Ioc>): seq<ScoreFactor> {
    EventFactors(cfg, e, existing)
    + DetectionFactors(cfg, detections)
    + When(RepeatOffender(existing), RepeatOffenderFactor, cfg.repeatOffenderWeight)
    + IocFactors(iocs)
    + When(e.eventType == AuthSuccess, AuthSuccessFactor, cfg.successAuthWeight)
  }

  // ---------------------------------------------------------------- the assessed profile

  function StateOf(score: Percent, users: nat, failures: nat): ActorState {
    match SeverityOf(score)
    case Critical => ActiveThreat
    case High => ActiveThreat
    case Medium => if users > 1 then Probing else Suspicious
    case Low => if failures > 0 then Probing else Neutral
  }

  function Advice(cfg: ScoringConfig, score: Percent, existing: Option<Profile>, failures: nat): Action {
    if score >= cfg.criticalThreshold then
      if existing.Some? && existing.value.authFailures >= 30 then PermanentBan else TemporaryIsolation
    else if score >= cfg.highThreshold then TemporaryIsolation
    else if score >= cfg.mediumThreshold then RateLimit
    else if failures > 0 then Monitor
    else NoAction
  }

  function AssessTrusted(cfg: ScoringConfig, e: SecurityEvent, existing: Option<Profile>): Profile {
    var successes := if existing.Some? && e.eventType == AuthSuccess then existing.value.authSuccesses + 1 else 1;
    Profile(e.sourceIp,
            if existing.Some? then existing.value.firstSeen else e.timestamp,
            e.timestamp,
            if existing.Some? then existing.value.totalEvents + 1 else 1,
            if existing.Some? then existing.value.authFailures else 0,
            successes,
            if existing.Some? then existing.value.usernames else {},
            if existing.Some? then existing.value.services else {e.service},
            0, Low, Trusted,
            [ScoreFactor(TrustedSource, cfg.trustedIpDiscount)],
            NoAction)
  }

  function Assess(cfg: ScoringConfig, e: SecurityEvent, existing: Option<Profile>,
                  detections: seq<DetectionResult>, iocs: seq<Ioc>): Profile {
    if e.sourceIp in cfg.trustedIps then AssessTrusted(cfg, e, existing)
    else
      var failures := FailuresAfter(e, existing);
      var users := (if existing.Some? then existing.value.usernames else {})
                   + if e.username != "" then {e.username} else {};
      var score := Clamp(RawScore(cfg, e, existing, detections, iocs));
      Profile(e.sourceIp,
              if existing.Some? then existing.value.firstSeen else e.timestamp,
              e.timestamp,
              if existing.Some? then existing.value.totalEvents + 1 else 1,
              failures,
              (if existing.Some? then existing.value.authSuccesses else 0) +
              (if e.eventType == AuthSuccess then 1 else 0),
              users,
              (if existing.Some? then existing.value.services else {}) + {e.service},
              score, SeverityOf(score), StateOf(score, |users|, failures),
              Factors(cfg, e, existing, detections, iocs),
              Advice(cfg, score, existing, failures))
  }

  // ---------------------------------------------------------------- the score is explained by its factors

  lemma {:induction false} WhenSums(condition: bool, name: FactorName, delta: int)
    ensures SumBy(When(condition, name, delta), FactorDelta()) == if condition then delta else 0
  {
  }

  lemma {:induction false} DetectionFactorsSum(cfg: ScoringConfig, detections: seq<DetectionResult>)
    ensures SumBy(DetectionFactors(cfg, detections), FactorDelta()) == SumBy(detections, DetectionPoints(cfg))
  {
    if detections != [] {
      var before, d := detections[..|detections| - 1], detections[|detections| - 1];
      DetectionFactorsSum(cfg, before);
      var listed := d.detected && DetectorWeight(cfg, d.detector).Some?;
      WhenSums(listed, DetectorFactor(d.detector), DetectionPoints(cfg)(d));
      SumByConcat(DetectionFactors(cfg, before),
                  When(listed, DetectorFactor(d.detector), DetectionPoints(cfg)(d)), FactorDelta());
    }
  }

  lemma {:induction false} IocFactorsSum(iocs: seq<Ioc>)
    ensures SumBy(IocFactors(iocs), FactorDelta()) == SumBy(iocs, IocPoints())
  {
    if iocs != [] {
      var before, ioc := iocs[..|iocs| - 1], iocs[|iocs| - 1];
      IocFactorsSum(before);
      var factor := ScoreFactor(IocFactor(ioc.iocId), IocPoints()(ioc));
      SumByOne(factor, FactorDelta());
      SumByConcat(IocFactors(before), [factor], FactorDelta());
    }
  }

  lemma {:induction false} EventFactorsSum(cfg: ScoringConfig, e: SecurityEvent, existing: Option<Profile>)
    ensures SumBy(EventFactors(cfg, e, existing), FactorDelta()) ==
            EventPoints(cfg, e, existing)
  {
    var failures := FailuresAfter(e, existing);
    var a := When(failures > 0, FailureFactor, FailurePoints(cfg, failures));
    var b := When(TargetsInvalidUser(e), InvalidUserFactor, cfg.invalidUserWeight);
    var c := When(e.maxAttemptsExceeded, MaxAttemptsFactor, cfg.maxAttemptsWeight);
    WhenSums(failures > 0, FailureFactor, FailurePoints(cfg, failures));
    WhenSums(TargetsInvalidUser(e), InvalidUserFactor, cfg.invalidUserWeight);
    WhenSums(e.maxAttemptsExceeded, MaxAttemptsFactor, cfg.maxAttemptsWeight);
    SumByConcat(a + b, c, FactorDelta());
    SumByConcat(a, b, FactorDelta());
  }

  lemma {:induction false} FactorsSum(cfg: ScoringConfig, e: SecurityEvent, existing: Option<Profile>,
                   detections: seq<DetectionResult>, iocs: seq<Ioc>)
    ensures SumBy(Factors(cfg, e, existing, detections, iocs), FactorDelta()) ==
            RawScore(cfg, e, existing, detections, iocs)
  {
    var a, b := EventFactors(cfg, e, existing), DetectionFactors(cfg, detections);
    var c := When(RepeatOffender(existing), RepeatOffenderFactor, cfg.repeatOffenderWeight);
    var d := IocFactors(iocs);
    var f := When(e.eventType == AuthSuccess, AuthSuccessFactor, cfg.successAuthWeight);
    EventFactorsSum(cfg, e, existing);
    DetectionFactorsSum(cfg, detections);
    IocFactorsSum(iocs);
    WhenSums(RepeatOffender(existing), RepeatOffenderFactor, cfg.repeatOffenderWeight);
    WhenSums(e.eventType == AuthSuccess, AuthSuccessFactor, cfg.successAuthWeight);
    SumByConcat(a + b + c + d, f, FactorDelta());
    SumByConcat(a + b + c, d, FactorDelta());
    SumByConcat(a + b, c, FactorDelta());
    SumByConcat(a, b, FactorDelta());
  }

  /** The score is the clamped sum of the listed deltas, for every input, unless the
      source is trusted and its discount is configured positive. */
  lemma {:induction false} ScoreIsExplained(cfg: ScoringConfig, e: SecurityEvent, existing: Option<Profile>,
                         detections: seq<DetectionResult>, iocs: seq<Ioc>)
    ensures var p := Assess(cfg, e, existing, detections, iocs);
      p.threatScore == Clamp(SumBy(p.factors, FactorDelta()))
      <==> !(e.sourceIp in cfg.trustedIps && cfg.trustedIpDiscount > 0)
  {
    if e.sourceIp in cfg.trustedIps {
      SumByOne(ScoreFactor(TrustedSource, cfg.trustedIpDiscount), FactorDelta());
    } else {
      FactorsSum(cfg, e, existing, detections, iocs);
    }
  }

  // ---------------------------------------------------------------- order and monotonicity

  /** Whether a detection, or an indicator, is listed as the given factor. */
  function DetectionListedAs(cfg: ScoringConfig, f: ScoreFactor): DetectionResult -> int {
    (d: DetectionResult) =>
      if d.detected && DetectorWeight(cfg, d.detector).Some? &&
         f == ScoreFactor(DetectorFactor(d.detector), DetectionPoints(cfg)(d)) then 1 else 0
  }

  function IocListedAs(f: ScoreFactor): Ioc -> int {
    (ioc: Ioc) => if f == ScoreFactor(IocFactor(ioc.iocId), IocPoints()(ioc)) then 1 else 0
  }

  lemma {:induction false} DetectionFactorCount(cfg: ScoringConfig, detections: seq<DetectionResult>, f: ScoreFactor)
    ensures multiset(DetectionFactors(cfg, detections))[f] == SumBy(detections, DetectionListedAs(cfg, f))
  {
    if detections != [] { DetectionFactorCount(cfg, detections[..|detections| - 1], f); }
  }

  lemma {:induction false} IocFactorCount(iocs: seq<Ioc>, f: ScoreFactor)
    ensures multiset(IocFactors(iocs))[f] == SumBy(iocs, IocListedAs(f))
  {
    if iocs != [] { IocFactorCount(iocs[..|iocs| - 1], f); }
  }

  /** The same evidence in another order is listed as the same factors. */
  lemma {:induction false} SameFactors(cfg: ScoringConfig, detections: seq<DetectionResult>, iocs: seq<Ioc>,
                       detections': seq<DetectionResult>, iocs': seq<Ioc>)
    requires multiset(detections) == multiset(detections') && multiset(iocs) == multiset(iocs')
    ensures multiset(DetectionFactors(cfg, detections)) == multiset(DetectionFactors(cfg, detections'))
    ensures multiset(IocFactors(iocs)) == multiset(IocFactors(iocs'))
  {
    forall f
      ensures multiset(DetectionFactors(cfg, detections))[f] == multiset(DetectionFactors(cfg, detections'))[f]
      ensures multiset(IocFactors(iocs))[f] == multiset(IocFactors(iocs'))[f]
    {
      DetectionFactorCount(cfg, detections, f);
      DetectionFactorCount(cfg, detections', f);
      SumByPermutation(detections, detections', DetectionListedAs(cfg, f));
      IocFactorCount(iocs, f);
      IocFactorCount(iocs', f);
      SumByPermutation(iocs, iocs', IocListedAs(f));
    }
  }

  /** The same evidence in another order is worth the same. */
  lemma {:induction false} SameScore(cfg: ScoringConfig, e: SecurityEvent, existing: Option<Profile>,
                                     detections: seq<DetectionResult>, iocs: seq<Ioc>,
                                     detections': seq<DetectionResult>, iocs': seq<Ioc>)
    requires multiset(detections) == multiset(detections') && multiset(iocs) == multiset(iocs')
    ensures RawScore(cfg, e, existing, detections, iocs) == RawScore(cfg, e, existing, detections', iocs')
  {
    SumByPermutation(detections, detections', DetectionPoints(cfg));
    SumByPermutation(iocs, iocs', IocPoints());
  }

  lemma {:induction false} SameFactorList(cfg: ScoringConfig, e: SecurityEvent, existing: Option<Profile>,
                                          detections: seq<DetectionResult>, iocs: seq<Ioc>,
                                          detections': seq<DetectionResult>, iocs': seq<Ioc>)
    requires multiset(detections) == multiset(detections') && multiset(iocs) == multiset(iocs')
    ensures multiset(Factors(cfg, e, existing, detections, iocs)) ==
            multiset(Factors(cfg, e, existing, detections', iocs'))
  {
    SameFactors(cfg, detections, iocs, detections', iocs');
  }

  /** Nothing about a profile but the order of its factor list depends on the
      order in which detections and indicators are presented. */
  lemma {:induction false} OrderIrrelevant(cfg: ScoringConfig, e: SecurityEvent, existing: Option<Profile>,
                                           detections: seq<DetectionResult>, iocs: seq<Ioc>,
                                           detections': seq<DetectionResult>, iocs': seq<Ioc>)
    requires multiset(detections) == multiset(detections') && multiset(iocs) == multiset(iocs')
    ensures var p, p' := Assess(cfg, e, existing, detections, iocs), Assess(cfg, e, existing, detections', iocs');
      p' == p.(factors := p'.factors) && multiset(p'.factors) == multiset(p.factors)
  {
    if e.sourceIp !in cfg.trustedIps {
      SameScore(cfg, e, existing, detections, iocs, detections', iocs');
      SameFactorList(cfg, e, existing, detections, iocs, detections', iocs');
    }
  }

  lemma {:induction false} HigherRawScore(cfg: ScoringConfig, e: SecurityEvent, existing: Option<Profile>,
                       detections: seq<DetectionResult>, iocs: seq<Ioc>,
                       detections': seq<DetectionResult>, iocs': seq<Ioc>)
    requires RawScore(cfg, e, existing, detections, iocs) <= RawScore(cfg, e, existing, detections', iocs')
    ensures var p, p' := Assess(cfg, e, existing, detections, iocs), Assess(cfg, e, existing, detections', iocs');
      p.threatScore <= p'.threatScore && Rank(p.severity) <= Rank(p'.severity)
  {
    if e.sourceIp !in cfg.trustedIps {
      HigherScore(RawScore(cfg, e, existing, detections, iocs), RawScore(cfg, e, existing, detections', iocs'));
    }
  }

  lemma {:induction false} HigherScore(a: int, b: int)
    requires a <= b
    ensures Clamp(a) <= Clamp(b) && Rank(SeverityOf(Clamp(a))) <= Rank(SeverityOf(Clamp(b)))
  {
  }

  /** One more detection, anywhere in the list, never lowers the score or the severity. */
  lemma {:induction false} DetectionNeverLowers(cfg: ScoringConfig, e: SecurityEvent, existing: Option<Profile>,
                             detections: seq<DetectionResult>, iocs: seq<Ioc>, i: nat, d: DetectionResult)
    requires NonNegativeWeights(cfg) && i <= |detections|
    ensures var p, p' := Assess(cfg, e, existing, detections, iocs),
                         Assess(cfg, e, existing, detections[..i] + [d] + detections[i..], iocs);
      p.threatScore <= p'.threatScore && Rank(p.severity) <= Rank(p'.severity)
  {
    SumByInsert(detections, i, d, DetectionPoints(cfg));
    HigherRawScore(cfg, e, existing, detections, iocs, detections[..i] + [d] + detections[i..], iocs);
  }

  /** One more matched indicator, anywhere in the list, never lowers the score or the severity. */
  lemma {:induction false} IocNeverLowers(cfg: ScoringConfig, e: SecurityEvent, existing: Option<Profile>,
                       detections: seq<DetectionResult>, iocs: seq<Ioc>, i: nat, ioc: Ioc)
    requires i <= |iocs|
    ensures var p, p' := Assess(cfg, e, existing, detections, iocs),
                         Assess(cfg, e, existing, detections, iocs[..i] + [ioc] + iocs[i..]);
      p.threatScore <= p'.threatScore && Rank(p.severity) <= Rank(p'.severity)
  {
    SumByInsert(iocs, i, ioc, IocPoints());
    HigherRawScore(cfg, e, existing, detections, iocs, detections, iocs[..i] + [ioc] + iocs[i..]);
  }

  // ---------------------------------------------------------------- scores without evidence

  predicate NoneDetected(detections: seq<DetectionResult>) {
    forall d :: d in detections ==> !d.detected
  }

  lemma {:induction false} UndetectedAddNothing(cfg: ScoringConfig, detections: seq<DetectionResult>)
    requires NoneDetected(detections)
    ensures SumBy(detections, DetectionPoints(cfg)) == 0
  {
    if detections != [] {
      assert detections[|detections| - 1] in detections;
      UndetectedAddNothing(cfg, detections[..|detections| - 1]);
    }
  }

  /** The most an event can score on history and event type alone. */
  function EvidenceFreeCeiling(cfg: ScoringConfig): int {
    30 + cfg.invalidUserWeight + cfg.maxAttemptsWeight + cfg.repeatOffenderWeight
  }

  lemma {:induction false} EvidenceFreeBound(cfg: ScoringConfig, e: SecurityEvent, existing: Option<Profile>,
                          detections: seq<DetectionResult>)
    requires NonNegativeWeights(cfg) && cfg.successAuthWeight <= 0 && NoneDetected(detections)
    ensures Assess(cfg, e, existing, detections, []).threatScore <= Clamp(EvidenceFreeCeiling(cfg))
  {
    UndetectedAddNothing(cfg, detections);
  }

  /** An event and a history that reach the ceiling. */
  function WorstEvent(ip: Ip): SecurityEvent {
    SecurityEvent(0, ip, Ssh, InvalidUser, "", true, true)
  }

  function WorstHistory(ip: Ip): Profile {
    Profile(ip, 0, 0, 30, 30, 0, {}, {}, 0, Low, Neutral, [], NoAction)
  }

  lemma {:induction false} EvidenceFreeCeilingReached(cfg: ScoringConfig, ip: Ip)
    requires cfg.failedAuthWeight > 0 && ip !in cfg.trustedIps
    ensures Assess(cfg, WorstEvent(ip), Some(WorstHistory(ip)), [], []).threatScore ==
            Clamp(EvidenceFreeCeiling(cfg))
  {
  }
}
