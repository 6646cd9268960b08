/** What a threat profile says, in terms of the event, the stored profile, the evidence
    and the configured weights and thresholds. */
module Scores {
  import opened Domain
  import opened Risk

  // ---------------------------------------------------------------- counting factors

  function Listed(factors: seq<ScoreFactor>, name: FactorName): nat {
    if factors == [] then 0
    else Listed(factors[..|factors| - 1], name) + if factors[|factors| - 1].name == name then 1 else 0
  }

  function Firings(detections: seq<DetectionResult>, d: DetectorName): nat {
    if detections == [] then 0
    else
      var last := detections[|detections| - 1];
      Firings(detections[..|detections| - 1], d) + if last.detected && last.detector == d then 1 else 0
  }

  /** Every factor of that name has that delta. */
  predicate Worth(factors: seq<ScoreFactor>, name: FactorName, delta: int) {
    factors == [] ||
    ((factors[|factors| - 1].name == name ==> factors[|factors| - 1].delta == delta) &&
     Worth(factors[..|factors| - 1], name, delta))
  }

  lemma {:induction false} ListedConcat(a: seq<ScoreFactor>, b: seq<ScoreFactor>, name: FactorName)
    ensures Listed(a + b, name) == Listed(a, name) + Listed(b, name)
  {
    if b == [] {
      assert a + b == a;
    } else {
      assert (a + b)[..|a + b| - 1] == a + b[..|b| - 1];
      ListedConcat(a, b[..|b| - 1], name);
    }
  }

  lemma {:induction false} WorthConcat(a: seq<ScoreFactor>, b: seq<ScoreFactor>, name: FactorName, delta: int)
    ensures Worth(a + b, name, delta) <==> Worth(a, name, delta) && Worth(b, name, delta)
  {
    if b == [] {
      assert a + b == a;
    } else {
      assert (a + b)[..|a + b| - 1] == a + b[..|b| - 1];
      WorthConcat(a, b[..|b| - 1], name, delta);
    }
  }

  lemma {:induction false} NoneIsWorth(factors: seq<ScoreFactor>, name: FactorName, delta: int)
    requires Listed(factors, name) == 0
    ensures Worth(factors, name, delta)
  {
    if factors != [] { NoneIsWorth(factors[..|factors| - 1], name, delta); }
  }

  lemma {:induction false} ListedWhen(condition: bool, other: FactorName, points: int, name: FactorName)
    ensures Listed(When(condition, other, points), name) == if condition && other == name then 1 else 0
    ensures forall delta :: Worth(When(condition, other, points), name, delta) <==>
                            (condition && other == name ==> points == delta)
  {
    if condition { assert When(condition, other, points)[..0] == []; }
  }

  lemma {:induction false} DetectorsListed(cfg: ScoringConfig, detections: seq<DetectionResult>, name: FactorName)
    ensures Listed(DetectionFactors(cfg, detections), name) ==
            if name.DetectorFactor? && DetectorWeight(cfg, name.detector).Some? then
              Firings(detections, name.detector)
            else 0
    ensures name.DetectorFactor? && DetectorWeight(cfg, name.detector).Some? ==>
              Worth(DetectionFactors(cfg, detections), name, DetectorWeight(cfg, name.detector).value)
  {
    if detections != [] {
      var before, last := detections[..|detections| - 1], detections[|detections| - 1];
      DetectorsListed(cfg, before, name);
      var listed, points := last.detected && DetectorWeight(cfg, last.detector).Some?, DetectionPoints(cfg)(last);
      var more := When(listed, DetectorFactor(last.detector), points);
      ListedConcat(DetectionFactors(cfg, before), more, name);
      ListedWhen(listed, DetectorFactor(last.detector), points, name);
      if name.DetectorFactor? && DetectorWeight(cfg, name.detector).Some? {
        WorthConcat(DetectionFactors(cfg, before), more, name, DetectorWeight(cfg, name.detector).value);
      }
    }
  }

  lemma {:induction false} IocsListed(iocs: seq<Ioc>, name: FactorName)
    ensures !name.IocFactor? ==> Listed(IocFactors(iocs), name) == 0
    ensures |IocFactors(iocs)| == |iocs|
    ensures forall i :: 0 <= i < |iocs| ==>
              var c := iocs[i].confidence;
              IocFactors(iocs)[i] == ScoreFactor(IocFactor(iocs[i].iocId), if c < 50 then 15 else c * 30 / 100)
  {
    if iocs != [] {
      var before, ioc := iocs[..|iocs| - 1], iocs[|iocs| - 1];
      IocsListed(before, name);
      ListedConcat(IocFactors(before), [ScoreFactor(IocFactor(ioc.iocId), IocPoints()(ioc))], name);
      ListedWhen(true, IocFactor(ioc.iocId), IocPoints()(ioc), name);
    }
  }

  // ---------------------------------------------------------------- the listed factors

  /** The parts a factor list is made of. */
  lemma {:induction false} FactorsOf(cfg: ScoringConfig, e: SecurityEvent, existing: Option<Profile>,
                                     detections: seq<DetectionResult>, iocs: seq<Ioc>, name: FactorName, delta: int)
    ensures var a, b := EventFactors(cfg, e, existing), DetectionFactors(cfg, detections);
      var c := When(RepeatOffender(existing), RepeatOffenderFactor, cfg.repeatOffenderWeight);
      var d, f := IocFactors(iocs), When(e.eventType == AuthSuccess, AuthSuccessFactor, cfg.successAuthWeight);
      var all := Factors(cfg, e, existing, detections, iocs);
      && Listed(all, name) == Listed(a, name) + Listed(b, name) + Listed(c, name) + Listed(d, name) + Listed(f, name)
      && (Worth(all, name, delta) <==> Worth(a, name, delta) && Worth(b, name, delta) && Worth(c, name, delta) &&
                                       Worth(d, name, delta) && Worth(f, name, delta))
  {
    var a, b := EventFactors(cfg, e, existing), DetectionFactors(cfg, detections);
    var c := When(RepeatOffender(existing), RepeatOffenderFactor, cfg.repeatOffenderWeight);
    var d, f := IocFactors(iocs), When(e.eventType == AuthSuccess, AuthSuccessFactor, cfg.successAuthWeight);
    ListedConcat(a, b, name);
    ListedConcat(a + b, c, name);
    ListedConcat(a + b + c, d, name);
    ListedConcat(a + b + c + d, f, name);
    WorthConcat(a, b, name, delta);
    WorthConcat(a + b, c, name, delta);
    WorthConcat(a + b + c, d, name, delta);
    WorthConcat(a + b + c + d, f, name, delta);
  }

  lemma {:induction false} EventFactorsListed(cfg: ScoringConfig, e: SecurityEvent, existing: Option<Profile>,
                                              name: FactorName, delta: int)
    ensures Listed(EventFactors(cfg, e, existing), name) ==
            match name
            case FailureFactor => if FailuresAfter(e, existing) > 0 then 1 else 0
            case InvalidUserFactor => if TargetsInvalidUser(e) then 1 else 0
            case MaxAttemptsFactor => if e.maxAttemptsExceeded then 1 else 0
            case _ => 0
    ensures delta == (match name
                      case FailureFactor => FailurePoints(cfg, FailuresAfter(e, existing))
                      case InvalidUserFactor => cfg.invalidUserWeight
                      case MaxAttemptsFactor => cfg.maxAttemptsWeight
                      case _ => delta) ==>
              Worth(EventFactors(cfg, e, existing), name, delta)
  {
    var failures := FailuresAfter(e, existing);
    ThreeParts(When(failures > 0, FailureFactor, FailurePoints(cfg, failures)),
               When(TargetsInvalidUser(e), InvalidUserFactor, cfg.invalidUserWeight),
               When(e.maxAttemptsExceeded, MaxAttemptsFactor, cfg.maxAttemptsWeight), name, delta);
    ListedWhen(failures > 0, FailureFactor, FailurePoints(cfg, failures), name);
    ListedWhen(TargetsInvalidUser(e), InvalidUserFactor, cfg.invalidUserWeight, name);
    ListedWhen(e.maxAttemptsExceeded, MaxAttemptsFactor, cfg.maxAttemptsWeight, name);
  }

  lemma {:induction false} ThreeParts(a: seq<ScoreFactor>, b: seq<ScoreFactor>, c: seq<ScoreFactor>, name: FactorName,
                                      delta: int)
    ensures Listed(a + b + c, name) == Listed(a, name) + Listed(b, name) + Listed(c, name)
    ensures Worth(a + b + c, name, delta) <==> Worth(a, name, delta) && Worth(b, name, delta) && Worth(c, name, delta)
  {
    ListedConcat(a, b, name);
    ListedConcat(a + b, c, name);
    WorthConcat(a, b, name, delta);
    WorthConcat(a + b, c, name, delta);
  }

  lemma {:induction false} DetectorExplained(cfg: ScoringConfig, e: SecurityEvent, existing: Option<Profile>,
                                             detections: seq<DetectionResult>, iocs: seq<Ioc>, d: DetectorName,
                                               weight: int)
    requires DetectorWeight(cfg, d) == None || DetectorWeight(cfg, d) == Some(weight)
    ensures var factors := Factors(cfg, e, existing, detections, iocs);
      && Listed(factors, DetectorFactor(d)) ==
           (if DetectorWeight(cfg, d).Some? then Firings(detections, d) else 0)
      && Worth(factors, DetectorFactor(d), weight)
  {
    var name := DetectorFactor(d);
    FactorsOf(cfg, e, existing, detections, iocs, name, weight);
    DetectorsListed(cfg, detections, name);
    if DetectorWeight(cfg, d).None? { NoneIsWorth(DetectionFactors(cfg, detections), name, weight); }
    EventFactorsListed(cfg, e, existing, name, weight);
    IocsListed(iocs, name);
    NoneIsWorth(IocFactors(iocs), name, weight);
    ListedWhen(RepeatOffender(existing), RepeatOffenderFactor, cfg.repeatOffenderWeight, name);
    ListedWhen(e.eventType == AuthSuccess, AuthSuccessFactor, cfg.successAuthWeight, name);
  }

  /** Each triggered detection of the four known detectors is listed once, with the weight
      configured for that detector; custom detectors are never listed. */
  ghost predicate WeightsListed(cfg: ScoringConfig, factors: seq<ScoreFactor>, detections: seq<DetectionResult>) {
    && Listed(factors, DetectorFactor(BruteForce)) == Firings(detections, BruteForce)
    && Worth(factors, DetectorFactor(BruteForce), cfg.bruteForceWeight)
    && Listed(factors, DetectorFactor(PasswordSpray)) == Firings(detections, PasswordSpray)
    && Worth(factors, DetectorFactor(PasswordSpray), cfg.passwordSprayWeight)
    && Listed(factors, DetectorFactor(UsernameEnumeration)) == Firings(detections, UsernameEnumeration)
    && Worth(factors, DetectorFactor(UsernameEnumeration), cfg.enumerationWeight)
    && Listed(factors, DetectorFactor(BurstVelocity)) == Firings(detections, BurstVelocity)
    && Worth(factors, DetectorFactor(BurstVelocity), cfg.burstVelocityWeight)
    && forall custom :: Listed(factors, DetectorFactor(Custom(custom))) == 0
  }

  /** An untrusted source's profile lists its detections by their configured weights. */
  lemma {:induction false} DetectionsExplained(cfg: ScoringConfig, e: SecurityEvent, existing: Option<Profile>,
                                               detections: seq<DetectionResult>, iocs: seq<Ioc>)
    requires e.sourceIp !in cfg.trustedIps
    ensures WeightsListed(cfg, Assess(cfg, e, existing, detections, iocs).factors, detections)
  {
    var factors := Factors(cfg, e, existing, detections, iocs);
    DetectorExplained(cfg, e, existing, detections, iocs, BruteForce, cfg.bruteForceWeight);
    DetectorExplained(cfg, e, existing, detections, iocs, PasswordSpray, cfg.passwordSprayWeight);
    DetectorExplained(cfg, e, existing, detections, iocs, UsernameEnumeration, cfg.enumerationWeight);
    DetectorExplained(cfg, e, existing, detections, iocs, BurstVelocity, cfg.burstVelocityWeight);
    forall custom ensures Listed(factors, DetectorFactor(Custom(custom))) == 0 {
      DetectorExplained(cfg, e, existing, detections, iocs, Custom(custom), 0);
    }
  }

  lemma {:induction false} DetectionsWeighted(cfg: ScoringConfig, detections: seq<DetectionResult>)
    ensures WeightsListed(cfg, DetectionFactors(cfg, detections), detections)
  {
    forall d: DetectorName ensures Listed(DetectionFactors(cfg, detections), DetectorFactor(d)) ==
                                   if d.Custom? then 0 else Firings(detections, d)
    {
      DetectorsListed(cfg, detections, DetectorFactor(d));
    }
    DetectorsListed(cfg, detections, DetectorFactor(BruteForce));
    DetectorsListed(cfg, detections, DetectorFactor(PasswordSpray));
    DetectorsListed(cfg, detections, DetectorFactor(UsernameEnumeration));
    DetectorsListed(cfg, detections, DetectorFactor(BurstVelocity));
  }

  lemma {:induction false} SignalListed(cfg: ScoringConfig, e: SecurityEvent, existing: Option<Profile>,
                                        detections: seq<DetectionResult>, iocs: seq<Ioc>, name: FactorName, delta: int)
    requires !name.DetectorFactor? && !name.IocFactor?
    ensures var repeated, succeeded := RepeatOffender(existing), e.eventType == AuthSuccess;
      var factors := Factors(cfg, e, existing, detections, iocs);
      && Listed(factors, name) ==
           Listed(EventFactors(cfg, e, existing), name)
           + (if repeated && name == RepeatOffenderFactor then 1 else 0)
           + (if succeeded && name == AuthSuccessFactor then 1 else 0)
      && (Worth(factors, name, delta) <==>
            && Worth(EventFactors(cfg, e, existing), name, delta)
            && (repeated && name == RepeatOffenderFactor ==> cfg.repeatOffenderWeight == delta)
            && (succeeded && name == AuthSuccessFactor ==> cfg.successAuthWeight == delta))
  {
    FactorsOf(cfg, e, existing, detections, iocs, name, delta);
    DetectorsListed(cfg, detections, name);
    NoneIsWorth(DetectionFactors(cfg, detections), name, delta);
    IocsListed(iocs, name);
    NoneIsWorth(IocFactors(iocs), name, delta);
    ListedWhen(RepeatOffender(existing), RepeatOffenderFactor, cfg.repeatOffenderWeight, name);
    ListedWhen(e.eventType == AuthSuccess, AuthSuccessFactor, cfg.successAuthWeight, name);
  }

  lemma {:induction false} SignalExplained(cfg: ScoringConfig, e: SecurityEvent, existing: Option<Profile>,
                                           detections: seq<DetectionResult>, iocs: seq<Ioc>, name: FactorName,
                                             delta: int)
    requires !name.DetectorFactor? && !name.IocFactor?
    ensures Listed(Factors(cfg, e, existing, detections, iocs), name) ==
            match name
            case FailureFactor => if FailuresAfter(e, existing) > 0 then 1 else 0
            case InvalidUserFactor => if TargetsInvalidUser(e) then 1 else 0
            case MaxAttemptsFactor => if e.maxAttemptsExceeded then 1 else 0
            case RepeatOffenderFactor => if RepeatOffender(existing) then 1 else 0
            case AuthSuccessFactor => if e.eventType == AuthSuccess then 1 else 0
            case _ => 0
    ensures delta == (match name
                      case FailureFactor => FailurePoints(cfg, FailuresAfter(e, existing))
                      case InvalidUserFactor => cfg.invalidUserWeight
                      case MaxAttemptsFactor => cfg.maxAttemptsWeight
                      case RepeatOffenderFactor => cfg.repeatOffenderWeight
                      case AuthSuccessFactor => cfg.successAuthWeight
                      case _ => delta) ==>
              Worth(Factors(cfg, e, existing, detections, iocs), name, delta)
  {
    SignalListed(cfg, e, existing, detections, iocs, name, delta);
    EventFactorsListed(cfg, e, existing, name, delta);
  }

  /** What else an untrusted source's profile lists: up to thirty points for its failures,
      the event's own signals, fifteen stored failures or more, and a success. */
  lemma {:induction false} SignalsExplained(cfg: ScoringConfig, e: SecurityEvent, existing: Option<Profile>,
                                            detections: seq<DetectionResult>, iocs: seq<Ioc>)
    requires e.sourceIp !in cfg.trustedIps
    ensures var p := Assess(cfg, e, existing, detections, iocs);
      var weighted := p.authFailures * cfg.failedAuthWeight;
      && p.authFailures == (if existing.Some? then existing.value.authFailures else 0) +
                           (if e.eventType == AuthFailure || e.eventType == InvalidUser then 1 else 0)
      && Listed(p.factors, FailureFactor) == (if p.authFailures > 0 then 1 else 0)
      && (p.authFailures > 0 ==> Worth(p.factors, FailureFactor, if weighted < 30 then weighted else 30))
      && Listed(p.factors, InvalidUserFactor) == (if e.eventType == InvalidUser || e.invalidUserFlag then 1 else 0)
      && Worth(p.factors, InvalidUserFactor, cfg.invalidUserWeight)
      && Listed(p.factors, MaxAttemptsFactor) == (if e.maxAttemptsExceeded then 1 else 0)
      && Worth(p.factors, MaxAttemptsFactor, cfg.maxAttemptsWeight)
      && Listed(p.factors, RepeatOffenderFactor) ==
           (if existing.Some? && existing.value.authFailures >= 15 then 1 else 0)
      && Worth(p.factors, RepeatOffenderFactor, cfg.repeatOffenderWeight)
      && Listed(p.factors, AuthSuccessFactor) == (if e.eventType == AuthSuccess then 1 else 0)
      && Worth(p.factors, AuthSuccessFactor, cfg.successAuthWeight)
      && Listed(p.factors, TrustedSource) == 0
  {
    SignalExplained(cfg, e, existing, detections, iocs, FailureFactor, FailurePoints(cfg, FailuresAfter(e, existing)));
    SignalExplained(cfg, e, existing, detections, iocs, InvalidUserFactor, cfg.invalidUserWeight);
    SignalExplained(cfg, e, existing, detections, iocs, MaxAttemptsFactor, cfg.maxAttemptsWeight);
    SignalExplained(cfg, e, existing, detections, iocs, RepeatOffenderFactor, cfg.repeatOffenderWeight);
    SignalExplained(cfg, e, existing, detections, iocs, AuthSuccessFactor, cfg.successAuthWeight);
    SignalExplained(cfg, e, existing, detections, iocs, TrustedSource, 0);
  }

  /** Matched indicators are listed one after the other, each worth 15 to 30 points by its
      confidence. */
  lemma {:induction false} IocsExplained(cfg: ScoringConfig, e: SecurityEvent, existing: Option<Profile>,
                                         detections: seq<DetectionResult>, iocs: seq<Ioc>) returns (k: nat)
    requires e.sourceIp !in cfg.trustedIps
    ensures var factors := Assess(cfg, e, existing, detections, iocs).factors;
      k + |iocs| <= |factors| &&
      forall i :: 0 <= i < |iocs| ==>
        var c := iocs[i].confidence;
        factors[k + i] == ScoreFactor(IocFactor(iocs[i].iocId), if c < 50 then 15 else c * 30 / 100)
  {
    var head := EventFactors(cfg, e, existing) + DetectionFactors(cfg, detections) +
                When(RepeatOffender(existing), RepeatOffenderFactor, cfg.repeatOffenderWeight);
    k := |head|;
    IocsBetween(head, iocs, When(e.eventType == AuthSuccess, AuthSuccessFactor, cfg.successAuthWeight));
  }

  lemma {:induction false} IocsBetween(head: seq<ScoreFactor>, iocs: seq<Ioc>, tail: seq<ScoreFactor>)
    ensures |IocFactors(iocs)| == |iocs|
    ensures forall i :: 0 <= i < |iocs| ==>
              var c := iocs[i].confidence;
              (head + IocFactors(iocs) + tail)[|head| + i] ==
                ScoreFactor(IocFactor(iocs[i].iocId), if c < 50 then 15 else c * 30 / 100)
  {
    IocsListed(iocs, FailureFactor);
    var listed := IocFactors(iocs);
    forall i | 0 <= i < |iocs| ensures (head + listed + tail)[|head| + i] == listed[i] {
      assert (head + listed)[|head| + i] == listed[i];
    }
  }

  // ---------------------------------------------------------------- score, severity, state and advice

  /** One more detection of an untrusted source raises the sum of the listed deltas by the
      weight of its detector if it was triggered, and by nothing if it was not or the
      detector is a custom one. */
  lemma {:induction false} DetectionAdds(cfg: ScoringConfig, e: SecurityEvent, existing: Option<Profile>,
                                         detections: seq<DetectionResult>, iocs: seq<Ioc>, i: nat, d: DetectionResult)
    requires i <= |detections| && e.sourceIp !in cfg.trustedIps
    ensures var p, p' := Assess(cfg, e, existing, detections, iocs),
                         Assess(cfg, e, existing, detections[..i] + [d] + detections[i..], iocs);
      SumBy(p'.factors, FactorDelta()) - SumBy(p.factors, FactorDelta()) ==
      if !d.detected then 0
      else match d.detector
           case BruteForce => cfg.bruteForceWeight
           case PasswordSpray => cfg.passwordSprayWeight
           case UsernameEnumeration => cfg.enumerationWeight
           case BurstVelocity => cfg.burstVelocityWeight
           case Custom(_) => 0
  {
    var more := detections[..i] + [d] + detections[i..];
    FactorsSum(cfg, e, existing, detections, iocs);
    FactorsSum(cfg, e, existing, more, iocs);
    SumByInsert(detections, i, d, DetectionPoints(cfg));
  }

  /** An untrusted source's score is the sum of what is listed, kept between 0 and 100; the
      severity has fixed thresholds; the state and the advice follow from the score, the
      usernames and the failures. A trusted source scores nothing. */
  lemma {:induction false} Verdict(cfg: ScoringConfig, e: SecurityEvent, existing: Option<Profile>,
                                   detections: seq<DetectionResult>, iocs: seq<Ioc>)
    ensures var p := Assess(cfg, e, existing, detections, iocs);
      var sum := SumBy(p.factors, FactorDelta());
      if e.sourceIp in cfg.trustedIps then
        p.threatScore == 0 && p.severity == Low && p.state == Trusted && p.recommended == NoAction &&
        p.factors == [ScoreFactor(TrustedSource, cfg.trustedIpDiscount)]
      else
        && (0 <= sum <= 100 ==> p.threatScore == sum)
        && (sum < 0 ==> p.threatScore == 0) && (sum > 100 ==> p.threatScore == 100)
        && (p.severity == Critical <==> p.threatScore >= 85)
        && (p.severity == High <==> 70 <= p.threatScore < 85)
        && (p.severity == Medium <==> 40 <= p.threatScore < 70)
        && (p.state == ActiveThreat <==> p.threatScore >= 70)
        && (p.state == Suspicious <==> 40 <= p.threatScore < 70 && |p.usernames| <= 1)
        && (p.state == Neutral <==> p.threatScore < 40 && p.authFailures == 0)
        && (p.state == ActiveThreat || p.state == Suspicious || p.state == Neutral || p.state == Probing)
        && (p.recommended == PermanentBan <==>
              p.threatScore >= cfg.criticalThreshold && existing.Some? && existing.value.authFailures >= 30)
        && (p.recommended == TemporaryIsolation || p.recommended == PermanentBan <==>
              p.threatScore >= cfg.criticalThreshold || p.threatScore >= cfg.highThreshold)
        && (p.recommended == RateLimit <==>
              p.threatScore < cfg.criticalThreshold && cfg.mediumThreshold <= p.threatScore < cfg.highThreshold)
        && (p.recommended == NoAction <==>
              p.threatScore < cfg.criticalThreshold && p.threatScore < cfg.highThreshold &&
              p.threatScore < cfg.mediumThreshold && p.authFailures == 0)
  {
    if e.sourceIp !in cfg.trustedIps { FactorsSum(cfg, e, existing, detections, iocs); }
  }

  /** What a profile remembers: the event's time, address and service, and everything the
      stored profile remembered; a trusted source's failures, usernames and services stay. */
  lemma {:induction false} Memory(cfg: ScoringConfig, e: SecurityEvent, existing: Option<Profile>,
                                  detections: seq<DetectionResult>, iocs: seq<Ioc>)
    ensures var p := Assess(cfg, e, existing, detections, iocs);
      && p.sourceIp == e.sourceIp && p.lastSeen == e.timestamp
      && (existing.None? ==> p.firstSeen == e.timestamp && p.totalEvents == 1 && p.services == {e.service})
      && (existing.Some? ==>
            && p.firstSeen == existing.value.firstSeen && p.totalEvents == existing.value.totalEvents + 1
            && existing.value.usernames <= p.usernames && existing.value.services <= p.services)
      && (e.sourceIp !in cfg.trustedIps ==>
            && e.service in p.services
            && p.usernames - (if existing.Some? then existing.value.usernames else {}) <= {e.username} - {""}
            && (e.username != "" ==> e.username in p.usernames)
            && p.services <= (if existing.Some? then existing.value.services else {}) + {e.service})
      && (e.sourceIp in cfg.trustedIps && existing.Some? ==>
            p.authFailures == existing.value.authFailures && p.usernames == existing.value.usernames &&
            p.services == existing.value.services)
  {
  }
}
