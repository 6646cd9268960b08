/** The risk engine object: the code that accumulates counters, factors and score, proved
    against `Risk` and `Scores`. */
module Scorer {
  import opened Domain
  import opened Risk
  import opened Scores

  class RiskEngine {
    const config: ScoringConfig

    constructor (config: ScoringConfig)
      ensures this.config == config
    {
      this.config := config;
    }

    /** Points that depend on the event type and the failure count alone. */
    method ScoreEvent(event: SecurityEvent, authFailures: nat, ghost existing: Option<Profile>)
      returns (factors: seq<ScoreFactor>, rawScore: int)
      requires authFailures == FailuresAfter(event, existing)
      ensures factors == EventFactors(config, event, existing)
      ensures rawScore == EventPoints(config, event, existing)
    {
      factors, rawScore := [], 0;
      if authFailures > 0 {
        var weighted := authFailures * config.failedAuthWeight;
        var points := if weighted < 30 then weighted else 30;
        factors := factors + [ScoreFactor(FailureFactor, points)];
        rawScore := rawScore + points;
      }
      if event.eventType == InvalidUser || event.invalidUserFlag {
        factors := factors + [ScoreFactor(InvalidUserFactor, config.invalidUserWeight)];
        rawScore := rawScore + config.invalidUserWeight;
      }
      if event.maxAttemptsExceeded {
        factors := factors + [ScoreFactor(MaxAttemptsFactor, config.maxAttemptsWeight)];
        rawScore := rawScore + config.maxAttemptsWeight;
      }
    }

    method ScoreDetections(detections: seq<DetectionResult>) returns (factors: seq<ScoreFactor>, rawScore: int)
      ensures factors == DetectionFactors(config, detections)
      ensures rawScore == SumBy(detections, DetectionPoints(config))
      ensures WeightsListed(config, factors, detections)
    {
      factors, rawScore := [], 0;
      for i := 0 to |detections|
        invariant factors == DetectionFactors(config, detections[..i])
        invariant rawScore == SumBy(detections[..i], DetectionPoints(config))
      {
        assert detections[..i + 1][..i] == detections[..i];
        var weight := match detections[i].detector
          case BruteForce => Some(config.bruteForceWeight)
          case PasswordSpray => Some(config.passwordSprayWeight)
          case UsernameEnumeration => Some(config.enumerationWeight)
          case BurstVelocity => Some(config.burstVelocityWeight)
          case Custom(_) => None;
        if detections[i].detected && weight.Some? {
          factors := factors + [ScoreFactor(DetectorFactor(detections[i].detector), weight.value)];
          rawScore := rawScore + weight.value;
        }
      }
      assert detections[..|detections|] == detections;
      DetectionsWeighted(config, detections);
    }

    method ScoreIocs(iocs: seq<Ioc>) returns (factors: seq<ScoreFactor>, rawScore: int)
      ensures factors == IocFactors(iocs)
      ensures rawScore == SumBy(iocs, IocPoints())
    {
      factors, rawScore := [], 0;
      for i := 0 to |iocs|
        invariant factors == IocFactors(iocs[..i])
        invariant rawScore == SumBy(iocs[..i], IocPoints())
      {
        assert iocs[..i + 1][..i] == iocs[..i];
        var delta := IocPoints()(iocs[i]);
        factors := factors + [ScoreFactor(IocFactor(iocs[i].iocId), delta)];
        rawScore := rawScore + delta;
      }
      assert iocs[..|iocs|] == iocs;
    }

    /** The event's own points, then those of the detections. */
    method ScoreSignals(event: SecurityEvent, authFailures: nat, ghost existing: Option<Profile>,
                        detections: seq<DetectionResult>)
      returns (factors: seq<ScoreFactor>, rawScore: int)
      requires authFailures == FailuresAfter(event, existing)
      ensures factors == EventFactors(config, event, existing) + DetectionFactors(config, detections)
      ensures rawScore == EventPoints(config, event, existing) + SumBy(detections, DetectionPoints(config))
    {
      factors, rawScore := ScoreEvent(event, authFailures, existing);
      var more, points := ScoreDetections(detections);
      factors, rawScore := factors + more, rawScore + points;
    }

    /** Accumulates the factor list and the score side by side, as two variables. */
    method Score(event: SecurityEvent, authFailures: nat, existing: Option<Profile>,
                 detections: seq<DetectionResult>, iocs: seq<Ioc>)
      returns (factors: seq<ScoreFactor>, rawScore: int)
      requires authFailures == FailuresAfter(event, existing)
      ensures factors == Factors(config, event, existing, detections, iocs)
      ensures rawScore == RawScore(config, event, existing, detections, iocs)
    {
      factors, rawScore := ScoreSignals(event, authFailures, existing, detections);
      ghost var soFar := factors;
      if RepeatOffender(existing) {
        factors := factors + [ScoreFactor(RepeatOffenderFactor, config.repeatOffenderWeight)];
        rawScore := rawScore + config.repeatOffenderWeight;
      }
      assert factors == soFar + When(RepeatOffender(existing), RepeatOffenderFactor, config.repeatOffenderWeight);
      var more, points := ScoreIocs(iocs);
      factors, rawScore := factors + more, rawScore + points;
      soFar := factors;
      if event.eventType == AuthSuccess {
        factors := factors + [ScoreFactor(AuthSuccessFactor, config.successAuthWeight)];
        rawScore := rawScore + config.successAuthWeight;
      }
      assert factors == soFar + When(event.eventType == AuthSuccess, AuthSuccessFactor, config.successAuthWeight);
    }

    method Evaluate(event: SecurityEvent, detections: seq<DetectionResult>, existing: Option<Profile>, iocs: seq<Ioc>)
      returns (profile: Profile)
      ensures profile == Assess(config, event, existing, detections, iocs)
      ensures event.sourceIp in config.trustedIps ==> profile.threatScore == 0 && profile.recommended == NoAction
      ensures event.sourceIp !in config.trustedIps ==>
                WeightsListed(config, profile.factors, detections) &&
                profile.threatScore == Clamp(SumBy(profile.factors, FactorDelta()))
    {
      if event.sourceIp in config.trustedIps {
        return AssessTrusted(config, event, existing);
      }
      var firstSeen, totalEvents, authFailures, authSuccesses, usernames, services := UpdateCounters(event, existing);
      var factors, rawScore := Score(event, authFailures, existing, detections, iocs);
      var threatScore := Clamp(rawScore);
      profile := Profile(event.sourceIp, firstSeen, event.timestamp, totalEvents, authFailures, authSuccesses,
                         usernames, services, threatScore, SeverityOf(threatScore),
                         StateOf(threatScore, |usernames|, authFailures), factors,
                         Advice(config, threatScore, existing, authFailures));
      DetectionsExplained(config, event, existing, detections, iocs);
      FactorsSum(config, event, existing, detections, iocs);
    }

    /** The cumulative part of a profile. */
    method UpdateCounters(event: SecurityEvent, existing: Option<Profile>)
      returns (firstSeen: int, totalEvents: nat, authFailures: nat, authSuccesses: nat,
               usernames: set<string>, services: set<Service>)
      ensures firstSeen == if existing.Some? then existing.value.firstSeen else event.timestamp
      ensures totalEvents == (if existing.Some? then existing.value.totalEvents else 0) + 1
      ensures authFailures == FailuresAfter(event, existing)
      ensures authSuccesses ==
              (if existing.Some? then existing.value.authSuccesses else 0) +
              (if event.eventType == AuthSuccess then 1 else 0)
      ensures usernames == (if existing.Some? then existing.value.usernames else {})
                           + if event.username != "" then {event.username} else {}
      ensures services == (if existing.Some? then existing.value.services else {}) + {event.service}
    {
      firstSeen, totalEvents, authFailures, authSuccesses := event.timestamp, 1, 0, 0;
      usernames, services := {}, {};
      if existing.Some? {
        firstSeen, totalEvents := existing.value.firstSeen, existing.value.totalEvents + 1;
        authFailures, authSuccesses := existing.value.authFailures, existing.value.authSuccesses;
        usernames, services := existing.value.usernames, existing.value.services;
      }
      services := services + {event.service};
      if event.username != "" { usernames := usernames + {event.username}; }
      if IsFailure(event) {
        authFailures := authFailures + 1;
      } else if event.eventType == AuthSuccess {
        authSuccesses := authSuccesses + 1;
      }
    }
  }
}
