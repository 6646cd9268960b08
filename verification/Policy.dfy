/** The response policy: from a threat profile to an enforceable decision. */
module Policy {
  import opened Domain
  import opened Risk

  datatype Mode = DryRun | ManualApproval | Automatic | Disabled

  /** A CIDR block: the addresses of one family that agree with `base` above the
      low `hostBits` bits. */
  datatype Network = Network(family: Family, base: nat, hostBits: nat)

  datatype PolicyConfig = PolicyConfig(
    isolationThreshold: int,
    rateLimitThreshold: int,
    defaultDuration: int,
    repeatOffenderDuration: int,
    maxDuration: int,
    allowlist: seq<Network>)

  /** What configuration validation demands of the policy section. */
  predicate ValidPolicy(cfg: PolicyConfig) {
    0 <= cfg.rateLimitThreshold <= cfg.isolationThreshold <= 100 &&
    0 < cfg.defaultDuration <= cfg.repeatOffenderDuration <= cfg.maxDuration
  }

  const DEFAULT_POLICY := PolicyConfig(85, 60, 900, 3600, 86400, [
    Network(V4, 0x7F00_0000, 24),
    Network(V6, 1, 0),
    Network(V4, 0x0A00_0000, 24),
    Network(V4, 0xAC10_0000, 20),
    Network(V4, 0xC0A8_0000, 16)])

  datatype Decision = Decision(
    sourceIp: Ip,
    action: Action,
    threatScore: int,
    duration: Option<int>,
    isAllowlisted: bool,
    mode: Mode,
    executed: bool)

  function Pow2(n: nat): (p: nat)
    ensures p > 0
  {
    if n == 0 then 1 else 2 * Pow2(n - 1)
  }

  predicate Contains(net: Network, ip: Ip) {
    ip.Address? && ip.family == net.family && ip.value / Pow2(net.hostBits) == net.base / Pow2(net.hostBits)
  }

  predicate Allowlisted(cfg: PolicyConfig, ip: Ip) {
    exists net :: net in cfg.allowlist && Contains(net, ip)
  }

  predicate Isolating(action: Action) {
    action == TemporaryIsolation || action == PermanentBan
  }

  function Decide(cfg: PolicyConfig, p: Profile, mode: Mode): Decision {
    var score := p.threatScore;
    if Allowlisted(cfg, p.sourceIp) then
      Decision(p.sourceIp, NoAction, score, None, true, mode, false)
    else if score >= 100 && p.authFailures >= 30 then
      Decision(p.sourceIp, PermanentBan, score, None, false, mode, false)
    else if score >= cfg.isolationThreshold then
      var wanted := if p.authFailures >= 15 then cfg.repeatOffenderDuration else cfg.defaultDuration;
      Decision(p.sourceIp, TemporaryIsolation, score,
               Some(if wanted < cfg.maxDuration then wanted else cfg.maxDuration), false, mode, false)
    else if score >= cfg.rateLimitThreshold then
      Decision(p.sourceIp, RateLimit, score, Some(cfg.defaultDuration), false, mode, false)
    else if p.authFailures > 0 then
      Decision(p.sourceIp, Monitor, score, None, false, mode, false)
    else
      Decision(p.sourceIp, NoAction, score, None, false, mode, false)
  }

  /** A decision isolates exactly when the address is not allowlisted and the score
      crosses the threshold; timed isolations always last a positive, capped time. */
  lemma {:induction false} IsolationCriterion(cfg: PolicyConfig, p: Profile, mode: Mode)
    requires ValidPolicy(cfg)
    ensures var d := Decide(cfg, p, mode);
      && (Isolating(d.action) <==> !Allowlisted(cfg, p.sourceIp) && p.threatScore >= cfg.isolationThreshold)
      && (d.action == TemporaryIsolation ==> d.duration.Some? && 0 < d.duration.value <= cfg.maxDuration)
      && (d.action == PermanentBan ==> d.duration == None)
  {
  }

  /** The rest of the table: what is decided below the isolation threshold, and that a
      decision is not yet an action. */
  lemma {:induction false} DecisionTable(cfg: PolicyConfig, p: Profile, mode: Mode)
    ensures var d, listed := Decide(cfg, p, mode), Allowlisted(cfg, p.sourceIp);
      var severe := p.threatScore >= 100 && p.authFailures >= 30;
      var isolates := severe || p.threatScore >= cfg.isolationThreshold;
      && d.sourceIp == p.sourceIp && d.threatScore == p.threatScore && d.mode == mode && !d.executed
      && d.isAllowlisted == listed
      && (d.action == PermanentBan <==> !listed && severe)
      && (d.action == TemporaryIsolation <==> !listed && isolates && !severe)
      && (d.action == RateLimit <==> !listed && !isolates && p.threatScore >= cfg.rateLimitThreshold)
      && (d.action == RateLimit ==> d.duration == Some(cfg.defaultDuration))
      && (d.action == Monitor <==>
            !listed && !isolates && p.threatScore < cfg.rateLimitThreshold && p.authFailures > 0)
      && (d.action == NoAction <==>
            listed || (!isolates && p.threatScore < cfg.rateLimitThreshold && p.authFailures == 0))
      && (d.action == Monitor || d.action == NoAction ==> d.duration == None)
  {
  }

  lemma {:induction false} Quotients(value: nat, base: nat, size: nat)
    requires size > 0
    ensures value / size == base / size <==> base / size * size <= value < base / size * size + size
  {
    var q := value / size;
    assert q * size <= value < q * size + size;
    if q < base / size { assert (q + 1) * size <= base / size * size; }
    if q > base / size { assert (base / size + 1) * size <= q * size; }
  }

  /** A network is the range of its family that starts at its base, low bits cleared. */
  lemma {:induction false} ContainsIsRange(net: Network, ip: Ip)
    ensures Contains(net, ip) <==>
            && ip.Address? && ip.family == net.family
            && var size := Pow2(net.hostBits);
               var first := net.base / size * size;
               first <= ip.value < first + size
  {
    if ip.Address? { Quotients(ip.value, net.base, Pow2(net.hostBits)); }
  }

  /** The default allowlist: loopback, the three private IPv4 ranges, and nothing else. */
  lemma {:induction false} DefaultAllowlist(ip: Ip)
    ensures Allowlisted(DEFAULT_POLICY, ip) <==>
            ip.Address? &&
            if ip.family == V6 then ip.value == 1
            else
              || 127 * 16_777_216 <= ip.value < 128 * 16_777_216
              || 10 * 16_777_216 <= ip.value < 11 * 16_777_216
              || 172 * 16_777_216 + 16 * 65_536 <= ip.value < 172 * 16_777_216 + 32 * 65_536
              || 192 * 16_777_216 + 168 * 65_536 <= ip.value < 192 * 16_777_216 + 169 * 65_536
  {
    PowersOfTwo();
    var nets := DEFAULT_POLICY.allowlist;
    ContainsIsRange(nets[0], ip);
    ContainsIsRange(nets[1], ip);
    ContainsIsRange(nets[2], ip);
    ContainsIsRange(nets[3], ip);
    ContainsIsRange(nets[4], ip);
    assert Allowlisted(DEFAULT_POLICY, ip) <==>
           Contains(nets[0], ip) || Contains(nets[1], ip) || Contains(nets[2], ip) || Contains(nets[3], ip) ||
           Contains(nets[4], ip);
  }

  lemma {:induction false} PowersOfTwo()
    ensures Pow2(0) == 1 && Pow2(16) == 65_536 && Pow2(20) == 1_048_576 && Pow2(24) == 16_777_216
  {
    assert Pow2(4) == 16;
    assert Pow2(8) == 256;
    assert Pow2(12) == 4_096;
    assert Pow2(16) == 65_536;
    assert Pow2(20) == 1_048_576;
  }

  /** Enforcement never goes beyond the scorer's advice: whatever is isolated was
      recommended for isolation, as long as the high threshold is not above the policy's. */
  lemma {:induction false} EnforcementWithinAdvice(
    scoring: ScoringConfig, policy: PolicyConfig, mode: Mode, e: SecurityEvent,
    existing: Option<Profile>, detections: seq<DetectionResult>, iocs: seq<Ioc>)
    requires ValidPolicy(policy) && policy.isolationThreshold > 0
    requires scoring.highThreshold <= policy.isolationThreshold
    ensures var p := Assess(scoring, e, existing, detections, iocs);
      Isolating(Decide(policy, p, mode).action) ==> Isolating(p.recommended)
  {
    IsolationCriterion(policy, Assess(scoring, e, existing, detections, iocs), mode);
  }

  // ---------------------------------------------------------------- isolation without evidence

  ghost predicate IsolatesWithoutEvidence(
    scoring: ScoringConfig, policy: PolicyConfig, mode: Mode, e: SecurityEvent,
    existing: Option<Profile>, detections: seq<DetectionResult>)
  {
    NoneDetected(detections) &&
    Isolating(Decide(policy, Assess(scoring, e, existing, detections, []), mode).action)
  }

  /** History and event type alone can isolate an address exactly when the
      evidence-free ceiling reaches the isolation threshold. */
  lemma {:induction false} EvidenceNeeded(scoring: ScoringConfig, policy: PolicyConfig, mode: Mode, ip: Ip)
    requires NonNegativeWeights(scoring) && scoring.failedAuthWeight > 0 && scoring.successAuthWeight <= 0
    requires ValidPolicy(policy) && !Allowlisted(policy, ip) && ip !in scoring.trustedIps
    ensures (exists e: SecurityEvent, existing, detections ::
              e.sourceIp == ip && IsolatesWithoutEvidence(scoring, policy, mode, e, existing, detections))
        <==> Clamp(EvidenceFreeCeiling(scoring)) >= policy.isolationThreshold
  {
    forall e: SecurityEvent, existing, detections
      | e.sourceIp == ip && IsolatesWithoutEvidence(scoring, policy, mode, e, existing, detections)
      ensures Clamp(EvidenceFreeCeiling(scoring)) >= policy.isolationThreshold
    {
      EvidenceFreeBound(scoring, e, existing, detections);
      IsolationCriterion(policy, Assess(scoring, e, existing, detections, []), mode);
    }
    if Clamp(EvidenceFreeCeiling(scoring)) >= policy.isolationThreshold {
      EvidenceFreeCeilingReached(scoring, ip);
      IsolationCriterion(policy, Assess(scoring, WorstEvent(ip), Some(WorstHistory(ip)), [], []), mode);
      assert IsolatesWithoutEvidence(scoring, policy, mode, WorstEvent(ip), Some(WorstHistory(ip)), []);
    }
  }

  /** With the default weights and thresholds no event isolates without evidence:
      it scores at most 75, and isolation starts at 85. */
  lemma {:induction false} DefaultsNeedEvidence(e: SecurityEvent, existing: Option<Profile>,
                                                detections: seq<DetectionResult>, mode: Mode)
    requires NoneDetected(detections)
    ensures var p := Assess(DEFAULT_SCORING, e, existing, detections, []);
      p.threatScore <= 75 && !Isolating(Decide(DEFAULT_POLICY, p, mode).action)
  {
    EvidenceFreeBound(DEFAULT_SCORING, e, existing, detections);
  }
}
