/** The vocabulary shared by every part of the model: addresses, the clock,
    security events, threat profiles, detections and indicators. */
module Domain {

  datatype Option<+T> = None | Some(value: T)

  /** A source address. `HostName` stands for text that is not an IP literal. */
  datatype Ip = Address(family: Family, value: nat) | HostName(text: string)
  datatype Family = V4 | V6

  /** Instants and spans are integers counting microseconds. */
  const SECOND: int := 1_000_000

  datatype EventType = AuthFailure | AuthSuccess | InvalidUser | Connection | Unknown

  datatype Service = Ssh | Http | Ftp | UnknownService

  /** `username` is "" when absent: the code treats None and "" alike. Of the
      metadata only the two entries that some branch reads are kept. */
  datatype SecurityEvent = SecurityEvent(
    timestamp: int,
    sourceIp: Ip,
    service: Service,
    eventType: EventType,
    username: string,
    invalidUserFlag: bool,
    maxAttemptsExceeded: bool)

  predicate IsFailure(e: SecurityEvent) {
    e.eventType == AuthFailure || e.eventType == InvalidUser
  }

  predicate TargetsInvalidUser(e: SecurityEvent) {
    e.eventType == InvalidUser || e.invalidUserFlag
  }

  datatype DetectorName =
    | BruteForce
    | PasswordSpray
    | UsernameEnumeration
    | BurstVelocity
    | Custom(name: string)

  datatype DetectionResult = DetectionResult(
    detected: bool,
    sourceIp: Ip,
    eventCount: nat,
    threshold: int,
    detector: DetectorName)

  /** An active indicator of compromise; its confidence is a percentage. */
  type Percent = p: int | 0 <= p <= 100
  datatype Ioc = Ioc(iocId: string, confidence: Percent)

  datatype Severity = Low | Medium | High | Critical

  function SeverityOf(score: int): Severity {
    if score >= 85 then Critical
    else if score >= 70 then High
    else if score >= 40 then Medium
    else Low
  }

  function Rank(s: Severity): nat {
    match s
    case Low => 0
    case Medium => 1
    case High => 2
    case Critical => 3
  }

  function Clamp(score: int): Percent {
    if score < 0 then 0 else if score > 100 then 100 else score
  }

  datatype ActorState =
    | Trusted | Neutral | Probing | Suspicious | ActiveThreat | Isolated | ExpiredState | Released

  datatype Action = NoAction | Monitor | RateLimit | TemporaryIsolation | PermanentBan

  datatype FactorName =
    | TrustedSource
    | FailureFactor
    | InvalidUserFactor
    | MaxAttemptsFactor
    | DetectorFactor(detector: DetectorName)
    | RepeatOffenderFactor
    | IocFactor(iocId: string)
    | AuthSuccessFactor

  datatype ScoreFactor = ScoreFactor(name: FactorName, delta: int)

  /** One row of the threat actor table. */
  datatype Profile = Profile(
    sourceIp: Ip,
    firstSeen: int,
    lastSeen: int,
    totalEvents: nat,
    authFailures: nat,
    authSuccesses: nat,
    usernames: set<string>,
    services: set<Service>,
    threatScore: Percent,
    severity: Severity,
    state: ActorState,
    factors: seq<ScoreFactor>,
    recommended: Action)
}
