/** Vocabulary shared by the sources, the signer, the cache and the responder. */
module Types {

  /** Nanoseconds since Go's zero time, so `time.Time.IsZero()` is `t == ZERO_TIME`. */
  type Time = int

  /** A Go `time.Duration` in nanoseconds. */
  type Duration = int

  /**
   What `time.Now()` returns. `Before` compares the monotonic readings if both its operands carry one and the
   wall times otherwise; `Add` moves both, and `Truncate` and parsed times have only the wall time. The
   monotonic clock never runs backwards; the wall clock may be stepped either way.
   */
  datatype Reading = Reading(wall: Time, mono: Time)

  function Plus(r: Reading, d: Duration): Reading { Reading(r.wall + d, r.mono + d) }

  /** By how much the wall clock has gained on the monotonic one between two readings. */
  function Gain(from: Reading, to: Reading): Duration { (to.wall - from.wall) - (to.mono - from.mono) }

  const ZERO_TIME: Time := 0
  const SECOND: Duration := 1_000_000_000
  const MINUTE: Duration := 60_000_000_000

  datatype Option<+T> = None | Some(value: T)

  datatype Result<+T> = Ok(value: T) | Err(fault: Fault)

  /** The error returns of the modelled code, by cause. */
  datatype Fault =
    | Cancelled
    | SourceUnhealthy
    | IssuerMissing
    | IssuerMismatch
    | ReadFailed
    | InvalidCrl
    | CrlIssuerMismatch
    | CrlSignature
    | BaseUrlMissing
    | RootCertsInvalid
    | UpstreamPermanent
    | AttemptsExhausted
    | MalformedRequest
    | UnsupportedStatus
    | SigningFailed

  /** `source.Status` is an int in Go; every value other than the three constants is `Other`. */
  datatype Status = Good | Revoked | Unknown | Other(code: int)

  datatype RevocationInfo = RevocationInfo(revokedAt: Time, reason: int)

  datatype CertStatus = CertStatus(
    status: Status,
    revocation: Option<RevocationInfo>,
    sourceNextUpdate: Time)

  /** Identifies a goroutine serving one request. */
  type Thread = nat
}
