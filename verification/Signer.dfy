/** Response construction: status mapping and the nextUpdate deadline. Signing itself is a record. */
module Signer {
  import opened Types

  /**
   The fields handed to the encoder. GeneralizedTime has whole seconds, so a client reads thisUpdate as
   `TruncateToSecond(thisUpdate)`; nextUpdate is a whole second already.
   */
  datatype Signed = Signed(
    serial: int,
    status: Status,
    thisUpdate: Time,
    nextUpdate: Time,
    revokedAt: Time,
    reason: int)

  /** What `CreateResponse` hands back: the DER, and separately the deadline for the cache. */
  datatype Issued = Issued(der: Signed, nextUpdate: Time)

  /** `Time.Truncate(time.Second)`: down to a multiple of a second since the zero time. */
  function TruncateToSecond(t: Time): Time { t - t % SECOND }

  /** The instant beyond which the response may not claim freshness. */
  function Limit(validity: Duration, thisUpdate: Time, sourceNextUpdate: Time): Time {
    if sourceNextUpdate != ZERO_TIME && sourceNextUpdate < thisUpdate + validity
    then sourceNextUpdate
    else thisUpdate + validity
  }

  function CreateResponse(
    validity: Duration, serial: int, status: Status, revocation: Option<RevocationInfo>,
    thisUpdate: Time, sourceNextUpdate: Time, signs: bool): Result<Issued>
  {
    if status.Other? then Err(UnsupportedStatus)
    else
      var revokedAt := if status.Revoked? && revocation.Some? then revocation.value.revokedAt else ZERO_TIME;
      var reason := if status.Revoked? && revocation.Some? then revocation.value.reason else 0;
      var nextUpdate := TruncateToSecond(Limit(validity, thisUpdate, sourceNextUpdate));
      if !signs then Err(SigningFailed)
      else Ok(Issued(Signed(serial, status, thisUpdate, nextUpdate, revokedAt, reason), nextUpdate))
  }

  predicate WholeSecond(t: Time) { t % SECOND == 0 }

  /** `n` is the latest whole second that is not after `limit`. */
  ghost predicate LatestWholeSecond(n: Time, limit: Time) {
    WholeSecond(n) && n <= limit && forall m :: WholeSecond(m) && m <= limit ==> m <= n
  }

  lemma TruncateIsLatest(t: Time)
    ensures LatestWholeSecond(TruncateToSecond(t), t)
  {
    var n := TruncateToSecond(t);
    assert n == t / SECOND * SECOND;
    forall m | WholeSecond(m) && m <= t ensures m <= n {
      assert m == m / SECOND * SECOND;
    }
  }

  /**
   The deadline signed into the response, which is also the one handed to the cache, is the latest
   whole second not after both thisUpdate + validity and the source's own nextUpdate (when it has one).
   */
  lemma DeadlineIsExact(
      validity: Duration, serial: int, status: Status, revocation: Option<RevocationInfo>,
      thisUpdate: Time, sourceNextUpdate: Time)
    ensures
      var r := CreateResponse(validity, serial, status, revocation, thisUpdate, sourceNextUpdate, true);
      r.Ok? ==>
        && r.value.nextUpdate == r.value.der.nextUpdate
        && WholeSecond(r.value.nextUpdate)
        && r.value.nextUpdate <= thisUpdate + validity
        && (sourceNextUpdate != ZERO_TIME ==> r.value.nextUpdate <= sourceNextUpdate)
        && forall m :: WholeSecond(m) && m <= thisUpdate + validity
                       && (sourceNextUpdate != ZERO_TIME ==> m <= sourceNextUpdate)
             ==> m <= r.value.nextUpdate
  {
    TruncateIsLatest(Limit(validity, thisUpdate, sourceNextUpdate));
  }

  /** A response is refused exactly for a status without an OCSP form or a key that does not sign. */
  lemma SignsUnless(
      validity: Duration, serial: int, status: Status, revocation: Option<RevocationInfo>,
      thisUpdate: Time, sourceNextUpdate: Time, signs: bool)
    ensures
      var r := CreateResponse(validity, serial, status, revocation, thisUpdate, sourceNextUpdate, signs);
      && (r.Ok? <==> signs && (status.Good? || status.Revoked? || status.Unknown?))
      && (r.Err? ==> r.fault == if status.Other? then UnsupportedStatus else SigningFailed)
      && (r.Ok? ==>
            && r.value.der.serial == serial && r.value.der.status == status && r.value.der.thisUpdate == thisUpdate
            && (if status.Revoked? && revocation.Some?
                then RevocationInfo(r.value.der.revokedAt, r.value.der.reason) == revocation.value
                else r.value.der.revokedAt == ZERO_TIME && r.value.der.reason == 0))
  {
  }

  /**
   Truncation yields the "no deadline" sentinel exactly when the limit falls in the first second
   after the zero time; for whole-second source times and a realistic clock it never does.
   */
  lemma SentinelOnlyInFirstSecond(validity: Duration, thisUpdate: Time, sourceNextUpdate: Time)
    ensures
      var limit := Limit(validity, thisUpdate, sourceNextUpdate);
      TruncateToSecond(limit) == ZERO_TIME <==> 0 <= limit < SECOND
    ensures thisUpdate + validity >= SECOND && WholeSecond(sourceNextUpdate)
      ==> TruncateToSecond(Limit(validity, thisUpdate, sourceNextUpdate)) != ZERO_TIME
  {
    var limit := Limit(validity, thisUpdate, sourceNextUpdate);
    TruncateIsLatest(limit);
    assert limit == limit / SECOND * SECOND + limit % SECOND;
  }

  /** The earliest whole second not before `t`. */
  function RoundUpToSecond(t: Time): Time {
    if WholeSecond(t) then t else TruncateToSecond(t) + SECOND
  }

  lemma RoundUpIsEarliest(t: Time)
    ensures WholeSecond(RoundUpToSecond(t)) && t <= RoundUpToSecond(t) < t + SECOND
    ensures forall m :: WholeSecond(m) && t <= m ==> RoundUpToSecond(t) <= m
  {
    assert t == t / SECOND * SECOND + t % SECOND;
    forall m | WholeSecond(m) && t <= m ensures RoundUpToSecond(t) <= m {
      assert m == m / SECOND * SECOND;
    }
  }

  /**
   The signed deadline lies before thisUpdate exactly when no whole second fits between thisUpdate and one
   of its two limits. A validity of at least a second always leaves room for one, so with whole-second
   source times it happens exactly when the source's own deadline has already passed. As encoded, it lies
   before thisUpdate exactly when the source's deadline lies before the second in which the response was signed.
   */
  lemma DeadlinePassedIff(validity: Duration, thisUpdate: Time, sourceNextUpdate: Time)
    ensures
      var next, up := TruncateToSecond(Limit(validity, thisUpdate, sourceNextUpdate)), RoundUpToSecond(thisUpdate);
      && (next < thisUpdate <==>
            thisUpdate + validity < up || (sourceNextUpdate != ZERO_TIME && sourceNextUpdate < up))
      && (validity >= SECOND && WholeSecond(sourceNextUpdate) ==>
            (next < thisUpdate <==> sourceNextUpdate != ZERO_TIME && sourceNextUpdate < thisUpdate))
      && (validity >= 0 ==>
            (next < TruncateToSecond(thisUpdate)
             <==> sourceNextUpdate != ZERO_TIME && sourceNextUpdate < TruncateToSecond(thisUpdate)))
  {
    TruncateIsLatest(thisUpdate);
    TruncateIsLatest(Limit(validity, thisUpdate, sourceNextUpdate));
    RoundUpIsEarliest(thisUpdate);
  }
}
