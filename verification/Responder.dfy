/** One request through `Handle`, with the source, the signing key and the clock as inputs. */
module Responder {
  import opened Types
  import opened Signer
  import opened ResponseCache
  import opened SerialText

  /** What a source call returned: an error, a nil status, or a status. */
  type SourceResult = Result<Option<CertStatus>>

  /** The three locals that `Handle` passes to the signer. */
  datatype Verdict = Verdict(status: Status, revocation: Option<RevocationInfo>, sourceNextUpdate: Time)

  /** Fails closed: anything but a status becomes `unknown` without revocation data or a deadline. */
  function VerdictOf(r: SourceResult): Verdict {
    match r
    case Ok(Some(cs)) => Verdict(cs.status, cs.revocation, cs.sourceNextUpdate)
    case Ok(None) => Verdict(Unknown, None, ZERO_TIME)
    case Err(_) => Verdict(Unknown, None, ZERO_TIME)
  }

  /** The response that answers `serial` when the source returned `r` and the clock reads `thisUpdate`. */
  function ResponseFor(validity: Duration, serial: int, r: SourceResult, thisUpdate: Time, signs: bool)
    : Result<Issued>
  {
    var v := VerdictOf(r);
    CreateResponse(validity, serial, v.status, v.revocation, thisUpdate, v.sourceNextUpdate, signs)
  }

  /** `der` is the response to a source result `r` for `serial`, signed at its own thisUpdate. */
  predicate Answers(validity: Duration, serial: int, r: SourceResult, der: Signed) {
    ResponseFor(validity, serial, r, der.thisUpdate, true) == Ok(Issued(der, der.nextUpdate))
  }

  /**
   A response says exactly what the source said: it is good or revoked only if the source returned that
   status for that serial, an error or a nil status can only make it `unknown`, only a revoked one carries
   revocation data, and its deadline never exceeds the source's.
   */
  lemma ResponseIsFaithful(validity: Duration, serial: int, r: SourceResult, der: Signed)
    requires Answers(validity, serial, r, der)
    ensures der.serial == serial
    ensures der.status.Good? <==> r.Ok? && r.value.Some? && r.value.value.status.Good?
    ensures der.status.Revoked? <==> r.Ok? && r.value.Some? && r.value.value.status.Revoked?
    ensures r.Err? || r.value.None? ==> der.status.Unknown?
    ensures !der.status.Revoked? ==> der.revokedAt == ZERO_TIME && der.reason == 0
    ensures der.status.Revoked? && r.value.value.revocation.Some?
      ==> RevocationInfo(der.revokedAt, der.reason) == r.value.value.revocation.value
    ensures LatestWholeSecond(der.nextUpdate,
                              Limit(validity, der.thisUpdate, VerdictOf(r).sourceNextUpdate))
    ensures r.Ok? && r.value.Some? && r.value.value.sourceNextUpdate != ZERO_TIME
      ==> der.nextUpdate <= r.value.value.sourceNextUpdate
  {
    TruncateIsLatest(Limit(validity, der.thisUpdate, VerdictOf(r).sourceNextUpdate));
  }

  /** The source failed to give a status: an error, or nil. */
  predicate NoStatus(r: SourceResult) { r.Err? || r.value.None? }

  /**
   A working key always makes a response, but for a status without an OCSP form; and where the source gave no
   status at all the response says `unknown`, without revocation data, for the whole response validity.
   */
  lemma ResponseExists(validity: Duration, serial: int, r: SourceResult, thisUpdate: Time, signs: bool)
    ensures
      var made := ResponseFor(validity, serial, r, thisUpdate, signs);
      && (made.Ok? <==> signs && (NoStatus(r) || !r.value.value.status.Other?))
      && (made.Ok? ==>
            && made.value.nextUpdate == made.value.der.nextUpdate && made.value.der.thisUpdate == thisUpdate
            && Answers(validity, serial, r, made.value.der))
      && (signs && NoStatus(r) ==>
            && made.value.der.serial == serial && made.value.der.status == Unknown
            && made.value.der.revokedAt == ZERO_TIME && made.value.der.reason == 0
            && LatestWholeSecond(made.value.der.nextUpdate, thisUpdate + validity))
      && (made.Err? ==> made.fault == if !NoStatus(r) && r.value.value.status.Other?
                                      then UnsupportedStatus else SigningFailed)
  {
    var v := VerdictOf(r);
    SignsUnless(validity, serial, v.status, v.revocation, thisUpdate, v.sourceNextUpdate, signs);
    TruncateIsLatest(thisUpdate + validity);
  }

  /** The source put a deadline on its answer, and that lies before `t`. */
  predicate DeadlineBefore(r: SourceResult, t: Time) {
    r.Ok? && r.value.Some? && r.value.value.sourceNextUpdate != ZERO_TIME && r.value.value.sourceNextUpdate < t
  }

  /**
   A response whose deadline lies before its own thisUpdate, as a client reads the two, arises exactly from a
   status whose source deadline lay before the second in which it was signed. For whole-second source times
   and a validity of at least a second the same holds of the readings before encoding.
   */
  lemma DeadlinePassedResponses(validity: Duration, serial: int, r: SourceResult, der: Signed)
    requires Answers(validity, serial, r, der)
    ensures validity >= 0 ==>
      (der.nextUpdate < TruncateToSecond(der.thisUpdate) <==> DeadlineBefore(r, TruncateToSecond(der.thisUpdate)))
    ensures validity >= SECOND && WholeSecond(VerdictOf(r).sourceNextUpdate) ==>
      (der.nextUpdate < der.thisUpdate <==> DeadlineBefore(r, der.thisUpdate))
  {
    DeadlinePassedIff(validity, der.thisUpdate, VerdictOf(r).sourceNextUpdate);
  }

  /** The specification of one whole request against a cache that nobody else touches meanwhile. */
  ghost predicate Handled(
    cfg: Config, validity: Duration, before: Entries, serial: int, getAt: Reading, source: SourceResult,
    signAt: Time, signs: bool, setAt: Reading, reply: Result<Signed>, after: Entries)
  {
    var key := Decimal(serial);
    var (hit, purged) := AtomicGet(cfg, before, key, getAt);
    if hit.Some? then reply == Ok(hit.value) && after == before
    else
      match ResponseFor(validity, serial, source, signAt, signs)
      case Err(f) => reply == Err(f) && after == purged
      case Ok(issued) =>
        && reply == Ok(issued.der)
        && AtomicSet(cfg, purged, key, issued.der, setAt, issued.der.nextUpdate, after)
  }

  /** The cache holds an unexpired entry for the serial. */
  predicate HasLive(cfg: Config, entries: Entries, serial: int, at: Reading) {
    cfg.enabled && Decimal(serial) in entries && Live(at, entries[Decimal(serial)].expiresAt)
  }

  /**
   What one request gets and leaves behind. A live entry is answered as it is and the source does not matter.
   Otherwise a working key answers every source result but an unsupported status, a failed source with
   `unknown`; and the reply is then in the cache exactly if it was worth storing, for exactly its life.
   */
  lemma HandledMeans(
      cfg: Config, validity: Duration, before: Entries, serial: int, getAt: Reading, source: SourceResult,
      signAt: Time, signs: bool, setAt: Reading, reply: Result<Signed>, after: Entries)
    requires Handled(cfg, validity, before, serial, getAt, source, signAt, signs, setAt, reply, after)
    ensures HasLive(cfg, before, serial, getAt) ==> reply == Ok(before[Decimal(serial)].data) && after == before
    ensures !HasLive(cfg, before, serial, getAt) ==>
      && (reply.Ok? <==> signs && (NoStatus(source) || !source.value.value.status.Other?))
      && (reply.Ok? ==> Answers(validity, serial, source, reply.value) && reply.value.thisUpdate == signAt)
      && (signs && NoStatus(source) ==>
            && reply.Ok? && reply.value.status == Unknown
            && reply.value.revokedAt == ZERO_TIME && reply.value.reason == 0
            && LatestWholeSecond(reply.value.nextUpdate, signAt + validity))
    ensures !HasLive(cfg, before, serial, getAt) && reply.Ok? ==>
      forall at: Reading :: HasLive(cfg, after, serial, at) <==>
        WorthStoring(cfg, setAt, reply.value.nextUpdate) && InLife(cfg, setAt, reply.value.nextUpdate, at)
    ensures !HasLive(cfg, before, serial, getAt) && reply.Err? ==>
      after == if cfg.enabled then before - {Decimal(serial)} else before
  {
    GetMeaning(cfg, before, Decimal(serial), getAt);
    ResponseExists(validity, serial, source, signAt, signs);
    if reply.Ok? { LifeIsExact(cfg, setAt, reply.value.nextUpdate); }
    assert Decimal(serial) !in before ==> before - {Decimal(serial)} == before;
  }

  /** During the life of the first reply a second request gets the same one, whatever the source says by then. */
  lemma HandledTwice(
      cfg: Config, validity: Duration, before: Entries, serial: int, getAt: Reading, source: SourceResult,
      signAt: Time, signs: bool, setAt: Reading, reply: Result<Signed>, mid: Entries, at: Reading,
      source': SourceResult, signAt': Time, signs': bool, setAt': Reading, reply': Result<Signed>, after: Entries)
    requires Handled(cfg, validity, before, serial, getAt, source, signAt, signs, setAt, reply, mid)
    requires Handled(cfg, validity, mid, serial, at, source', signAt', signs', setAt', reply', after)
    requires !HasLive(cfg, before, serial, getAt) && reply.Ok? && WorthStoring(cfg, setAt, reply.value.nextUpdate)
    ensures InLife(cfg, setAt, reply.value.nextUpdate, at) ==> reply' == reply && after == mid
    ensures !InLife(cfg, setAt, reply.value.nextUpdate, at) && reply'.Ok? ==>
      Answers(validity, serial, source', reply'.value) && reply'.value.thisUpdate == signAt'
  {
    HandledMeans(cfg, validity, before, serial, getAt, source, signAt, signs, setAt, reply, mid);
    HandledMeans(cfg, validity, mid, serial, at, source', signAt', signs', setAt', reply', after);
    assert HasLive(cfg, mid, serial, at) <==> InLife(cfg, setAt, reply.value.nextUpdate, at);
    LifeIsExact(cfg, setAt, reply.value.nextUpdate);
  }

  class OcspResponder {
    const cache: Cache
    const validity: Duration

    constructor (cfg: Config, validity: Duration)
      ensures cache.Valid() && cache.cfg == cfg && cache.entries == map[] && fresh(cache)
      ensures this.validity == validity
    {
      cache := new Cache(cfg);
      this.validity := validity;
    }

    /**
     `intake` is the outcome of the context, parsing and issuer-binding checks. The three clock readings
     are the ones taken for the lookup, for signing and for the insertion; `source` is what the source
     returns if it is asked.
     */
    method Handle(
      intake: Result<int>, getAt: Reading, source: SourceResult, signAt: Time, signs: bool, setAt: Reading)
      returns (reply: Result<Signed>)
      requires cache.Valid()
      modifies cache
      ensures cache.Valid()
      ensures intake.Err? ==> reply == Err(intake.fault) && cache.entries == old(cache.entries)
      ensures intake.Ok? ==>
        Handled(cache.cfg, validity, old(cache.entries), intake.value, getAt, source, signAt, signs, setAt,
                reply, cache.entries)
      ensures intake.Ok? && signs && NoStatus(source)
              && !old(HasLive(cache.cfg, cache.entries, intake.value, getAt)) ==>
        && reply.Ok? && reply.value.serial == intake.value && reply.value.status == Unknown
        && reply.value.revokedAt == ZERO_TIME && reply.value.reason == 0
    {
      if intake.Err? {
        return Err(intake.fault);
      }
      var serial := intake.value;
      var key := Decimal(serial);
      var hit := cache.GetAt(key, getAt);
      if hit.Some? {
        return Ok(hit.value);
      }
      var status := Unknown;
      var revocation: Option<RevocationInfo> := None;
      var sourceNextUpdate := ZERO_TIME;
      if source.Ok? && source.value.Some? {
        status := source.value.value.status;
        revocation := source.value.value.revocation;
        sourceNextUpdate := source.value.value.sourceNextUpdate;
      }
      if source.Err? {
        status := Unknown;
        revocation := None;
      }
      var issued := CreateResponse(validity, serial, status, revocation, signAt, sourceNextUpdate, signs);
      if issued.Err? {
        return Err(issued.fault);
      }
      cache.SetAt(key, issued.value.der, setAt, issued.value.nextUpdate);
      return Ok(issued.value.der);
    }
  }
}
