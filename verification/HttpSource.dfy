/** The HTTP source, used by one goroutine at a time: reply mapping, retries with backoff, health, TTL cache. */
module HttpSource {
  import opened Types
  import opened SerialText
  import opened UpstreamUrl

  datatype JsonValue = JsonString(text: string) | JsonOther

  /** What one HTTP GET came to. `body` is None when it does not decode to a JSON object. */
  datatype Reply =
    | Unbuildable
    | Unreachable
    | Http(code: int, body: Option<map<string, JsonValue>>)

  datatype Mapping = Mapping(
    pathTemplate: string,
    statusField: string,
    goodValues: seq<string>,
    revokedValues: seq<string>)

  datatype Config = Config(
    baseUrl: string,
    mapping: Mapping,
    maxAttempts: int,
    backoff: Duration,
    cacheTtl: Duration)

  // ---- Construction ----

  const DEFAULT_PATH_TEMPLATE := "/1.0/certificates/{serial}"

  function WithDefaults(m: Mapping): Mapping {
    Mapping(
      if m.pathTemplate == "" then DEFAULT_PATH_TEMPLATE else m.pathTemplate,
      if m.statusField == "" then "status" else m.statusField,
      if m.goodValues == [] then ["active", "valid"] else m.goodValues,
      if m.revokedValues == [] then ["revoked"] else m.revokedValues)
  }

  /** What became of the optional root certificate file. */
  datatype RootCerts = NotConfigured | Unreadable | NoCertificates | Pinned

  function Configure(
    baseUrl: string, roots: RootCerts, m: Mapping, maxRetries: int, backoff: Duration, cacheTtl: Duration)
    : Result<Config>
  {
    if baseUrl == "" then Err(BaseUrlMissing)
    else if roots.Unreadable? then Err(ReadFailed)
    else if roots.NoCertificates? then Err(RootCertsInvalid)
    else Ok(Config(baseUrl, WithDefaults(m),
                   if maxRetries <= 0 then 3 else maxRetries,
                   if backoff <= 0 then SECOND / 2 else backoff,
                   cacheTtl))
  }

  /**
   Construction succeeds exactly with a base URL and, if a root certificate file is named, certificates in it.
   Every setting that was given is kept and the others take their defaults; serials are told apart
   exactly if the template given, or the default, names the serial.
   */
  lemma ConfigureIsUsable(
      baseUrl: string, roots: RootCerts, m: Mapping, maxRetries: int, backoff: Duration, cacheTtl: Duration)
    ensures Configure(baseUrl, roots, m, maxRetries, backoff, cacheTtl).Ok?
      <==> baseUrl != "" && (roots.NotConfigured? || roots.Pinned?)
    ensures
      var r := Configure(baseUrl, roots, m, maxRetries, backoff, cacheTtl);
      r.Ok? ==>
        && r.value.baseUrl == baseUrl && r.value.cacheTtl == cacheTtl
        && r.value.maxAttempts == (if maxRetries > 0 then maxRetries else 3)
        && r.value.backoff == (if backoff > 0 then backoff else 500_000_000)
        && r.value.mapping.pathTemplate
           == (if m.pathTemplate != "" then m.pathTemplate else "/1.0/certificates/{serial}")
        && r.value.mapping.statusField == (if m.statusField != "" then m.statusField else "status")
        && r.value.mapping.goodValues == (if m.goodValues != [] then m.goodValues else ["active", "valid"])
        && r.value.mapping.revokedValues == (if m.revokedValues != [] then m.revokedValues else ["revoked"])
        && ((forall x, y :: x != y ==> UrlFor(r.value, x) != UrlFor(r.value, y))
            <==> m.pathTemplate == "" || ContainsPlaceholder(m.pathTemplate))
  {
    assert StartsWithPlaceholder(DEFAULT_PATH_TEMPLATE[18..]);
    var r := Configure(baseUrl, roots, m, maxRetries, backoff, cacheTtl);
    if r.Ok? {
      var template := r.value.mapping.pathTemplate;
      forall x, y | x != y ensures UrlFor(r.value, x) != UrlFor(r.value, y) <==> ContainsPlaceholder(template) {
        UrlsCollideIffNoPlaceholder(baseUrl, template, x, y);
      }
      assert UrlFor(r.value, 0) != UrlFor(r.value, 1) <==> ContainsPlaceholder(template);
    }
  }

  function UrlFor(cfg: Config, serial: int): string { Url(cfg.baseUrl, cfg.mapping.pathTemplate, serial) }

  /** The URL fetched for a serial: the base without trailing slashes, and the template with the serial in it. */
  lemma UrlForShape(cfg: Config, p: string, q: string, serial: int)
    requires '{' !in p && Occurrences(q) == 0 && cfg.mapping.pathTemplate == p + "{serial}" + q
    ensures UrlFor(cfg, serial) == TrimSlashes(cfg.baseUrl) + (p + UpperHex(serial) + q)
  {
    UrlShape(cfg.baseUrl, p, q, serial);
  }

  // ---- One attempt ----

  datatype Attempt = Conclusive(result: Result<CertStatus>) | Retry

  /** A failed type assertion to string leaves the empty string. */
  function Coerce(v: JsonValue): string { if v.JsonString? then v.text else "" }

  function Plain(status: Status): CertStatus { CertStatus(status, None, ZERO_TIME) }

  /** The outcome mapping of `fetchOnce`. */
  function MapReply(m: Mapping, reply: Reply, now: Time): Attempt {
    match reply
    case Unbuildable => Conclusive(Err(UpstreamPermanent))
    case Unreachable => Retry
    case Http(code, body) =>
      if code == 404 then Conclusive(Ok(Plain(Unknown)))
      else if code != 200 then Retry
      else if body.None? then Conclusive(Err(UpstreamPermanent))
      else if m.statusField !in body.value then Conclusive(Ok(Plain(Unknown)))
      else
        var text := Coerce(body.value[m.statusField]);
        if text in m.goodValues then Conclusive(Ok(Plain(Good)))
        else if text in m.revokedValues then
          Conclusive(Ok(CertStatus(Revoked, Some(RevocationInfo(now, 0)), ZERO_TIME)))
        else Conclusive(Ok(Plain(Unknown)))
  }

  /** A 200 reply whose status field, read as text, is one of the listed values. */
  predicate Says(m: Mapping, reply: Reply, values: seq<string>) {
    && reply.Http? && reply.code == 200 && reply.body.Some?
    && m.statusField in reply.body.value && Coerce(reply.body.value[m.statusField]) in values
  }

  /** `good` comes from a listed good value and nothing else; `revoked` only if the value is not also good. */
  lemma MappingMeaning(m: Mapping, reply: Reply, now: Time)
    ensures MapReply(m, reply, now) == Conclusive(Ok(Plain(Good))) <==> Says(m, reply, m.goodValues)
    ensures
      var a := MapReply(m, reply, now);
      && ((a.Conclusive? && a.result.Ok? && a.result.value.status.Revoked?)
          <==> (Says(m, reply, m.revokedValues) && !Says(m, reply, m.goodValues)))
      && (a.Conclusive? && a.result.Ok? ==>
            !a.result.value.status.Other? && a.result.value.sourceNextUpdate == ZERO_TIME)
      && (a.Conclusive? && a.result.Ok? && a.result.value.status.Good? ==> a.result.value == Plain(Good))
      && (a.Conclusive? && a.result.Ok? && a.result.value.status.Revoked? ==>
            a.result.value.revocation == Some(RevocationInfo(now, 0)))
      && (a.Retry? <==> reply.Unreachable? || (reply.Http? && reply.code != 200 && reply.code != 404))
      && (a == Conclusive(Err(UpstreamPermanent)) <==>
            reply.Unbuildable? || (reply.Http? && reply.code == 200 && reply.body.None?))
  {
  }

  /** The status field of a reply holds `text`; a value that is not a string counts as the empty string. */
  predicate Holds(m: Mapping, reply: Reply, text: string) {
    && reply.Http? && reply.code == 200 && reply.body.Some? && m.statusField in reply.body.value
    && var v := reply.body.value[m.statusField];
       v == JsonString(text) || (v == JsonOther && text == "")
  }

  /** The outcome of a reply by the value it holds: listed as good, else listed as revoked, else `unknown`. */
  lemma MappingByValue(m: Mapping, reply: Reply, now: Time, text: string)
    ensures Holds(m, reply, text) && text in m.goodValues ==>
      MapReply(m, reply, now) == Conclusive(Ok(CertStatus(Good, None, 0)))
    ensures Holds(m, reply, text) && text !in m.goodValues && text in m.revokedValues ==>
      MapReply(m, reply, now) == Conclusive(Ok(CertStatus(Revoked, Some(RevocationInfo(now, 0)), 0)))
    ensures Holds(m, reply, text) && text !in m.goodValues && text !in m.revokedValues ==>
      MapReply(m, reply, now) == Conclusive(Ok(CertStatus(Unknown, None, 0)))
    ensures reply.Http? && reply.code == 200 && reply.body.Some? && m.statusField !in reply.body.value ==>
      MapReply(m, reply, now) == Conclusive(Ok(CertStatus(Unknown, None, 0)))
    ensures reply.Http? && reply.code == 404 ==> MapReply(m, reply, now) == Conclusive(Ok(CertStatus(Unknown, None, 0)))
    ensures reply.Http? && reply.code == 200 && reply.body.None? ==>
      MapReply(m, reply, now) == Conclusive(Err(UpstreamPermanent))
    ensures reply.Http? && reply.code !in {200, 404} ==> MapReply(m, reply, now) == Retry
  {
  }

  /** With everything left to the defaults, "active" and "valid" mean good and "revoked" means revoked. */
  lemma DefaultMapping(baseUrl: string, reply: Reply, now: Time)
    requires baseUrl != ""
    ensures
      var m := Configure(baseUrl, NotConfigured, Mapping("", "", [], []), 0, 0, 0).value.mapping;
      && m.statusField == "status"
      && (Holds(m, reply, "active") || Holds(m, reply, "valid") ==>
            MapReply(m, reply, now) == Conclusive(Ok(CertStatus(Good, None, 0))))
      && (Holds(m, reply, "revoked") ==>
            MapReply(m, reply, now) == Conclusive(Ok(CertStatus(Revoked, Some(RevocationInfo(now, 0)), 0))))
  {
    var m := Configure(baseUrl, NotConfigured, Mapping("", "", [], []), 0, 0, 0).value.mapping;
    assert m.goodValues == ["active", "valid"] && m.revokedValues == ["revoked"];
    assert m.goodValues[0] == "active" && m.goodValues[1] == "valid" && m.revokedValues[0] == "revoked";
    assert "revoked"[0] != "active"[0] && "revoked"[0] != "valid"[0];
    MappingByValue(m, reply, now, "active");
    MappingByValue(m, reply, now, "valid");
    MappingByValue(m, reply, now, "revoked");
  }

  // ---- Retrying ----

  /** Everything outside the retry loop: cancellation at each check, the upstream, and the clock. */
  datatype World = World(
    cancelledBefore: nat -> bool,        // ctx.Err() at the top of attempt k
    cancelledDuring: nat -> bool,        // the context ends while waiting before attempt k
    reply: (string, nat) -> Reply,       // what the k-th GET of a URL comes to
    clock: nat -> Time)

  predicate CancelledAt(w: World, k: nat) { w.cancelledBefore(k) || (k > 0 && w.cancelledDuring(k)) }

  function AttemptAt(m: Mapping, w: World, url: string, k: nat): Attempt { MapReply(m, w.reply(url, k), w.clock(k)) }

  /** Attempt `k` settles the matter: it is cancelled, or its reply is not worth retrying. */
  predicate Settles(m: Mapping, w: World, url: string, k: nat) {
    CancelledAt(w, k) || AttemptAt(m, w, url, k).Conclusive?
  }

  /** Attempt `n` is the first that settles the matter. */
  ghost predicate FirstSettled(m: Mapping, w: World, url: string, n: nat) {
    Settles(m, w, url, n) && forall k: nat :: k < n ==> !Settles(m, w, url, k)
  }

  function Outcome(m: Mapping, w: World, url: string, n: nat): Result<CertStatus>
    requires Settles(m, w, url, n)
  {
    if CancelledAt(w, n) then Err(Cancelled) else AttemptAt(m, w, url, n).result
  }

  function Pow2(n: nat): nat { if n == 0 then 1 else 2 * Pow2(n - 1) }

  const TWO_63: int := 0x8000_0000_0000_0000
  const TWO_64: int := 0x1_0000_0000_0000_0000

  /** Two's-complement wrap-around of int64. */
  function Wrap(x: int): int { (x + TWO_63) % TWO_64 - TWO_63 }

  /** The backoff variable after `k` doublings. */
  function Backoff(base: Duration, k: nat): int { Wrap(base * Pow2(k)) }

  /** How long a timer runs; a negative duration fires at once. */
  function Elapsed(d: Duration): nat { if d < 0 then 0 else d }

  function WaitBefore(base: Duration, k: nat): nat
    requires k > 0
  {
    Elapsed(Backoff(base, k - 1))
  }

  /** The completed waits of a call that makes `fetches` fetches. */
  function TotalWait(base: Duration, fetches: nat): nat {
    if fetches <= 1 then 0 else TotalWait(base, fetches - 1) + WaitBefore(base, fetches - 1)
  }

  lemma WrapDouble(x: int)
    ensures Wrap(2 * Wrap(x)) == Wrap(2 * x)
  {
    var q := (x + TWO_63) / TWO_64;
    assert Wrap(x) == x - q * TWO_64;
    WrapShift(2 * x, -2 * q);
  }

  lemma WrapShift(x: int, q: int)
    ensures Wrap(x + q * TWO_64) == Wrap(x)
  {
    var a := x + TWO_63;
    assert a == a / TWO_64 * TWO_64 + a % TWO_64;
    assert a + q * TWO_64 == (a / TWO_64 + q) * TWO_64 + a % TWO_64;
  }

  lemma BackoffDoubles(base: Duration, k: nat)
    ensures Wrap(Backoff(base, k) * 2) == Backoff(base, k + 1)
  {
    WrapDouble(base * Pow2(k));
    assert 2 * (base * Pow2(k)) == base * Pow2(k + 1);
  }

  lemma BackoffStarts(base: Duration)
    requires -TWO_63 <= base < TWO_63
    ensures Backoff(base, 0) == base
  {
  }

  /** A finished retry loop: its result and how many GETs it sent. */
  datatype Trip = Trip(result: Result<CertStatus>, fetches: nat)

  /** The loop from attempt `k` on. */
  function FetchFrom(cfg: Config, w: World, url: string, k: nat): Trip
    decreases cfg.maxAttempts - k
  {
    if k >= cfg.maxAttempts then Trip(Err(AttemptsExhausted), k)
    else if CancelledAt(w, k) then Trip(Err(Cancelled), k)
    else
      match AttemptAt(cfg.mapping, w, url, k)
      case Conclusive(r) => Trip(r, k + 1)
      case Retry => FetchFrom(cfg, w, url, k + 1)
  }

  method FetchWithRetry(cfg: Config, w: World, url: string)
    returns (r: Result<CertStatus>, fetches: nat, retries: nat, waited: nat)
    requires -TWO_63 <= cfg.backoff < TWO_63
    ensures Trip(r, fetches) == FetchFrom(cfg, w, url, 0)
    ensures retries == (if fetches == 0 then 0 else fetches - 1)
    ensures waited == TotalWait(cfg.backoff, fetches)
  {
    var backoff := cfg.backoff;
    fetches, retries, waited := 0, 0, 0;
    var attempt := 0;
    BackoffStarts(cfg.backoff);
    while attempt < cfg.maxAttempts
      invariant fetches == attempt
      invariant retries == (if attempt == 0 then 0 else attempt - 1)
      invariant waited == TotalWait(cfg.backoff, attempt)
      invariant backoff == Backoff(cfg.backoff, if attempt == 0 then 0 else attempt - 1)
      invariant FetchFrom(cfg, w, url, 0) == FetchFrom(cfg, w, url, attempt)
    {
      if w.cancelledBefore(attempt) {
        r := Err(Cancelled);
        return;
      }
      if attempt > 0 {
        if w.cancelledDuring(attempt) {
          r := Err(Cancelled);
          return;
        }
        waited := waited + Elapsed(backoff);
        BackoffDoubles(cfg.backoff, attempt - 1);
        backoff := Wrap(backoff * 2);
        retries := retries + 1;
      }
      fetches := fetches + 1;
      var a := MapReply(cfg.mapping, w.reply(url, attempt), w.clock(attempt));
      if a.Conclusive? {
        r := a.result;
        return;
      }
      attempt := attempt + 1;
    }
    r := Err(AttemptsExhausted);
  }

  lemma {:induction false} FetchFromSettles(cfg: Config, w: World, url: string, k: nat)
    requires forall j: nat :: j < k ==> !Settles(cfg.mapping, w, url, j)
    ensures
      var t := FetchFrom(cfg, w, url, k);
      || (exists n: nat :: k <= n < cfg.maxAttempts && FirstSettled(cfg.mapping, w, url, n)
            && t == Trip(Outcome(cfg.mapping, w, url, n), if CancelledAt(w, n) then n else n + 1))
      || ((forall j: nat :: j < cfg.maxAttempts ==> !Settles(cfg.mapping, w, url, j))
            && t.result == Err(AttemptsExhausted) && t.fetches == if k > cfg.maxAttempts then k else cfg.maxAttempts)
    decreases cfg.maxAttempts - k
  {
    if k < cfg.maxAttempts {
      if Settles(cfg.mapping, w, url, k) {
        assert FirstSettled(cfg.mapping, w, url, k);
      } else {
        FetchFromSettles(cfg, w, url, k + 1);
      }
    }
  }

  /**
   The loop returns the outcome of the first attempt that settles the matter, sends no GET after it and
   one for each attempt before it, and gives up only when none of `maxAttempts` attempts settles it.
   */
  lemma FetchReturnsFirstSettled(cfg: Config, w: World, url: string)
    requires cfg.maxAttempts >= 0
    ensures FetchFrom(cfg, w, url, 0).fetches <= cfg.maxAttempts
    ensures forall n: nat :: n < cfg.maxAttempts && FirstSettled(cfg.mapping, w, url, n) ==>
      FetchFrom(cfg, w, url, 0)
      == Trip(Outcome(cfg.mapping, w, url, n), if CancelledAt(w, n) then n else n + 1)
    ensures (forall k: nat :: k < cfg.maxAttempts ==> !Settles(cfg.mapping, w, url, k)) ==>
      FetchFrom(cfg, w, url, 0) == Trip(Err(AttemptsExhausted), cfg.maxAttempts)
    ensures
      var t := FetchFrom(cfg, w, url, 0);
      t.result.Ok? ==> t.fetches > 0 && AttemptAt(cfg.mapping, w, url, t.fetches - 1) == Conclusive(t.result)
  {
    FetchFromSettles(cfg, w, url, 0);
  }

  /**
   A context that has ended before attempt `k`, or ends during the wait before it, stops the call there if no
   earlier attempt has settled it: no further GET is sent, and the call fails as cancelled.
   */
  lemma CancellationStops(cfg: Config, w: World, url: string, k: nat)
    requires k < cfg.maxAttempts && (w.cancelledBefore(k) || (k > 0 && w.cancelledDuring(k)))
    requires forall j: nat :: j < k ==>
      && !w.cancelledBefore(j) && (j > 0 ==> !w.cancelledDuring(j))
      && MapReply(cfg.mapping, w.reply(url, j), w.clock(j)) == Retry
    ensures FetchFrom(cfg, w, url, 0) == Trip(Err(Cancelled), k)
  {
    forall j: nat | j < k ensures !Settles(cfg.mapping, w, url, j) {
      assert MapReply(cfg.mapping, w.reply(url, j), w.clock(j)) == Retry;
    }
    FetchReturnsFirstSettled(cfg, w, url);
    assert FirstSettled(cfg.mapping, w, url, k);
  }

  /** The first conclusive reply, reached uncancelled after replies worth retrying only, is what the call returns. */
  lemma ConclusiveReplyEnds(cfg: Config, w: World, url: string, k: nat)
    requires k < cfg.maxAttempts && !w.cancelledBefore(k) && (k > 0 ==> !w.cancelledDuring(k))
    requires MapReply(cfg.mapping, w.reply(url, k), w.clock(k)).Conclusive?
    requires forall j: nat :: j < k ==>
      && !w.cancelledBefore(j) && (j > 0 ==> !w.cancelledDuring(j))
      && MapReply(cfg.mapping, w.reply(url, j), w.clock(j)) == Retry
    ensures FetchFrom(cfg, w, url, 0) == Trip(MapReply(cfg.mapping, w.reply(url, k), w.clock(k)).result, k + 1)
  {
    forall j: nat | j < k ensures !Settles(cfg.mapping, w, url, j) {
      assert MapReply(cfg.mapping, w.reply(url, j), w.clock(j)) == Retry;
    }
    FetchReturnsFirstSettled(cfg, w, url);
    assert FirstSettled(cfg.mapping, w, url, k);
  }

  // ---- The backoff sum and its overflow ----

  lemma WrapBelow(x: nat)
    ensures x < TWO_63 ==> Wrap(x) == x
    ensures x >= TWO_63 ==> Elapsed(Wrap(x)) < x
  {
  }

  /** The wait before attempt k + 1 if integers were unbounded. */
  function Doubled(base: nat, k: nat): nat { base * Pow2(k) }

  lemma DoubledStep(base: nat, k: nat)
    ensures Doubled(base, k + 1) == 2 * Doubled(base, k)
  {
  }

  /** The sum of the first n - 1 unbounded waits. */
  function IdealWait(base: nat, n: nat): nat { if n <= 1 then 0 else IdealWait(base, n - 1) + Doubled(base, n - 2) }

  lemma {:induction false} IdealWaitClosed(base: nat, n: nat)
    requires n >= 1
    ensures IdealWait(base, n) == base * (Pow2(n - 1) - 1)
  {
    if n > 1 {
      IdealWaitClosed(base, n - 1);
      assert base * (2 * Pow2(n - 2) - 1) == base * (Pow2(n - 2) - 1) + base * Pow2(n - 2);
    }
  }

  lemma {:induction false} TotalWaitBound(base: nat, n: nat)
    ensures TotalWait(base, n) <= IdealWait(base, n)
    ensures n >= 2 && Doubled(base, n - 2) < TWO_63 ==> TotalWait(base, n) == IdealWait(base, n)
    ensures n >= 2 && Doubled(base, n - 2) >= TWO_63 ==> TotalWait(base, n) < IdealWait(base, n)
  {
    if n >= 2 {
      TotalWaitBound(base, n - 1);
      assert WaitBefore(base, n - 1) == Elapsed(Wrap(Doubled(base, n - 2)));
      WrapBelow(Doubled(base, n - 2));
      if n >= 3 { DoubledStep(base, n - 3); }
    }
  }

  /**
   A call that sends n >= 2 GETs has waited backoff * (2^(n-1) - 1) in total exactly when its last wait,
   backoff * 2^(n-2), fits in an int64; once that overflows the loop waits strictly less.
   */
  lemma TotalWaitExactIffNoOverflow(base: Duration, n: nat)
    requires base > 0 && n >= 2
    ensures TotalWait(base, n) == base * (Pow2(n - 1) - 1) <==> base * Pow2(n - 2) < TWO_63
    ensures TotalWait(base, n) <= base * (Pow2(n - 1) - 1)
  {
    TotalWaitBound(base, n);
    IdealWaitClosed(base, n);
  }

  /** The backoff variable is the exact power-of-two multiple of `base` through all its first `n` values. */
  predicate NeverWraps(base: Duration, n: int) { forall k: nat :: k < n ==> Backoff(base, k) == base * Pow2(k) }

  lemma DoublingsFit(base: nat, n: nat)
    requires Doubled(base, n) < TWO_63
    ensures NeverWraps(base, n + 1)
  {
    forall k: nat | k <= n ensures Backoff(base, k) == base * Pow2(k) {
      DoubledGrows(base, k, n);
      WrapBelow(Doubled(base, k));
    }
  }

  lemma SumFits(base: nat, n: nat, fetches: nat)
    requires base > 0 && Doubled(base, n) < TWO_63 && 1 <= fetches <= n + 1
    ensures TotalWait(base, fetches) == base * (Pow2(fetches - 1) - 1)
  {
    if fetches >= 2 {
      DoubledGrows(base, fetches - 2, n);
      TotalWaitExactIffNoOverflow(base, fetches);
    }
  }

  /**
   So with backoff * 2^(maxAttempts - 1) below 2^63 no doubling that any call can reach wraps around, and the
   sum is exact for every call.
   */
  lemma NoOverflowWithinAttempts(cfg: Config, w: World, url: string)
    requires cfg.backoff > 0 && cfg.maxAttempts >= 1
    requires cfg.backoff * Pow2(cfg.maxAttempts - 1) < TWO_63
    ensures NeverWraps(cfg.backoff, cfg.maxAttempts)
    ensures
      var n := FetchFrom(cfg, w, url, 0).fetches;
      n >= 1 ==> TotalWait(cfg.backoff, n) == cfg.backoff * (Pow2(n - 1) - 1)
  {
    var base, last := cfg.backoff, cfg.maxAttempts - 1;
    assert Doubled(base, last) < TWO_63;
    var n := FetchFrom(cfg, w, url, 0).fetches;
    assert n <= cfg.maxAttempts by { FetchReturnsFirstSettled(cfg, w, url); }
    if n >= 1 { SumFits(base, last, n); }
    DoublingsFit(base, last);
  }

  lemma {:induction false} DoubledGrows(base: nat, i: nat, j: nat)
    requires i <= j
    ensures Doubled(base, i) <= Doubled(base, j)
  {
    if i < j {
      DoubledGrows(base, i, j - 1);
      DoubledStep(base, j - 1);
    }
  }

  // ---- The source object ----

  /** `expiresAt` keeps the monotonic reading of the clock it was computed from, so that is what expires it. */
  datatype CacheEntry = CacheEntry(status: CertStatus, expiresAt: Reading)

  type Cache = map<string, CacheEntry>

  /** Whether a call may be answered from the cache. */
  predicate Hits(healthy: bool, cache: Cache, key: string, now: Reading) {
    healthy && key in cache && now.mono < cache[key].expiresAt.mono
  }

  class Source {
    const cfg: Config
    var healthy: bool
    var cache: Cache

    constructor (cfg: Config)
      ensures this.cfg == cfg && healthy && cache == map[]
    {
      this.cfg := cfg;
      healthy := true;
      cache := map[];
    }

    /**
     `hitAt` and `storeAt` are the clock readings of the expiry test and of the store. A cached answer is
     used only while healthy and unexpired, and then nothing is fetched and nothing changes; otherwise the
     result, the health and the cache are those of the fetch.
     */
    method GetStatus(cancelled: bool, serial: int, hitAt: Reading, w: World, storeAt: Reading)
      returns (r: Result<CertStatus>, fetches: nat)
      requires -TWO_63 <= cfg.backoff < TWO_63
      modifies this
      ensures cancelled ==> r == Err(Cancelled) && fetches == 0 && healthy == old(healthy) && cache == old(cache)
      ensures !cancelled && !old(healthy) ==> Trip(r, fetches) == FetchFrom(cfg, w, UrlFor(cfg, serial), 0)
      ensures !cancelled && old(healthy) && Decimal(serial) in old(cache)
              && hitAt.mono < old(cache)[Decimal(serial)].expiresAt.mono ==>
        r == Ok(old(cache)[Decimal(serial)].status) && fetches == 0
      ensures !cancelled && old(Hits(healthy, cache, Decimal(serial), hitAt)) ==>
        r == Ok(old(cache)[Decimal(serial)].status) && fetches == 0 && healthy && cache == old(cache)
      ensures !cancelled && !old(Hits(healthy, cache, Decimal(serial), hitAt)) ==>
        && Trip(r, fetches) == FetchFrom(cfg, w, UrlFor(cfg, serial), 0)
        && (healthy <==> r.Ok?)
        && (r.Ok? && cfg.cacheTtl > 0 ==>
              cache == old(cache)[Decimal(serial) := CacheEntry(r.value, Plus(storeAt, cfg.cacheTtl))])
        && (r.Err? || cfg.cacheTtl <= 0 ==>
              cache == if old(healthy) then old(cache) - {Decimal(serial)} else old(cache))
    {
      if cancelled {
        return Err(Cancelled), 0;
      }
      var key := Decimal(serial);
      if healthy {
        if key in cache {
          var entry := cache[key];
          if hitAt.mono < entry.expiresAt.mono {
            return Ok(entry.status), 0;
          }
          cache := cache - {key};
        }
      }
      var path := ReplaceAll(cfg.mapping.pathTemplate, UpperHex(serial));
      var url := TrimSlashes(cfg.baseUrl) + path;
      var retries, waited;
      r, fetches, retries, waited := FetchWithRetry(cfg, w, url);
      if r.Err? {
        healthy := false;
        return;
      }
      healthy := true;
      if cfg.cacheTtl > 0 {
        cache := cache[key := CacheEntry(r.value, Plus(storeAt, cfg.cacheTtl))];
      }
    }
  }
}
