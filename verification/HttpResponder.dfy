/** End-to-end results for the responder over the HTTP source. */
module HttpResponder {
  import opened Types
  import opened UpstreamUrl
  import opened Responder
  import opened SourcedResponder
  import R = ResponderProtocol
  import H = HttpProtocol
  import S = HttpSource

  /** A run whose source is a newly constructed HTTP source. */
  ghost predicate IsHttpRun(cfg: Config, run: seq<State>) {
    IsRun(cfg, run) && run[0].src.Http? && H.Init(run[0].src.http)
  }

  // ---- The source's half ----

  lemma HttpStep(cfg: Config, s: State, s': State)
    requires Next(cfg, s, s') && s.src.Http? && InStep(s)
    ensures s'.src.Http? && H.Step(cfg.http, s.src.http, s'.src.http)
  {
    if Advances(s, s') {
      var time: Reading :| s.resp.now.mono <= time.mono && s' == State(s.resp.(now := time), AtTime(s.src, time));
      assert H.Next(cfg.http, s.src.http, s'.src.http);
    } else if CallsSource(cfg, s, s') {
      var t: Thread :| Asking(s, t) && !Asked(s.src, t)
                       && s' == s.(src := WithCall(cfg, s.src, t, s.resp.reqs[t].serial));
      assert H.Enabled(cfg.http, s.src.http, t, H.Begin(s.resp.reqs[t].serial));
      assert s'.src.http == H.Apply(cfg.http, s.src.http, t, H.Begin(s.resp.reqs[t].serial));
    }
  }

  lemma {:induction false} StaysHttp(cfg: Config, run: seq<State>, n: nat)
    requires IsHttpRun(cfg, run) && n < |run|
    ensures run[n].src.Http?
  {
    if n > 0 {
      StaysHttp(cfg, run, n - 1);
      ClocksAgree(cfg, run, n - 1);
      assert Linked(cfg, run, n - 1);
      HttpStep(cfg, run[n - 1], run[n]);
    }
  }

  /** The source's half of a composed run is a run of the HTTP source under concurrency. */
  lemma SourcesAreARun(cfg: Config, run: seq<State>) returns (sources: seq<H.State>)
    requires IsHttpRun(cfg, run)
    ensures H.IsRun(cfg.http, sources)
    ensures |sources| == |run| && forall i :: 0 <= i < |run| ==> run[i].src == Http(sources[i])
  {
    forall i: nat | i < |run| ensures run[i].src.Http? { StaysHttp(cfg, run, i); }
    sources := seq(|run|, i requires 0 <= i < |run| => run[i].src.http);
    forall i: nat | i < |run| - 1 ensures H.Linked(cfg.http, sources, i) {
      assert Linked(cfg, run, i);
      ClocksAgree(cfg, run, i);
      HttpStep(cfg, run[i], run[i + 1]);
    }
  }

  // ---- Main results ----

  /**
   Call `v` fetched `cs` for `serial`: in step `i`, while the request of `v` was waiting, it sent the GET `x`
   and read `cs` in the reply.
   */
  ghost predicate FetchedAt(
    cfg: Config, run: seq<State>, n: nat, i: nat, v: Thread, serial: int, x: H.Exchange, cs: CertStatus)
  {
    && i < n < |run| && Asking(run[i], v) && run[i].resp.reqs[v].serial == serial
    && run[i].src.Http? && run[i + 1].src.Http?
    && v in run[i].src.http.calls && run[i].src.http.calls[v].Fetching?
    && run[i + 1].src.http.exchanges == run[i].src.http.exchanges + [x]
    && x.thread == v && x.url == S.UrlFor(cfg.http, serial) && x.at == run[i].resp.now.wall
    && S.MapReply(cfg.http.mapping, x.reply, x.at) == S.Conclusive(Ok(cs))
  }

  /** In step `p` call `v` stamped the entry `e` that it had fetched for `serial`. */
  predicate StampedAt(cfg: Config, run: seq<State>, n: nat, p: nat, v: Thread, serial: int, e: S.CacheEntry) {
    && p < n < |run| && run[p].src.Http? && v in run[p].src.http.calls
    && run[p].src.http.calls[v] == H.Recorded(serial, e.status)
    && Plus(run[p].resp.now, cfg.http.cacheTtl) == e.expiresAt
  }

  /** In step `m` the call of `u`, while its request was waiting, found the loaded entry `e` unexpired. */
  predicate HitAt(run: seq<State>, n: nat, m: nat, u: Thread, serial: int, e: S.CacheEntry) {
    && m < n < |run| && Asking(run[m], u) && run[m].src.Http? && u in run[m].src.http.calls
    && run[m].src.http.calls[u] == H.Loaded(serial, e) && run[m].resp.now.mono < e.expiresAt.mono
  }

  /** How a source call came by its answer: its own GET in step `i`, or in step `m` the entry stamped in step `p`. */
  datatype Way = ByGet(v: Thread, i: nat, x: H.Exchange) | ByHit(v: Thread, i: nat, x: H.Exchange, p: nat, m: nat)

  /** The source call of `u`, which had returned by moment `j`, obtained `cs` in this way. */
  ghost predicate Obtained(cfg: Config, run: seq<State>, j: nat, u: Thread, w: Way, cs: CertStatus) {
    && j < |run| && run[j].src.Http? && u in run[j].src.http.calls && run[j].src.http.calls[u].Finished?
    && var c := run[j].src.http.calls[u];
       && c.result == Ok(cs) && FetchedAt(cfg, run, j, w.i, w.v, c.serial, w.x, cs)
       && match w
          case ByGet(v, _, _) => c.origin.Fetched? && v == u
          case ByHit(v, i, _, p, m) =>
            && c.origin.Hit? && i < p && StampedAt(cfg, run, j, p, v, c.serial, c.origin.entry)
            && HitAt(run, j, m, u, c.serial, c.origin.entry)
            && Elapsed(run, p, m) < cfg.http.cacheTtl
  }

  lemma LiftFetch(
      cfg: Config, run: seq<State>, sources: seq<H.State>, n: nat, i: nat, v: Thread, serial: int, x: H.Exchange,
      cs: CertStatus)
    requires IsHttpRun(cfg, run) && |sources| == |run| && forall i :: 0 <= i < |run| ==> run[i].src == Http(sources[i])
    requires H.Got(cfg.http, sources, n, i, v, serial, x, cs)
    ensures FetchedAt(cfg, run, n, i, v, serial, x, cs)
  {
    AnswersTrace(cfg, run, i);
    assert Belongs(run[i], v);
    ClocksAgree(cfg, run, i);
  }

  /** The GET by which call `v` fetched `cs`. */
  lemma OwnFetch(
      cfg: Config, run: seq<State>, sources: seq<H.State>, n: nat, v: Thread, serial: int, cs: CertStatus)
    returns (i: nat, x: H.Exchange)
    requires IsHttpRun(cfg, run) && |sources| == |run| && forall i :: 0 <= i < |run| ==> run[i].src == Http(sources[i])
    requires n < |run| && H.Supported(cfg.http, sources, n, v, serial, cs)
    ensures FetchedAt(cfg, run, n, i, v, serial, x, cs)
  {
    i, x :| H.Got(cfg.http, sources, n, i, v, serial, x, cs);
    LiftFetch(cfg, run, sources, n, i, v, serial, x, cs);
  }

  lemma LiftHit(
      cfg: Config, run: seq<State>, sources: seq<H.State>, j: nat, u: Thread, v: Thread, p: nat, m: nat)
    requires IsHttpRun(cfg, run) && |sources| == |run| && forall i :: 0 <= i < |run| ==> run[i].src == Http(sources[i])
    requires j < |run| && u in sources[j].calls && sources[j].calls[u].Finished? && sources[j].calls[u].origin.Hit?
    requires
      var c := sources[j].calls[u];
      && p < j && v in sources[p].calls && sources[p].calls[v] == H.Recorded(c.serial, c.origin.entry.status)
      && Plus(sources[p].now, cfg.http.cacheTtl) == c.origin.entry.expiresAt
      && H.TestedAt(sources, j, m, u, c.serial, c.origin.entry, c.origin.at)
      && sources[m].now.mono < sources[p].now.mono + cfg.http.cacheTtl
    ensures
      var c := sources[j].calls[u];
      && StampedAt(cfg, run, j, p, v, c.serial, c.origin.entry) && HitAt(run, j, m, u, c.serial, c.origin.entry)
      && Elapsed(run, p, m) < cfg.http.cacheTtl
  {
    ClocksAgree(cfg, run, p);
    ClocksAgree(cfg, run, m);
    AnswersTrace(cfg, run, m);
    assert Belongs(run[m], u);
  }

  /** How a finished source call came by its status. */
  lemma FetchBehind(cfg: Config, run: seq<State>, j: nat, u: Thread) returns (w: Way)
    requires IsHttpRun(cfg, run) && j < |run| && Asked(run[j].src, u)
    requires Returned(run[j].src, u).Some? && Returned(run[j].src, u).value.Ok?
    ensures Obtained(cfg, run, j, u, w, Returned(run[j].src, u).value.value)
  {
    var sources := SourcesAreARun(cfg, run);
    var c := sources[j].calls[u];
    H.AnswersAreSupported(cfg.http, sources, j, u);
    if c.origin.Fetched? {
      var i, x := OwnFetch(cfg, run, sources, j, u, c.serial, c.result.value);
      w := ByGet(u, i, x);
    } else {
      var p, v, m := H.HitWasStored(cfg.http, sources, j, u);
      var i, x := OwnFetch(cfg, run, sources, p, v, c.serial, c.result.value);
      assert FetchedAt(cfg, run, j, i, v, c.serial, x, c.result.value);
      LiftHit(cfg, run, sources, j, u, v, p, m);
      w := ByHit(v, i, x, p, m);
    }
  }

  /** The reply of `t` rests on `b`, whose source call returned in step `j` with what it obtained in way `w`. */
  ghost predicate Because(cfg: Config, run: seq<State>, n: nat, t: Thread, b: R.Basis, j: nat, w: Way, cs: CertStatus) {
    && Based(cfg, run, n, t, b) && ReturnedAt(run, n, j, b.k)
    && Obtained(cfg, run, j, R.Asker(t, b), w, cs) && w.x.url == S.UrlFor(cfg.http, run[n].resp.reqs[t].serial)
    && Answers(cfg.resp.validity, run[n].resp.reqs[t].serial, Ok(Some(cs)), run[n].resp.reqs[t].der)
    && (ClockForward(run) ==> w.x.at <= run[n].resp.answers[b.k].at <= run[n].resp.reqs[t].der.thisUpdate)
    && (b.Cached? ==> j < b.o.h && InTime(cfg, run, run[n].resp.reqs[t].der, b.o.h, b.g))
  }

  /** Whatever a reply rests on, if the source answered then that call obtained the answer from a GET. */
  lemma WayBehindBasis(cfg: Config, run: seq<State>, n: nat, t: Thread, b: R.Basis)
    returns (j: nat, w: Way, cs: CertStatus)
    requires IsHttpRun(cfg, run) && Based(cfg, run, n, t, b) && run[n].resp.answers[b.k].result.Ok?
    ensures Because(cfg, run, n, t, b, j, w, cs)
  {
    var r := run[n].resp.reqs[t];
    j := ReturnOfAnswer(cfg, run, n, b.k);
    cs := Returned(run[j].src, R.Asker(t, b)).value.value;
    w := FetchBehind(cfg, run, j, R.Asker(t, b));
    if ClockForward(run) { ClockOrder(run, w.i, j); }
    if b.Cached? {
      ReturnsBeforeInsertion(cfg, run, n, r.serial, b.o, j);
      CachedReplyInTime(cfg, run, n, t, b);
    }
  }

  /**
   A `good` reply, fresh or through either cache, in any interleaving, rests on the source call of one
   request: its own, or if it is cached that of the request that inserted it. That call obtained the answer
   from a 200 reply, with a status value in the good list, to a GET of the URL of the requested serial: a GET
   that it sent itself, or one sent by the call that stamped the entry which it found unexpired at the clock
   of the step that tested it. If the path template mentions the serial, that URL belongs to no other serial.
   */
  lemma GoodRepliesAreJustified(cfg: Config, run: seq<State>, n: nat, t: Thread)
    returns (b: R.Basis, j: nat, w: Way)
    requires IsHttpRun(cfg, run) && n < |run|
    requires t in run[n].resp.reqs && run[n].resp.reqs[t].Replied? && run[n].resp.reqs[t].der.status.Good?
    ensures
      var r := run[n].resp.reqs[t];
      && r.der.serial == r.serial
      && Because(cfg, run, n, t, b, j, w, S.Plain(Good))
      && S.Says(cfg.http.mapping, w.x.reply, cfg.http.mapping.goodValues)
      && (ContainsPlaceholder(cfg.http.mapping.pathTemplate) ==>
            forall other :: other != r.serial ==> S.UrlFor(cfg.http, other) != S.UrlFor(cfg.http, r.serial))
      && (b.Cached? <==> r.via.FromCache?)
      && (b.Cached? && r.der.nextUpdate != ZERO_TIME && NeverStepped(run) ==>
            run[b.g].resp.now.wall < r.der.nextUpdate)
  {
    var r, cs := run[n].resp.reqs[t], S.Plain(Good);
    b, j := CallBehindReply(cfg, run, n, t);
    ResponseIsFaithful(cfg.resp.validity, r.serial, run[n].resp.answers[b.k].result, r.der);
    j, w, cs := WayBehindBasis(cfg, run, n, t, b);
    ResponseIsFaithful(cfg.resp.validity, r.serial, Ok(Some(cs)), r.der);
    S.MappingMeaning(cfg.http.mapping, w.x.reply, w.x.at);
    if b.Cached? { CachedReplyInTime(cfg, run, n, t, b); }
    forall other | other != r.serial && ContainsPlaceholder(cfg.http.mapping.pathTemplate)
      ensures S.UrlFor(cfg.http, other) != S.UrlFor(cfg.http, r.serial)
    {
      UrlsCollideIffNoPlaceholder(cfg.http.baseUrl, cfg.http.mapping.pathTemplate, other, r.serial);
    }
  }

  /**
   Staleness through the caches, on the monotonic clock. If the source call hit its cache in step `m`, a cached
   reply is served less than cacheTtl + ttl + (insertion - hit) after the upstream answer was stamped in step
   `p`; if it sent the GET itself, less than ttl + (insertion - GET) after that. A wall clock set back adds
   to this only if the entry expires by the wall clock.
   */
  lemma TwoLevelStaleness(cfg: Config, run: seq<State>, n: nat, t: Thread, b: R.Basis)
    returns (j: nat, w: Way, cs: CertStatus)
    requires IsHttpRun(cfg, run) && Based(cfg, run, n, t, b) && b.Cached? && run[n].resp.answers[b.k].result.Ok?
    ensures Because(cfg, run, n, t, b, j, w, cs)
    ensures
      var h, g, ttl := b.o.h, b.g, cfg.resp.cache.ttl;
      var extra := Setback(cfg, run[n].resp.reqs[t].der, run[h].resp.now, run[g].resp.now);
      match w
      case ByHit(_, _, _, p, m) =>
        && Elapsed(run, p, g) < cfg.http.cacheTtl + ttl + Elapsed(run, m, h) + extra
        && m < h && 0 <= Elapsed(run, m, h)
      case ByGet(_, i, _) =>
        && Elapsed(run, i, g) < ttl + Elapsed(run, i, h) + extra
        && i < h && 0 <= Elapsed(run, i, h)
  {
    j, w, cs := WayBehindBasis(cfg, run, n, t, b);
    TimerOrder(cfg, run, if w.ByHit? then w.m else w.i, b.o.h);
  }
}
