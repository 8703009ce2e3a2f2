/**
 The responder composed with a concrete source: requests and cache locks on one side, the goroutines of the
 CRL source or of the HTTP source on the other, a common clock, and the calls between them.
 */
module SourcedResponder {
  import opened Types
  import opened Signer
  import opened Responder
  import opened SerialText
  import R = ResponderProtocol
  import RC = ResponseCache
  import F = FileProtocol
  import H = HttpProtocol
  import CrlSource
  import HttpSource

  datatype Source = File(file: F.State) | Http(http: H.State)

  /** `issuer` is the subject of the certificate that the responder passes to every lookup. */
  datatype Config = Config(
    resp: R.Config,
    crl: CrlSource.Config,
    issuer: Option<CrlSource.Name>,
    http: HttpSource.Config)

  datatype State = State(resp: R.State, src: Source)

  // ---- What the responder can see of a source ----

  /** CRL times carry no monotonic reading, so the CRL source only ever uses the wall clock. */
  function AtTime(src: Source, time: Reading): Source {
    if src.File? then File(src.file.(now := time.wall)) else Http(src.http.(now := time))
  }

  /** The source and the responder read the same clock. */
  predicate InStep(s: State) { s.src == AtTime(s.src, s.resp.now) }

  /** Goroutine `t` has called the source. */
  predicate Asked(src: Source, t: Thread) { if src.File? then t in src.file.looks else t in src.http.calls }

  function AskedFor(src: Source, t: Thread): int
    requires Asked(src, t)
  {
    if src.File? then src.file.looks[t].serial else src.http.calls[t].serial
  }

  /** The result of the call, once there is one. */
  function Returned(src: Source, t: Thread): Option<Result<CertStatus>>
    requires Asked(src, t)
  {
    if src.File? then (if src.file.looks[t].Finished? then Some(src.file.looks[t].result) else None)
    else (if src.http.calls[t].Finished? then Some(src.http.calls[t].result) else None)
  }

  function WithCall(cfg: Config, src: Source, t: Thread, serial: int): Source {
    if src.File? then File(src.file.(looks := src.file.looks[t := F.Called(serial, cfg.issuer)]))
    else Http(H.SetCall(src.http, t, H.Called(serial)))
  }

  /** A source goroutine, or a call already under way, moves by itself. */
  ghost predicate Moves(cfg: Config, src: Source, src': Source) {
    match src
    case File(s) =>
      src'.File? && (F.ReloadNext(cfg.crl, s, src'.file)
                     || exists t: Thread, a: F.LookStep :: !a.Call? && F.LookEnabled(s, t, a)
                          && src'.file == s.(looks := s.looks[t := F.NextLook(cfg.crl, s, t, a)]))
    case Http(s) =>
      src'.Http? && exists t: Thread, a: H.CallStep :: !a.Begin? && H.Enabled(cfg.http, s, t, a)
                      && src'.http == H.Apply(cfg.http, s, t, a)
  }

  // ---- The composed system ----

  ghost predicate Advances(s: State, s': State) {
    exists time: Reading ::
      s.resp.now.mono <= time.mono && s' == State(s.resp.(now := time), AtTime(s.src, time))
  }

  /** A request or the cache moves by itself. */
  ghost predicate RequestMoves(cfg: Config, s: State, s': State) {
    exists a: R.Action :: !a.Tick? && !a.Return? && R.Enabled(cfg.resp, s.resp, a)
                          && s' == s.(resp := R.Apply(cfg.resp, s.resp, a))
  }

  ghost predicate SourceMoves(cfg: Config, s: State, s': State) {
    s'.resp == s.resp && Moves(cfg, s.src, s'.src)
  }

  predicate Asking(s: State, t: Thread) { t in s.resp.reqs && s.resp.reqs[t].Asking? }

  /** A request that missed the cache calls the source. */
  ghost predicate CallsSource(cfg: Config, s: State, s': State) {
    exists t: Thread :: Asking(s, t) && !Asked(s.src, t)
                        && s' == s.(src := WithCall(cfg, s.src, t, s.resp.reqs[t].serial))
  }

  /** How `Handle` sees what `GetStatus` returned. */
  function AsSourceResult(r: Result<CertStatus>): SourceResult {
    match r
    case Ok(cs) => Ok(Some(cs))
    case Err(f) => Err(f)
  }

  predicate Ready(s: State, t: Thread) { Asking(s, t) && Asked(s.src, t) && Returned(s.src, t).Some? }

  function Answered(cfg: Config, s: State, t: Thread): State
    requires Ready(s, t)
  {
    s.(resp := R.Apply(cfg.resp, s.resp, R.Return(t, AsSourceResult(Returned(s.src, t).value))))
  }

  /** The source's result reaches the request that asked. */
  ghost predicate SourceReturns(cfg: Config, s: State, s': State) {
    exists t: Thread :: Ready(s, t) && s' == Answered(cfg, s, t)
  }

  ghost predicate Next(cfg: Config, s: State, s': State) {
    || Advances(s, s')
    || RequestMoves(cfg, s, s')
    || SourceMoves(cfg, s, s')
    || CallsSource(cfg, s, s')
    || SourceReturns(cfg, s, s')
  }

  ghost predicate Linked(cfg: Config, run: seq<State>, i: nat)
    requires i + 1 < |run|
  {
    Next(cfg, run[i], run[i + 1])
  }

  /** The responder starts idle beside a source on which nobody has called yet. */
  predicate Init(s: State) {
    && R.Init(s.resp) && InStep(s)
    && (if s.src.File? then s.src.file.looks == map[] else s.src.http.calls == map[])
  }

  ghost predicate IsRun(cfg: Config, run: seq<State>) {
    run != [] && Init(run[0]) && forall i: nat :: i < |run| - 1 ==> Linked(cfg, run, i)
  }

  predicate ClockForward(run: seq<State>) {
    forall i :: 0 <= i < |run| - 1 ==> run[i].resp.now.wall <= run[i + 1].resp.now.wall
  }

  // ---- The responder's half ----

  lemma MovesKeepCalls(cfg: Config, src: Source, src': Source, t: Thread)
    requires Moves(cfg, src, src')
    ensures forall time :: src == AtTime(src, time) ==> src' == AtTime(src', time)
    ensures Asked(src', t) <==> Asked(src, t)
    ensures Asked(src, t) ==> AskedFor(src', t) == AskedFor(src, t)
    ensures Asked(src, t) && Returned(src, t).Some? ==> Returned(src', t) == Returned(src, t)
  {
    if src.File? && F.ReloadNext(cfg.crl, src.file, src'.file) {
      ReloadKeepsLooks(cfg.crl, src.file, src'.file);
    } else if src.Http? {
      var u: Thread, a: H.CallStep :| !a.Begin? && H.Enabled(cfg.http, src.http, u, a)
                                      && src'.http == H.Apply(cfg.http, src.http, u, a);
      CallKeepsSerials(cfg.http, src.http, u, a);
    }
  }

  lemma ReloadKeepsLooks(cfg: CrlSource.Config, s: F.State, s': F.State)
    requires F.ReloadNext(cfg, s, s')
    ensures s'.looks == s.looks && s'.now == s.now
  {
  }

  lemma CallKeepsSerials(cfg: HttpSource.Config, s: H.State, t: Thread, a: H.CallStep)
    requires !a.Begin? && H.Enabled(cfg, s, t, a)
    ensures
      var s' := H.Apply(cfg, s, t, a);
      && s'.now == s.now && s'.calls.Keys == s.calls.Keys
      && forall u: Thread :: u in s.calls ==>
           s'.calls[u].serial == s.calls[u].serial && (s.calls[u].Finished? ==> s'.calls[u] == s.calls[u])
  {
  }

  lemma ClockStep(cfg: Config, s: State, s': State)
    requires Next(cfg, s, s') && InStep(s)
    ensures InStep(s')
  {
    if SourceMoves(cfg, s, s') { MovesKeepCalls(cfg, s.src, s'.src, 0); }
  }

  lemma {:induction false} ClocksAgree(cfg: Config, run: seq<State>, n: nat)
    requires IsRun(cfg, run) && n < |run|
    ensures InStep(run[n])
  {
    if n > 0 {
      ClocksAgree(cfg, run, n - 1);
      assert Linked(cfg, run, n - 1);
      ClockStep(cfg, run[n - 1], run[n]);
    }
  }

  lemma {:induction false} ClockOrder(run: seq<State>, i: nat, j: nat)
    requires ClockForward(run) && i <= j < |run|
    ensures run[i].resp.now.wall <= run[j].resp.now.wall
    decreases j
  {
    if i < j {
      ClockOrder(run, i, j - 1);
      assert run[j - 1].resp.now.wall <= run[j - 1 + 1].resp.now.wall;
    }
  }

  function Requests(run: seq<State>): (r: seq<R.State>)
    ensures |r| == |run| && forall i :: 0 <= i < |run| ==> r[i] == run[i].resp
  {
    seq(|run|, i requires 0 <= i < |run| => run[i].resp)
  }

  lemma RequestsStep(cfg: Config, s: State, s': State)
    requires Next(cfg, s, s')
    ensures R.Step(cfg.resp, s.resp, s'.resp)
  {
    if Advances(s, s') {
      var time: Reading :| s.resp.now.mono <= time.mono && s' == State(s.resp.(now := time), AtTime(s.src, time));
      assert s'.resp == R.Apply(cfg.resp, s.resp, R.Tick(time));
    }
  }

  /** The responder's half of a composed run is a run of the responder over an arbitrary source. */
  lemma RequestsAreARun(cfg: Config, run: seq<State>)
    requires IsRun(cfg, run)
    ensures R.IsRun(cfg.resp, Requests(run))
    ensures ClockForward(run) ==> R.ClockForward(Requests(run))
  {
    forall i: nat | i < |run| - 1 ensures R.Linked(cfg.resp, Requests(run), i) {
      assert Linked(cfg, run, i);
      RequestsStep(cfg, run[i], run[i + 1]);
    }
  }

  // ---- Every answer is the result of the source call of the request that works from it ----

  /**
   In step `j` the `k`th answer was handed to the request that is recorded with it: the request was waiting,
   its own call for its own serial had returned that result, and the clock read what is recorded.
   */
  predicate ReturnedAt(run: seq<State>, n: nat, j: nat, k: nat) {
    && j < n < |run| && k < |run[n].resp.answers|
    && var a := run[n].resp.answers[k];
       && Ready(run[j], a.thread) && |run[j].resp.answers| == k
       && run[j].resp.reqs[a.thread].serial == a.serial && AskedFor(run[j].src, a.thread) == a.serial
       && AsSourceResult(Returned(run[j].src, a.thread).value) == a.result
       && run[j].resp.now.wall == a.at
  }

  ghost predicate Traced(run: seq<State>, n: nat, k: nat) { exists j: nat :: ReturnedAt(run, n, j, k) }

  ghost predicate AnswersOk(run: seq<State>, n: nat)
    requires n < |run|
  {
    forall k: nat :: k < |run[n].resp.answers| ==> Traced(run, n, k)
  }

  /** A source call belongs to the request of the same goroutine, is for its serial, and keeps it waiting. */
  predicate Belongs(s: State, t: Thread)
    requires Asked(s.src, t)
  {
    && t in s.resp.reqs && !s.resp.reqs[t].Arrived? && !s.resp.reqs[t].Looking?
    && (Returned(s.src, t).None? ==> s.resp.reqs[t].Asking?)
    && (s.resp.reqs[t].Asking? ==> AskedFor(s.src, t) == s.resp.reqs[t].serial)
  }

  ghost predicate CallsOk(s: State) { forall t: Thread :: Asked(s.src, t) ==> Belongs(s, t) }

  lemma RequestKeepsCalls(cfg: Config, s: State, a: R.Action, t: Thread)
    requires R.Enabled(cfg.resp, s.resp, a) && Asked(s.src, t) && Belongs(s, t)
    requires a.Return? && a.t == t ==> Returned(s.src, t).Some?
    ensures Belongs(s.(resp := R.Apply(cfg.resp, s.resp, a)), t)
  {
  }

  lemma CallKeepsCalls(cfg: Config, s: State, s': State, t: Thread)
    requires CallsOk(s) && CallsSource(cfg, s, s') && Asked(s'.src, t)
    ensures Belongs(s', t)
  {
    assert Asked(s.src, t) ==> Belongs(s, t);
  }

  lemma CallsStep(cfg: Config, s: State, s': State, t: Thread)
    requires CallsOk(s) && Next(cfg, s, s') && Asked(s'.src, t)
    ensures Belongs(s', t)
  {
    if RequestMoves(cfg, s, s') {
      var a: R.Action :| !a.Tick? && !a.Return? && R.Enabled(cfg.resp, s.resp, a)
                         && s' == s.(resp := R.Apply(cfg.resp, s.resp, a));
      RequestKeepsCalls(cfg, s, a, t);
    } else if SourceReturns(cfg, s, s') {
      var u: Thread :| Ready(s, u) && s' == Answered(cfg, s, u);
      RequestKeepsCalls(cfg, s, R.Return(u, AsSourceResult(Returned(s.src, u).value)), t);
    } else if CallsSource(cfg, s, s') {
      CallKeepsCalls(cfg, s, s', t);
    } else if SourceMoves(cfg, s, s') {
      MovesKeepCalls(cfg, s.src, s'.src, t);
      assert Belongs(s, t);
    } else {
      assert Belongs(s, t);
    }
  }

  /** The only step that records an answer is the return of a source call. */
  lemma AnswersGrow(cfg: Config, s: State, s': State)
    requires Next(cfg, s, s')
    ensures s'.resp.answers == s.resp.answers
      || exists t: Thread :: Ready(s, t) && s'.resp.answers == s.resp.answers
           + [R.Answer(t, s.resp.reqs[t].serial, AsSourceResult(Returned(s.src, t).value), s.resp.now.wall)]
  {
  }

  lemma AnswersStep(cfg: Config, run: seq<State>, n: nat)
    requires n + 1 < |run| && AnswersOk(run, n) && CallsOk(run[n])
    requires Linked(cfg, run, n)
    ensures AnswersOk(run, n + 1)
  {
    var s, s', m := run[n], run[n + 1], n + 1;
    AnswersGrow(cfg, s, s');
    forall k: nat | k < |s'.resp.answers| ensures Traced(run, m, k) {
      if k < |s.resp.answers| {
        assert s'.resp.answers[k] == s.resp.answers[k] && Traced(run, n, k);
        var j: nat :| ReturnedAt(run, n, j, k);
        assert ReturnedAt(run, m, j, k);
      } else {
        var t: Thread :| Ready(s, t) && s'.resp.answers == s.resp.answers
          + [R.Answer(t, s.resp.reqs[t].serial, AsSourceResult(Returned(s.src, t).value), s.resp.now.wall)];
        assert Belongs(s, t);
        assert ReturnedAt(run, m, n, k);
      }
    }
  }

  lemma TraceStep(cfg: Config, run: seq<State>, n: nat)
    requires IsRun(cfg, run) && n + 1 < |run| && AnswersOk(run, n) && CallsOk(run[n])
    ensures AnswersOk(run, n + 1) && CallsOk(run[n + 1])
  {
    assert Linked(cfg, run, n);
    AnswersStep(cfg, run, n);
    var s, s' := run[n], run[n + 1];
    forall t: Thread | Asked(s'.src, t) ensures Belongs(s', t) { CallsStep(cfg, s, s', t); }
  }

  lemma {:induction false} AnswersTrace(cfg: Config, run: seq<State>, n: nat)
    requires IsRun(cfg, run) && n < |run|
    ensures AnswersOk(run, n) && CallsOk(run[n])
  {
    if n > 0 {
      AnswersTrace(cfg, run, n - 1);
      TraceStep(cfg, run, n - 1);
    }
  }

  /** What the reply of `t` rests on. */
  ghost predicate Based(cfg: Config, run: seq<State>, n: nat, t: Thread, b: R.Basis) {
    R.Based(cfg.resp, ClockForward(run), Requests(run), n, t, b)
  }

  lemma ReturnOfAnswer(cfg: Config, run: seq<State>, n: nat, k: nat) returns (j: nat)
    requires IsRun(cfg, run) && n < |run| && k < |run[n].resp.answers|
    ensures ReturnedAt(run, n, j, k)
  {
    AnswersTrace(cfg, run, n);
    assert Traced(run, n, k);
    j :| ReturnedAt(run, n, j, k);
  }

  /**
   The source call behind a reply, whichever way the reply came: whose it was, and the step in which it
   returned. It is the request's own for a fresh reply, and that of the request that inserted the bytes for a
   cached one.
   */
  lemma CallBehindReply(cfg: Config, run: seq<State>, n: nat, t: Thread) returns (b: R.Basis, j: nat)
    requires IsRun(cfg, run) && n < |run|
    requires t in run[n].resp.reqs && run[n].resp.reqs[t].Replied?
    ensures Based(cfg, run, n, t, b) && ReturnedAt(run, n, j, b.k)
    ensures b.Cached? <==> run[n].resp.reqs[t].via.FromCache?
  {
    RequestsAreARun(cfg, run);
    b := R.ReplyTraces(cfg.resp, ClockForward(run), Requests(run), n, t);
    j := ReturnOfAnswer(cfg, run, n, b.k);
  }

  /** The request that inserted a cached entry, and its own source call that the entry stems from. */
  lemma CallBehindEntry(cfg: Config, run: seq<State>, n: nat, key: string) returns (o: R.Origin, j: nat)
    requires IsRun(cfg, run) && n < |run| && key in run[n].resp.cache.entries
    ensures
      var e := run[n].resp.cache.entries[key];
      && R.EntryFrom(cfg.resp, ClockForward(run), Requests(run), n, key, e, o)
      && ReturnedAt(run, n, j, o.k)
      && (ClockForward(run) ==> run[n].resp.answers[o.k].at < RC.WallOf(e.expiresAt))
  {
    RequestsAreARun(cfg, run);
    o := R.CachedEntriesTrace(cfg.resp, ClockForward(run), Requests(run), n, key);
    j := ReturnOfAnswer(cfg, run, n, o.k);
  }

  // ---- Cached replies and a wall clock that may be stepped ----

  /** The wall clock is never stepped: it advances with the monotonic clock. */
  predicate NeverStepped(run: seq<State>) {
    forall i :: 0 <= i < |run| - 1 ==> Gain(run[i].resp.now, run[i + 1].resp.now) == 0
  }

  lemma {:induction false} NoGain(run: seq<State>, i: nat, j: nat)
    requires NeverStepped(run) && i <= j < |run|
    ensures Gain(run[i].resp.now, run[j].resp.now) == 0
    decreases j
  {
    if i < j {
      NoGain(run, i, j - 1);
      assert Gain(run[j - 1].resp.now, run[j - 1 + 1].resp.now) == 0;
    }
  }

  /** How much monotonic time passed between two moments of the run. */
  function Elapsed(run: seq<State>, i: nat, j: nat): Duration
    requires i < |run| && j < |run|
  {
    run[j].resp.now.mono - run[i].resp.now.mono
  }

  /** By how much a wall clock set back has prolonged an entry that expires by the wall clock. */
  function Setback(cfg: Config, der: Signed, put: Reading, got: Reading): Duration {
    if RC.ExpiryOf(cfg.resp.cache, put, der.nextUpdate).ByWall? then -Gain(put, got) else 0
  }

  /**
   What holds of cached bytes inserted in step `h` and found in step `g`. They are before their signed deadline
   unless that lay beyond the end of the TTL and the wall clock has since gained more than the difference; and
   they are younger than the TTL, but for what a wall clock set back has added.
   */
  predicate InTime(cfg: Config, run: seq<State>, der: Signed, h: nat, g: nat)
    requires h < |run| && g < |run|
  {
    var put, got := run[h].resp.now, run[g].resp.now;
    var end := put.wall + cfg.resp.cache.ttl;
    && Elapsed(run, h, g) < cfg.resp.cache.ttl + Setback(cfg, der, put, got)
    && (der.nextUpdate != ZERO_TIME && (der.nextUpdate < end || end + Gain(put, got) <= der.nextUpdate) ==>
          got.wall < der.nextUpdate)
  }

  /** Every cached reply is served in time, and strictly before its deadline if the wall clock is never stepped. */
  lemma CachedReplyInTime(cfg: Config, run: seq<State>, n: nat, t: Thread, b: R.Basis)
    requires Based(cfg, run, n, t, b) && b.Cached?
    ensures
      var der := run[n].resp.reqs[t].der;
      && InTime(cfg, run, der, b.o.h, b.g)
      && (der.nextUpdate != ZERO_TIME ==>
            && (NeverStepped(run) ==> run[b.g].resp.now.wall < der.nextUpdate)
            && (ClockForward(run) ==> der.thisUpdate < der.nextUpdate))
  {
    R.CachedReplyWindow(cfg.resp, ClockForward(run), Requests(run), n, t, b);
    if NeverStepped(run) {
      if b.o.h <= b.g { NoGain(run, b.o.h, b.g); } else { NoGain(run, b.g, b.o.h); }
    }
  }

  /** A request inserts what it made only after its source call has returned. */
  lemma ReturnsBeforeInsertion(cfg: Config, run: seq<State>, n: nat, serial: int, o: R.Origin, j: nat)
    requires IsRun(cfg, run) && ReturnedAt(run, n, j, o.k)
    requires R.SetFrom(cfg.resp, ClockForward(run), Requests(run), n, serial, o)
    ensures j < o.h
  {
    if o.h <= j {
      RequestsAreARun(cfg, run);
      R.HistoryGrows(cfg.resp, Requests(run), o.h, j);
    }
  }

  lemma TimerOrder(cfg: Config, run: seq<State>, i: nat, j: nat)
    requires IsRun(cfg, run) && i <= j < |run|
    ensures 0 <= Elapsed(run, i, j)
  {
    RequestsAreARun(cfg, run);
    R.HistoryGrows(cfg.resp, Requests(run), i, j);
  }
}
