/** Whole runs in which the responder serves a reply whose deadline has already passed. */
module WitnessRuns {
  import opened Types
  import opened Signer
  import opened CrlSource
  import opened Responder
  import opened ResponseCache
  import opened SerialText
  import opened SourcedResponder
  import opened FileResponder
  import R = ResponderProtocol
  import F = FileProtocol
  import C = CacheProtocol

  /** The goroutines that serve the first and the second request. */
  const T: Thread := 0
  const U: Thread := 1

  function Last(run: seq<State>): State
    requires run != []
  {
    run[|run| - 1]
  }

  lemma Extend(cfg: SourcedResponder.Config, run: seq<State>, s: State) returns (run': seq<State>)
    requires IsRun(cfg, run) && Next(cfg, Last(run), s)
    ensures IsRun(cfg, run') && run'[0] == run[0] && Last(run') == s
  {
    run' := run + [s];
    forall i: nat | i < |run'| - 1 ensures Linked(cfg, run', i) {
      if i < |run| - 1 { assert Linked(cfg, run, i); }
    }
  }

  lemma ByRequest(cfg: SourcedResponder.Config, run: seq<State>, a: R.Action) returns (run': seq<State>)
    requires IsRun(cfg, run) && !a.Tick? && !a.Return? && R.Enabled(cfg.resp, Last(run).resp, a)
    ensures IsRun(cfg, run') && run'[0] == run[0]
    ensures Last(run') == Last(run).(resp := R.Apply(cfg.resp, Last(run).resp, a))
  {
    var s := Last(run).(resp := R.Apply(cfg.resp, Last(run).resp, a));
    assert RequestMoves(cfg, Last(run), s);
    run' := Extend(cfg, run, s);
  }

  function AfterLook(cfg: SourcedResponder.Config, s: State, a: F.LookStep): State
    requires s.src.File? && F.LookEnabled(s.src.file, T, a)
  {
    s.(src := File(s.src.file.(looks := s.src.file.looks[T := F.NextLook(cfg.crl, s.src.file, T, a)])))
  }

  lemma ByLook(cfg: SourcedResponder.Config, run: seq<State>, a: F.LookStep) returns (run': seq<State>)
    requires IsRun(cfg, run) && Last(run).src.File? && !a.Call? && F.LookEnabled(Last(run).src.file, T, a)
    ensures IsRun(cfg, run') && run'[0] == run[0] && Last(run') == AfterLook(cfg, Last(run), a)
  {
    assert SourceMoves(cfg, Last(run), AfterLook(cfg, Last(run), a));
    run' := Extend(cfg, run, AfterLook(cfg, Last(run), a));
  }

  /** A request arrives, finds the cache empty and turns to the source. */
  lemma MissesCache(cfg: SourcedResponder.Config, run: seq<State>, serial: int) returns (run': seq<State>)
    requires IsRun(cfg, run) && R.Init(Last(run).resp)
    ensures IsRun(cfg, run') && run'[0] == run[0]
    ensures
      var s, e := Last(run), Last(run');
      && e.src == s.src && e.resp.now == s.resp.now && e.resp.reqs == map[T := R.Asking(serial)]
      && e.resp.answers == [] && e.resp.cache.entries == map[] && e.resp.cache.writer.None?
      && R.CacheDone(e.resp, T) && U !in e.resp.cache.threads
  {
    run' := ByRequest(cfg, run, R.Arrive(T, Ok(serial)));
    run' := ByRequest(cfg, run', R.Lookup(T));
    run' := ByRequest(cfg, run', R.CacheStep(C.Read(T)));
    run' := ByRequest(cfg, run', R.Resolve(T));
  }

  /** The reads of the snapshot, from taking the clock to releasing the read lock. */
  lemma ReadsUnderLock(cfg: SourcedResponder.Config, run: seq<State>) returns (run': seq<State>)
    requires IsRun(cfg, run) && Last(run).src.File?
    requires
      var looks := Last(run).src.file.looks;
      looks.Keys == {T} && looks[T].Locked?
    ensures IsRun(cfg, run') && run'[0] == run[0]
    ensures
      var f := Last(run).src.file;
      var l := f.looks[T];
      Last(run') == Last(run).(src := File(f.(looks := map[T := F.Unlocked(
        l.serial, l.issuer, f.now, f.thisUpdate, f.nextUpdate, F.Find(f.revoked, l.serial))])))
  {
    run' := ByLook(cfg, run, F.TakeClock);
    run' := ByLook(cfg, run', F.TakeWindow);
    run' := ByLook(cfg, run', F.TakeEntry);
    run' := ByLook(cfg, run', F.RUnlock);
    var looks := Last(run').src.file.looks;
    assert looks == map[T := looks[T]];
  }

  /** The source call runs undisturbed from beginning to end. */
  lemma LooksUp(cfg: SourcedResponder.Config, run: seq<State>, serial: int) returns (run': seq<State>)
    requires IsRun(cfg, run) && Last(run).src.File? && Asking(Last(run), T)
    requires Last(run).resp.reqs[T].serial == serial
    requires
      var f := Last(run).src.file;
      f.looks == map[] && f.loaded && !F.WriteLocked(f)
    ensures IsRun(cfg, run') && run'[0] == run[0]
    ensures
      var f := Last(run).src.file;
      Last(run') == Last(run).(src := File(f.(looks := map[T := F.Finished(
        serial, cfg.issuer, Some(f.now), LookupAt(cfg.crl, F.Gen(f), serial, cfg.issuer, f.now))])))
  {
    var s := Last(run);
    var called := s.(src := WithCall(cfg, s.src, T, serial));
    assert CallsSource(cfg, s, called);
    run' := Extend(cfg, run, called);
    run' := ByLook(cfg, run', F.TestLoaded);
    run' := ByLook(cfg, run', F.RLock);
    run' := ReadsUnderLock(cfg, run');
    F.ConcludesLikeLookup(cfg.crl, Last(run').src.file.looks[T], F.Gen(s.src.file));
    run' := ByLook(cfg, run', F.Finish);
    var looks := Last(run').src.file.looks;
    assert looks == map[T := looks[T]];
  }

  /** The answer comes back, is signed, is not worth storing, and is served. */
  lemma Replies(cfg: SourcedResponder.Config, run: seq<State>, serial: int, cs: CertStatus)
    returns (run': seq<State>)
    requires IsRun(cfg, run) && Ready(Last(run), T) && Returned(Last(run).src, T).value == Ok(cs)
    requires !cs.status.Other? && cs.sourceNextUpdate != ZERO_TIME && WholeSecond(cs.sourceNextUpdate)
    requires
      var s := Last(run).resp;
      && cs.sourceNextUpdate < s.now.wall && cfg.resp.validity > 0 && s.reqs == map[T := R.Asking(serial)]
      && s.answers == [] && s.cache.entries == map[] && R.CacheDone(s, T)
    ensures IsRun(cfg, run') && run'[0] == run[0]
    ensures
      var s, e := Last(run).resp, Last(run').resp;
      && e.reqs.Keys == {T} && e.reqs[T].Replied? && e.reqs[T].via == R.FromSource(0)
      && e.cache.entries == map[]
      && Answers(cfg.resp.validity, serial, Ok(Some(cs)), e.reqs[T].der)
      && e.reqs[T].der.nextUpdate == cs.sourceNextUpdate < e.reqs[T].der.thisUpdate == s.now.wall
  {
    var s := Last(run);
    assert SourceReturns(cfg, s, Answered(cfg, s, T));
    run' := Extend(cfg, run, Answered(cfg, s, T));
    run' := ByRequest(cfg, run', R.Sign(T, true));
    run' := ByRequest(cfg, run', R.Store(T));
    run' := ByRequest(cfg, run', R.CacheStep(C.Guard(T)));
    run' := ByRequest(cfg, run', R.Reply(T));
  }

  /**
   For every CRL that is loaded past its NextUpdate but within the grace, and every serial, some run of the
   whole system replies with what that CRL says, signed with a deadline before its own thisUpdate, as
   encoded too from one second past NextUpdate on, and leaves the cache empty.
   */
  lemma GraceAnswersAreServed(
      cfg: SourcedResponder.Config, first: Bytes, start: Time, s: State, serial: int, crl: Crl)
    returns (run: seq<State>)
    requires Init(s) && s.src.File? && F.Init(cfg.crl, first, start, s.src.file)
    requires Load(cfg.crl, first) == Ok(crl) && cfg.issuer == Some(cfg.crl.subject) && cfg.resp.validity > 0
    requires crl.nextUpdate != ZERO_TIME && WholeSecond(crl.nextUpdate)
    requires crl.nextUpdate < s.resp.now.wall && GenUsable(cfg.crl, GenOf(crl), s.resp.now.wall)
    ensures IsFileRun(cfg, first, start, run) && run[0] == s
    ensures
      var e := Last(run).resp;
      && T in e.reqs && e.reqs[T].Replied? && e.reqs[T].via.FromSource? && e.cache.entries == map[]
      && Says(cfg, crl, serial, e.reqs[T].der)
      && e.reqs[T].der.nextUpdate == crl.nextUpdate < e.reqs[T].der.thisUpdate
      && (crl.nextUpdate + SECOND <= s.resp.now.wall ==>
            e.reqs[T].der.nextUpdate < TruncateToSecond(e.reqs[T].der.thisUpdate))
  {
    assert IsRun(cfg, [s]);
    run := MissesCache(cfg, [s], serial);
    run := LooksUp(cfg, run, serial);
    StatusMatchesList(GenOf(crl), crl, serial);
    run := Replies(cfg, run, serial, StatusIn(GenOf(crl), serial));
  }

  // ---- A wall clock stepped forward ----

  /** The answer comes back, is signed, is stored with the TTL as its expiry, and is served. */
  lemma Stores(cfg: SourcedResponder.Config, run: seq<State>, serial: int, cs: CertStatus, d: Time)
    returns (run': seq<State>)
    requires IsRun(cfg, run) && Ready(Last(run), T) && Returned(Last(run).src, T).value == Ok(cs)
    requires !cs.status.Other? && cfg.resp.cache.enabled && cfg.resp.cache.maxEntries > 0 && cfg.resp.cache.ttl > 0
    requires
      var s := Last(run).resp;
      && s.reqs == map[T := R.Asking(serial)] && s.answers == []
      && s.cache.entries == map[] && s.cache.writer.None? && R.CacheDone(s, T) && U !in s.cache.threads
      && d == TruncateToSecond(Limit(cfg.resp.validity, s.now.wall, cs.sourceNextUpdate))
      && d != ZERO_TIME && s.now.wall + cfg.resp.cache.ttl <= d
    ensures IsRun(cfg, run') && run'[0] == run[0]
    ensures
      var s, e := Last(run).resp, Last(run').resp;
      && e.now == s.now && e.reqs.Keys == {T} && e.cache.writer.None? && U !in e.cache.threads
      && exists der ::
           && Answers(cfg.resp.validity, serial, Ok(Some(cs)), der) && der.nextUpdate == d
           && e.cache.entries == map[Decimal(serial) := Entry(der, ByTimer(Plus(s.now, cfg.resp.cache.ttl)))]
  {
    var s := Last(run);
    assert SourceReturns(cfg, s, Answered(cfg, s, T));
    run' := Extend(cfg, run, Answered(cfg, s, T));
    run' := ByRequest(cfg, run', R.Sign(T, true));
    var der := Last(run').resp.reqs[T].issued.der;
    run' := ByRequest(cfg, run', R.Store(T));
    run' := Inserts(cfg, run', serial, der);
    run' := ByRequest(cfg, run', R.Reply(T));
  }

  /** The insertion takes the write lock and finds nothing to evict. */
  lemma FindsRoom(cfg: SourcedResponder.Config, run: seq<State>) returns (run': seq<State>)
    requires IsRun(cfg, run) && cfg.resp.cache.maxEntries > 0
    requires
      var s := Last(run).resp.cache;
      && s.entries == map[] && s.writer.None? && T in s.threads && s.threads[T].Called?
      && C.OpStorable(cfg.resp.cache, s.threads[T].op)
    ensures IsRun(cfg, run') && run'[0] == run[0]
    ensures
      var s, c' := Last(run), Last(run').resp.cache;
      && Last(run') == s.(resp := s.resp.(cache := c'))
      && c'.entries == map[] && c'.threads.Keys == s.resp.cache.threads.Keys
      && c'.threads[T] == C.Evicted(s.resp.cache.threads[T].op)
  {
    run' := ByRequest(cfg, run, R.CacheStep(C.Guard(T)));
    run' := ByRequest(cfg, run', R.CacheStep(C.Acquire(T)));
    run' := ByRequest(cfg, run', R.CacheStep(C.Evict(T, "")));
  }

  /** The insertion runs undisturbed into an empty cache. */
  lemma Inserts(cfg: SourcedResponder.Config, run: seq<State>, serial: int, der: Signed) returns (run': seq<State>)
    requires IsRun(cfg, run) && cfg.resp.cache.maxEntries > 0
    requires
      var s := Last(run).resp;
      && s.cache.entries == map[] && s.cache.writer.None? && T in s.cache.threads
      && s.cache.threads[T] == C.Called(C.Set(Decimal(serial), der, s.now, der.nextUpdate))
      && Storable(cfg.resp.cache, s.now, der.nextUpdate)
    ensures IsRun(cfg, run') && run'[0] == run[0]
    ensures
      var s, e := Last(run), Last(run');
      && e.src == s.src && e.resp == s.resp.(cache := e.resp.cache)
      && e.resp.cache.writer.None? && e.resp.cache.threads.Keys == s.resp.cache.threads.Keys && R.CacheDone(e.resp, T)
      && e.resp.cache.entries
         == map[Decimal(serial) := Entry(der, ExpiryOf(cfg.resp.cache, s.resp.now, der.nextUpdate))]
  {
    run' := FindsRoom(cfg, run);
    run' := ByRequest(cfg, run', R.CacheStep(C.Insert(T)));
    run' := ByRequest(cfg, run', R.CacheStep(C.SetGauge(T)));
    run' := ByRequest(cfg, run', R.CacheStep(C.Release(T)));
  }

  /** The wall clock is stepped; the monotonic clock stands still. */
  lemma StepsWall(cfg: SourcedResponder.Config, run: seq<State>, wall: Time) returns (run': seq<State>)
    requires IsRun(cfg, run)
    ensures IsRun(cfg, run') && run'[0] == run[0]
    ensures Last(run').resp == Last(run).resp.(now := Reading(wall, Last(run).resp.now.mono))
  {
    var s, time := Last(run), Reading(wall, Last(run).resp.now.mono);
    assert Advances(s, State(s.resp.(now := time), AtTime(s.src, time)));
    run' := Extend(cfg, run, State(s.resp.(now := time), AtTime(s.src, time)));
  }

  /** A second request for the serial finds the entry. */
  lemma Hits(cfg: SourcedResponder.Config, run: seq<State>, serial: int, e: Entry) returns (run': seq<State>)
    requires IsRun(cfg, run) && cfg.resp.cache.enabled
    requires
      var s := Last(run).resp;
      && U !in s.reqs && U !in s.cache.threads && s.cache.writer.None?
      && s.cache.entries == map[Decimal(serial) := e] && Live(s.now, e.expiresAt)
    ensures IsRun(cfg, run') && run'[0] == run[0]
    ensures
      var s, e' := Last(run).resp, Last(run').resp;
      U in e'.reqs && e'.reqs[U] == R.Replied(serial, e.data, R.FromCache(s.now))
  {
    run' := ByRequest(cfg, run, R.Arrive(U, Ok(serial)));
    run' := ByRequest(cfg, run', R.Lookup(U));
    run' := ByRequest(cfg, run', R.CacheStep(C.Read(U)));
    run' := ByRequest(cfg, run', R.Resolve(U));
  }

  /**
   For every usable CRL and every serial whose reply has a deadline at or beyond the end of the cache TTL, and
   every wall time at or past that deadline: if the wall clock is stepped there while the entry is cached, some
   run serves the entry at that time, past its signed deadline.
   */
  lemma SteppedClockServesPastDeadline(
      cfg: SourcedResponder.Config, first: Bytes, start: Time, s: State, serial: int, crl: Crl, wall: Time)
    returns (run: seq<State>)
    requires Init(s) && s.src.File? && F.Init(cfg.crl, first, start, s.src.file)
    requires Load(cfg.crl, first) == Ok(crl) && cfg.issuer == Some(cfg.crl.subject)
    requires GenUsable(cfg.crl, GenOf(crl), s.resp.now.wall)
    requires cfg.resp.cache.enabled && cfg.resp.cache.maxEntries > 0 && cfg.resp.cache.ttl > 0
    requires
      var d := TruncateToSecond(Limit(cfg.resp.validity, s.resp.now.wall, crl.nextUpdate));
      d != ZERO_TIME && s.resp.now.wall + cfg.resp.cache.ttl <= d <= wall
    ensures IsFileRun(cfg, first, start, run) && run[0] == s
    ensures
      var e := Last(run).resp;
      && U in e.reqs && e.reqs[U].Replied? && e.reqs[U].via == R.FromCache(Reading(wall, s.resp.now.mono))
      && Says(cfg, crl, serial, e.reqs[U].der)
      && e.reqs[U].der.nextUpdate <= wall
  {
    assert IsRun(cfg, [s]);
    run := MissesCache(cfg, [s], serial);
    run := LooksUp(cfg, run, serial);
    StatusMatchesList(GenOf(crl), crl, serial);
    var cs := StatusIn(GenOf(crl), serial);
    run := Stores(cfg, run, serial, cs, TruncateToSecond(Limit(cfg.resp.validity, s.resp.now.wall, crl.nextUpdate)));
    var e := Last(run).resp.cache.entries[Decimal(serial)];
    run := StepsWall(cfg, run, wall);
    run := Hits(cfg, run, serial, e);
  }
}
