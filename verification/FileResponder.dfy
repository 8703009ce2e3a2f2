/** End-to-end results for the responder over the CRL source. */
module FileResponder {
  import opened Types
  import opened Signer
  import opened SerialText
  import opened CrlSource
  import opened CrlReload
  import opened Responder
  import opened ResponseCache
  import opened SourcedResponder
  import R = ResponderProtocol
  import F = FileProtocol

  /** A run whose source is a CRL source constructed from `first` at reading `start`. */
  ghost predicate IsFileRun(cfg: SourcedResponder.Config, first: Bytes, start: Time, run: seq<State>) {
    IsRun(cfg, run) && run[0].src.File? && F.Init(cfg.crl, first, start, run[0].src.file)
  }

  // ---- The source's half ----

  lemma FileStep(cfg: SourcedResponder.Config, s: State, s': State)
    requires Next(cfg, s, s') && s.src.File?
    ensures s'.src.File? && F.Step(cfg.crl, s.src.file, s'.src.file)
  {
    var f := s.src.file;
    if Advances(s, s') {
      assert F.ClockNext(f, s'.src.file);
    } else if CallsSource(cfg, s, s') {
      var t: Thread :| Asking(s, t) && !Asked(s.src, t)
                       && s' == s.(src := WithCall(cfg, s.src, t, s.resp.reqs[t].serial));
      var a := F.Call(s.resp.reqs[t].serial, cfg.issuer);
      assert F.LookEnabled(f, t, a) && s'.src.file == f.(looks := f.looks[t := F.NextLook(cfg.crl, f, t, a)]);
      assert F.LookNext(cfg.crl, f, s'.src.file);
    } else if SourceMoves(cfg, s, s') {
      assert F.LookNext(cfg.crl, f, s'.src.file) || F.ReloadNext(cfg.crl, f, s'.src.file);
    }
  }

  lemma {:induction false} StaysFile(cfg: SourcedResponder.Config, first: Bytes, start: Time, run: seq<State>, n: nat)
    requires IsFileRun(cfg, first, start, run) && n < |run|
    ensures run[n].src.File?
  {
    if n > 0 {
      StaysFile(cfg, first, start, run, n - 1);
      assert Linked(cfg, run, n - 1);
      FileStep(cfg, run[n - 1], run[n]);
    }
  }

  /** The source's half of a composed run is a run of the CRL source under concurrency. */
  lemma FilesAreARun(cfg: SourcedResponder.Config, first: Bytes, start: Time, run: seq<State>)
    returns (files: seq<F.State>)
    requires IsFileRun(cfg, first, start, run)
    ensures F.IsRun(cfg.crl, first, start, files)
    ensures |files| == |run| && forall i :: 0 <= i < |run| ==> run[i].src == File(files[i])
  {
    forall i: nat | i < |run| ensures run[i].src.File? { StaysFile(cfg, first, start, run, i); }
    files := seq(|run|, i requires 0 <= i < |run| => run[i].src.file);
    forall i: nat | i < |run| - 1 ensures F.Linked(cfg.crl, files, i) {
      assert Linked(cfg, run, i);
      FileStep(cfg, run[i], run[i + 1]);
    }
  }

  // ---- Main results ----

  /**
   At moment `i` the generation installed was the one that `crl`, verified against the issuer, installs, and
   the clock lay inside its window.
   */
  ghost predicate InForce(cfg: SourcedResponder.Config, run: seq<State>, i: nat, crl: Crl) {
    && i < |run| && run[i].src.File?
    && Verified(cfg.crl, F.Gen(run[i].src.file), crl)
    && GenUsable(cfg.crl, F.Gen(run[i].src.file), run[i].resp.now.wall)
  }

  /** Before step `i` the lookup of request `u` had read the `loaded` flag and found it set. */
  ghost predicate SawInService(run: seq<State>, i: nat, u: Thread) {
    exists h: nat :: h < i < |run| && run[h].src.File? && run[h].src.file.loaded && Asking(run[h], u)
                     && u in run[h].src.file.looks && run[h].src.file.looks[u].Called?
  }

  /**
   In step `i` the lookup of request `u` for `serial`, while that request was waiting for it, read the clock
   under the read lock, having seen the source in service; `crl` was in force.
   */
  ghost predicate Snapshot(
    cfg: SourcedResponder.Config, run: seq<State>, n: nat, i: nat, u: Thread, serial: int, crl: Crl)
  {
    && i < n < |run| && Asking(run[i], u) && run[i].resp.reqs[u].serial == serial
    && InForce(cfg, run, i, crl) && run[i + 1].src.File? && SawInService(run, i, u)
    && var looks, looks' := run[i].src.file.looks, run[i + 1].src.file.looks;
       && u in looks && looks[u].Locked? && looks[u].serial == serial
       && u in looks' && looks'[u].ReadClock?
  }

  /** A finished lookup that carries a status took it from the one verified CRL in force at its own snapshot. */
  lemma LookupHasEvidence(
      cfg: SourcedResponder.Config, first: Bytes, start: Time, run: seq<State>, j: nat, u: Thread)
    returns (i: nat, crl: Crl)
    requires IsFileRun(cfg, first, start, run) && j < |run| && Asked(run[j].src, u)
    requires Returned(run[j].src, u).Some? && Returned(run[j].src, u).value.Ok?
    ensures Snapshot(cfg, run, j, i, u, AskedFor(run[j].src, u), crl)
    ensures Returned(run[j].src, u).value == Ok(StatusIn(GenOf(crl), AskedFor(run[j].src, u)))
  {
    var files := FilesAreARun(cfg, first, start, run);
    F.LookupSeesOneGeneration(cfg.crl, first, start, files, j, u);
    var l := files[j].looks[u];
    i :| F.Moment(cfg.crl, files, j, i, u, l.serial, l.at.value)
         && l.result == LookupAt(cfg.crl, F.Gen(files[i]), l.serial, l.issuer, l.at.value);
    crl :| Verified(cfg.crl, F.Gen(files[i]), crl);
    LiftMoment(cfg, run, files, j, i, u, l.serial, l.at.value, crl);
  }

  lemma LiftService(cfg: SourcedResponder.Config, run: seq<State>, files: seq<F.State>, i: nat, u: Thread)
    requires IsRun(cfg, run) && |files| == |run| && forall i :: 0 <= i < |run| ==> run[i].src == File(files[i])
    requires F.WasLoaded(files, i, u)
    ensures SawInService(run, i, u)
  {
    var h: nat :| F.LoadedAt(files, i, h, u);
    AnswersTrace(cfg, run, h);
    assert Belongs(run[h], u);
  }

  lemma LiftMoment(
      cfg: SourcedResponder.Config, run: seq<State>, files: seq<F.State>, j: nat, i: nat, u: Thread, serial: int,
      now: Time, crl: Crl)
    requires IsRun(cfg, run) && |files| == |run| && forall i :: 0 <= i < |run| ==> run[i].src == File(files[i])
    requires F.Moment(cfg.crl, files, j, i, u, serial, now)
    requires Verified(cfg.crl, F.Gen(files[i]), crl) && GenUsable(cfg.crl, F.Gen(files[i]), now)
    ensures Snapshot(cfg, run, j, i, u, serial, crl)
  {
    LiftService(cfg, run, files, i, u);
    AnswersTrace(cfg, run, i);
    assert Belongs(run[i], u);
    ClocksAgree(cfg, run, i);
  }

  /**
   The CRL of a snapshot is not a superseded one: unless two of the byte strings read so far share a digest,
   it is the last verifiable CRL among the completed reads, or the one that a tick under way had just installed.
   */
  lemma SnapshotIsNewest(
      cfg: SourcedResponder.Config, first: Bytes, start: Time, run: seq<State>, n: nat, i: nat, u: Thread,
      serial: int, crl: Crl)
    returns (files: seq<F.State>)
    requires IsFileRun(cfg, first, start, run) && Snapshot(cfg, run, n, i, u, serial, crl)
    ensures |files| == |run| && forall j :: 0 <= j < |run| ==> run[j].src == File(files[j])
    ensures cfg.crl.isUrl || NoCollision(cfg.crl, first, F.TurnsOf(files, i)) ==>
      || GenOf(crl) == ReparseRun(cfg.crl, View(F.CoreOf(files[0])), F.TurnsOf(files, i)).gen
      || exists b :: F.JustInstalled(cfg.crl, files[i], b)
  {
    files := FilesAreARun(cfg, first, start, run);
    F.AllOk(cfg.crl, first, start, files, i);
    assert F.Reading(files[i].looks[u]);
    if cfg.crl.isUrl || NoCollision(cfg.crl, first, F.TurnsOf(files, i)) {
      F.GenerationIsNewest(cfg.crl, first, start, files, i);
    }
  }

  /** Section 4.1.2.5.2 of RFC 5280: CRL times carry no fractional seconds. */
  ghost predicate WholeSecondCrls(cfg: SourcedResponder.Config) {
    forall b, crl :: cfg.crl.parse(b) == Some(crl) ==> WholeSecond(crl.nextUpdate)
  }

  /** `der` is the signed form of what `crl` says about `serial`. */
  predicate Says(cfg: SourcedResponder.Config, crl: Crl, serial: int, der: Signed) {
    Answers(cfg.resp.validity, serial, Ok(Some(StatusIn(GenOf(crl), serial))), der)
  }

  /**
   The reply of `t` rests on `b` and is the signed form of what `crl` says, which was in force at the snapshot
   that the source call behind `b` took in step `i`.
   */
  ghost predicate Because(
    cfg: SourcedResponder.Config, run: seq<State>, n: nat, t: Thread, b: R.Basis, i: nat, crl: Crl)
  {
    && Based(cfg, run, n, t, b)
    && var r := run[n].resp.reqs[t];
       && Snapshot(cfg, run, n, i, R.Asker(t, b), r.serial, crl)
       && Says(cfg, crl, r.serial, r.der)
       && (ClockForward(run) ==>
             run[i].resp.now.wall <= run[n].resp.answers[b.k].at <= r.der.thisUpdate)
       && (b.Cached? ==> i < b.o.h && InTime(cfg, run, r.der, b.o.h, b.g))
  }

  lemma SnapshotOfAnswer(
      cfg: SourcedResponder.Config, first: Bytes, start: Time, run: seq<State>, n: nat, j: nat, k: nat)
    returns (i: nat, crl: Crl)
    requires IsFileRun(cfg, first, start, run) && ReturnedAt(run, n, j, k)
    requires run[n].resp.answers[k].result.Ok?
    ensures
      var a := run[n].resp.answers[k];
      && i < j && Snapshot(cfg, run, n, i, a.thread, a.serial, crl)
      && a.result == Ok(Some(StatusIn(GenOf(crl), a.serial)))
      && (ClockForward(run) ==> run[i].resp.now.wall <= a.at)
  {
    var u := run[n].resp.answers[k].thread;
    i, crl := LookupHasEvidence(cfg, first, start, run, j, u);
    if ClockForward(run) { ClockOrder(run, i, j); }
  }

  /** Whatever a `good` or `revoked` reply rests on, the snapshot of that source call justifies it. */
  lemma SnapshotBehindBasis(
      cfg: SourcedResponder.Config, first: Bytes, start: Time, run: seq<State>, n: nat, t: Thread, b: R.Basis)
    returns (i: nat, crl: Crl)
    requires IsFileRun(cfg, first, start, run) && Based(cfg, run, n, t, b)
    requires !run[n].resp.reqs[t].der.status.Unknown?
    ensures Because(cfg, run, n, t, b, i, crl)
  {
    var r := run[n].resp.reqs[t];
    var j := ReturnOfAnswer(cfg, run, n, b.k);
    ResponseIsFaithful(cfg.resp.validity, r.serial, run[n].resp.answers[b.k].result, r.der);
    i, crl := SnapshotOfAnswer(cfg, first, start, run, n, j, b.k);
    if b.Cached? {
      ReturnsBeforeInsertion(cfg, run, n, r.serial, b.o, j);
      CachedReplyInTime(cfg, run, n, t, b);
    }
  }

  lemma SnapshotBehindReply(
      cfg: SourcedResponder.Config, first: Bytes, start: Time, run: seq<State>, n: nat, t: Thread)
    returns (b: R.Basis, i: nat, crl: Crl)
    requires IsFileRun(cfg, first, start, run) && n < |run|
    requires t in run[n].resp.reqs && run[n].resp.reqs[t].Replied? && !run[n].resp.reqs[t].der.status.Unknown?
    ensures Because(cfg, run, n, t, b, i, crl)
    ensures b.Cached? <==> run[n].resp.reqs[t].via.FromCache?
  {
    var j: nat;
    b, j := CallBehindReply(cfg, run, n, t);
    i, crl := SnapshotBehindBasis(cfg, first, start, run, n, t, b);
  }

  /** What the CRL behind a `good` reply says: it omits the serial, and bounds the deadline. */
  ghost predicate GoodBy(cfg: SourcedResponder.Config, crl: Crl, serial: int, der: Signed) {
    && (forall j :: 0 <= j < |crl.entries| ==> crl.entries[j].serial != serial)
    && (crl.nextUpdate != ZERO_TIME ==> der.nextUpdate <= crl.nextUpdate)
    && (WholeSecondCrls(cfg) && cfg.resp.validity >= SECOND ==>
          (der.nextUpdate < der.thisUpdate <==> crl.nextUpdate != ZERO_TIME && crl.nextUpdate < der.thisUpdate))
    && (cfg.resp.validity >= 0 ==>
          (der.nextUpdate < TruncateToSecond(der.thisUpdate)
           <==> crl.nextUpdate != ZERO_TIME && crl.nextUpdate < TruncateToSecond(der.thisUpdate)))
  }

  lemma GoodMeans(cfg: SourcedResponder.Config, crl: Crl, serial: int, der: Signed)
    requires Says(cfg, crl, serial, der) && der.status.Good? && exists b :: cfg.crl.parse(b) == Some(crl)
    ensures GoodBy(cfg, crl, serial, der)
    ensures WholeSecondCrls(cfg) && der.thisUpdate + cfg.resp.validity >= SECOND ==> der.nextUpdate != ZERO_TIME
  {
    var said: SourceResult := Ok(Some(StatusIn(GenOf(crl), serial)));
    ResponseIsFaithful(cfg.resp.validity, serial, said, der);
    StatusMatchesList(GenOf(crl), crl, serial);
    DeadlinePassedResponses(cfg.resp.validity, serial, said, der);
    SentinelOnlyInFirstSecond(cfg.resp.validity, der.thisUpdate, crl.nextUpdate);
  }

  /**
   A `good` reply, fresh or cached, in any interleaving: the CRL in force at the snapshot behind it omits the
   serial, and the signed deadline does not exceed that CRL's. It lies before thisUpdate exactly if the CRL's
   own had passed when the reply was signed. A cached reply is served in time, and if the wall clock is never
   stepped the clock at its lookup lies strictly before the signed deadline, which for whole-second CRLs and a
   realistic clock is never the zero time that stands for "none".
   */
  lemma GoodRepliesAreJustified(
      cfg: SourcedResponder.Config, first: Bytes, start: Time, run: seq<State>, n: nat, t: Thread)
    returns (b: R.Basis, i: nat, crl: Crl)
    requires IsFileRun(cfg, first, start, run) && n < |run|
    requires t in run[n].resp.reqs && run[n].resp.reqs[t].Replied? && run[n].resp.reqs[t].der.status.Good?
    ensures
      var r := run[n].resp.reqs[t];
      && r.der.serial == r.serial
      && Because(cfg, run, n, t, b, i, crl) && GoodBy(cfg, crl, r.serial, r.der)
      && (b.Cached? <==> r.via.FromCache?)
      && (b.Cached? && r.der.nextUpdate != ZERO_TIME ==>
            && (NeverStepped(run) ==> run[b.g].resp.now.wall < r.der.nextUpdate)
            && (ClockForward(run) ==> r.der.thisUpdate < r.der.nextUpdate))
      && (WholeSecondCrls(cfg) && r.der.thisUpdate + cfg.resp.validity >= SECOND ==> r.der.nextUpdate != ZERO_TIME)
  {
    var r := run[n].resp.reqs[t];
    b, i, crl := SnapshotBehindReply(cfg, first, start, run, n, t);
    GoodMeans(cfg, crl, r.serial, r.der);
    ResponseIsFaithful(cfg.resp.validity, r.serial, Ok(Some(StatusIn(GenOf(crl), r.serial))), r.der);
    if b.Cached? { CachedReplyInTime(cfg, run, n, t, b); }
  }

  /** A `revoked` reply carries the time and reason of the last entry for the serial on the CRL behind it. */
  lemma RevokedRepliesAreJustified(
      cfg: SourcedResponder.Config, first: Bytes, start: Time, run: seq<State>, n: nat, t: Thread)
    returns (b: R.Basis, i: nat, crl: Crl, m: int)
    requires IsFileRun(cfg, first, start, run) && n < |run|
    requires t in run[n].resp.reqs && run[n].resp.reqs[t].Replied? && run[n].resp.reqs[t].der.status.Revoked?
    ensures
      var r := run[n].resp.reqs[t];
      && r.der.serial == r.serial
      && Because(cfg, run, n, t, b, i, crl) && LastFor(crl.entries, r.serial, m)
      && r.der.revokedAt == crl.entries[m].revokedAt
      && r.der.reason == ReasonCode(crl.entries[m].extensions)
  {
    var r := run[n].resp.reqs[t];
    b, i, crl := SnapshotBehindReply(cfg, first, start, run, n, t);
    ResponseIsFaithful(cfg.resp.validity, r.serial, Ok(Some(StatusIn(GenOf(crl), r.serial))), r.der);
    StatusMatchesList(GenOf(crl), crl, r.serial);
    m :| LastFor(crl.entries, r.serial, m);
  }

  /**
   With a wall clock that never runs backwards, whatever status the cache holds is what the CRL said that was
   in force at the snapshot of the request that inserted it, and that snapshot lies strictly before the CRL's
   NextUpdate: answers given during the grace period are never stored.
   */
  lemma GraceAnswersAreNotCached(
      cfg: SourcedResponder.Config, first: Bytes, start: Time, run: seq<State>, n: nat, key: string)
    returns (o: R.Origin, i: nat, crl: Crl)
    requires IsFileRun(cfg, first, start, run) && n < |run| && ClockForward(run) && WholeSecondCrls(cfg)
    requires key in run[n].resp.cache.entries
    requires
      var der := run[n].resp.cache.entries[key].data;
      !der.status.Unknown? && der.thisUpdate + cfg.resp.validity >= SECOND
    ensures
      var e := run[n].resp.cache.entries[key];
      && R.EntryFrom(cfg.resp, true, Requests(run), n, key, e, o)
      && i < o.h && Snapshot(cfg, run, n, i, o.u, e.data.serial, crl)
      && Says(cfg, crl, e.data.serial, e.data)
      && (crl.nextUpdate != ZERO_TIME ==> run[i].resp.now.wall < WallOf(e.expiresAt) <= crl.nextUpdate)
  {
    var e, j := run[n].resp.cache.entries[key], 0;
    o, j := CallBehindEntry(cfg, run, n, key);
    ResponseIsFaithful(cfg.resp.validity, e.data.serial, run[n].resp.answers[o.k].result, e.data);
    i, crl := SnapshotOfAnswer(cfg, first, start, run, n, j, o.k);
    ReturnsBeforeInsertion(cfg, run, n, e.data.serial, o, j);
    SentinelOnlyInFirstSecond(cfg.resp.validity, e.data.thisUpdate, crl.nextUpdate);
  }

  /**
   Age of the data behind a cached reply, on the monotonic clock: less than the TTL plus the time that the
   request which inserted it took from its snapshot to its insertion, plus what a wall clock set back has
   added if the entry expires by the wall clock.
   */
  lemma CachedStaleness(
      cfg: SourcedResponder.Config, first: Bytes, start: Time, run: seq<State>, n: nat, t: Thread, b: R.Basis)
    returns (i: nat, crl: Crl)
    requires IsFileRun(cfg, first, start, run) && Based(cfg, run, n, t, b) && b.Cached?
    requires !run[n].resp.reqs[t].der.status.Unknown?
    ensures Because(cfg, run, n, t, b, i, crl)
    ensures
      var put, got := run[b.o.h].resp.now, run[b.g].resp.now;
      && Elapsed(run, i, b.g)
         < cfg.resp.cache.ttl + Elapsed(run, i, b.o.h) + Setback(cfg, run[n].resp.reqs[t].der, put, got)
      && 0 <= Elapsed(run, i, b.o.h)
  {
    i, crl := SnapshotBehindBasis(cfg, first, start, run, n, t, b);
    TimerOrder(cfg, run, i, b.o.h);
  }
}
