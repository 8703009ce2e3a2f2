/**
 The HTTP source under concurrency: any number of calls, each reading the health flag, loading and deleting
 cache entries, sending GETs, recording health and storing its answer as separate steps.
 */
module HttpProtocol {
  import opened Types
  import opened SerialText
  import opened HttpSource

  /** One GET: who sent it, the URL, what came back, and the wall time at which that was interpreted. */
  datatype Exchange = Exchange(thread: Thread, url: string, reply: Reply, at: Time)

  /** How an answer was obtained: from an entry found unexpired at reading `at`, or from a GET. */
  datatype Origin = Hit(at: Reading, entry: CacheEntry) | Fetched | NoAnswer

  datatype Call =
    | Called(serial: int)
    | Probing(serial: int)                                  // saw the source healthy
    | Loaded(serial: int, entry: CacheEntry)                // found an entry, expiry not yet tested
    | Purging(serial: int)                                  // found it expired, about to delete by key
    | Fetching(serial: int, attempt: nat)
    | Concluded(serial: int, result: Result<CertStatus>)    // fetch over, health not yet recorded
    | Recorded(serial: int, status: CertStatus)             // healthy again, about to read the clock for the store
    | Stamped(serial: int, entry: CacheEntry)               // about to store
    | Finished(serial: int, result: Result<CertStatus>, origin: Origin)

  /** `exchanges` is the history of GETs. */
  datatype State = State(
    now: Reading,
    healthy: bool,
    cache: Cache,
    calls: map<Thread, Call>,
    exchanges: seq<Exchange>)

  datatype CallStep =
    | Begin(serial: int)
    | CancelEarly
    | ReadHealth
    | LoadEntry
    | TestEntry
    | Delete
    | Abort
    | Attempt(reply: Reply)
    | Exhaust
    | Record
    | Stamp
    | Store

  predicate Enabled(cfg: Config, s: State, t: Thread, a: CallStep) {
    if a.Begin? then t !in s.calls
    else
      && t in s.calls
      && match a
         case CancelEarly => s.calls[t].Called?
         case ReadHealth => s.calls[t].Called?
         case LoadEntry => s.calls[t].Probing?
         case TestEntry => s.calls[t].Loaded?
         case Delete => s.calls[t].Purging?
         case Abort => s.calls[t].Fetching?
         case Attempt(_) => s.calls[t].Fetching? && s.calls[t].attempt < cfg.maxAttempts
         case Exhaust => s.calls[t].Fetching? && s.calls[t].attempt >= cfg.maxAttempts
         case Record => s.calls[t].Concluded?
         case Stamp => s.calls[t].Recorded?
         case Store => s.calls[t].Stamped?
         case Begin(_) => false
  }

  function SetCall(s: State, t: Thread, c: Call): State { s.(calls := s.calls[t := c]) }

  function AfterAttempt(serial: int, k: nat, a: HttpSource.Attempt): Call {
    if a.Conclusive? then Concluded(serial, a.result) else Fetching(serial, k + 1)
  }

  function Apply(cfg: Config, s: State, t: Thread, a: CallStep): State
    requires Enabled(cfg, s, t, a)
  {
    if a.Begin? then SetCall(s, t, Called(a.serial))
    else
      var c := s.calls[t];
      var key := Decimal(c.serial);
      match a
      case CancelEarly => SetCall(s, t, Finished(c.serial, Err(Cancelled), NoAnswer))
      case ReadHealth => SetCall(s, t, if s.healthy then Probing(c.serial) else Fetching(c.serial, 0))
      case LoadEntry =>
        SetCall(s, t, if key in s.cache then Loaded(c.serial, s.cache[key]) else Fetching(c.serial, 0))
      case TestEntry =>
        SetCall(s, t,
                if s.now.mono < c.entry.expiresAt.mono
                then Finished(c.serial, Ok(c.entry.status), Hit(s.now, c.entry))
                else Purging(c.serial))
      case Delete => SetCall(s, t, Fetching(c.serial, 0)).(cache := s.cache - {key})
      case Abort => SetCall(s, t, Concluded(c.serial, Err(Cancelled)))
      case Attempt(reply) =>
        SetCall(s, t, AfterAttempt(c.serial, c.attempt, MapReply(cfg.mapping, reply, s.now.wall)))
          .(exchanges := s.exchanges + [Exchange(t, UrlFor(cfg, c.serial), reply, s.now.wall)])
      case Exhaust => SetCall(s, t, Concluded(c.serial, Err(AttemptsExhausted)))
      case Record =>
        var c' :=
          match c.result
          case Err(f) => Finished(c.serial, Err(f), NoAnswer)
          case Ok(cs) => if cfg.cacheTtl > 0 then Recorded(c.serial, cs) else Finished(c.serial, Ok(cs), Fetched);
        SetCall(s, t, c').(healthy := c.result.Ok?)
      case Stamp => SetCall(s, t, Stamped(c.serial, CacheEntry(c.status, Plus(s.now, cfg.cacheTtl))))
      case Store => SetCall(s, t, Finished(c.serial, Ok(c.entry.status), Fetched)).(cache := s.cache[key := c.entry])
  }

  ghost predicate Next(cfg: Config, s: State, s': State) {
    || (exists time: Reading :: s.now.mono <= time.mono && s' == s.(now := time))
    || (exists t: Thread, a: CallStep :: Enabled(cfg, s, t, a) && s' == Apply(cfg, s, t, a))
  }

  ghost predicate Step(cfg: Config, s: State, s': State) { s == s' || Next(cfg, s, s') }

  predicate Init(s: State) { s.healthy && s.cache == map[] && s.calls == map[] && s.exchanges == [] }

  ghost predicate Linked(cfg: Config, run: seq<State>, i: nat)
    requires i + 1 < |run|
  {
    Step(cfg, run[i], run[i + 1])
  }

  ghost predicate IsRun(cfg: Config, run: seq<State>) {
    run != [] && Init(run[0]) && forall i: nat :: i < |run| - 1 ==> Linked(cfg, run, i)
  }

  // ---- Where answers come from ----

  /** In step `i` call `t` for `serial` sent a GET of the URL of that serial, and the mapping read `cs` in the reply. */
  predicate Got(
    cfg: Config, run: seq<State>, n: nat, i: nat, t: Thread, serial: int, x: Exchange, cs: CertStatus)
  {
    && i < n < |run| && t in run[i].calls && run[i].calls[t].Fetching? && run[i].calls[t].serial == serial
    && run[i + 1].exchanges == run[i].exchanges + [x]
    && x.thread == t && x.url == UrlFor(cfg, serial) && x.at == run[i].now.wall
    && MapReply(cfg.mapping, x.reply, x.at) == Conclusive(Ok(cs))
  }

  /** Call `t` itself fetched `cs` for `serial`. */
  ghost predicate Supported(cfg: Config, run: seq<State>, n: nat, t: Thread, serial: int, cs: CertStatus) {
    exists i: nat, x :: Got(cfg, run, n, i, t, serial, x, cs)
  }

  /** In step `i` call `u`, holding the answer `e.status` that it fetched for this key, stamped it with the clock. */
  ghost predicate StampedAt(cfg: Config, run: seq<State>, n: nat, i: nat, u: Thread, key: string, e: CacheEntry) {
    && i < n < |run|
    && u in run[i + 1].calls && run[i + 1].calls[u].Stamped? && run[i + 1].calls[u].entry == e
    && u in run[i].calls && run[i].calls[u].Recorded?
    && Decimal(run[i].calls[u].serial) == key && run[i].calls[u].status == e.status
    && Plus(run[i].now, cfg.cacheTtl) == e.expiresAt
    && Supported(cfg, run, i, u, run[i].calls[u].serial, e.status)
  }

  ghost predicate Stored(cfg: Config, run: seq<State>, n: nat, key: string, e: CacheEntry) {
    exists i: nat, u: Thread :: StampedAt(cfg, run, n, i, u, key, e)
  }

  /** In step `h` call `t` read the health flag, and it was set. */
  predicate HealthyAt(run: seq<State>, n: nat, h: nat, t: Thread) {
    && h < n < |run| && run[h].healthy
    && t in run[h].calls && run[h].calls[t].Called?
    && t in run[h + 1].calls && run[h + 1].calls[t].Probing?
  }

  ghost predicate SawHealthy(run: seq<State>, n: nat, t: Thread) { exists h: nat :: HealthyAt(run, n, h, t) }

  /** In step `m` call `t` for `serial`, holding the loaded `e`, read the clock as `at` and answered with it. */
  predicate TestedAt(run: seq<State>, n: nat, m: nat, t: Thread, serial: int, e: CacheEntry, at: Reading) {
    && m < n < |run| && t in run[m].calls && run[m].calls[t] == Loaded(serial, e) && run[m].now == at
    && t in run[m + 1].calls && run[m + 1].calls[t] == Finished(serial, Ok(e.status), Hit(at, e))
  }

  ghost predicate Tested(run: seq<State>, n: nat, t: Thread, serial: int, e: CacheEntry, at: Reading) {
    exists m: nat :: TestedAt(run, n, m, t, serial, e, at)
  }

  ghost predicate CallInv(cfg: Config, run: seq<State>, n: nat, t: Thread, c: Call)
    requires n < |run|
  {
    match c
    case Probing(_) => SawHealthy(run, n, t)
    case Loaded(serial, entry) => SawHealthy(run, n, t) && Stored(cfg, run, n, Decimal(serial), entry)
    case Concluded(serial, result) => result.Ok? ==> Supported(cfg, run, n, t, serial, result.value)
    case Recorded(serial, status) => Supported(cfg, run, n, t, serial, status)
    case Stamped(serial, entry) =>
      && (exists i: nat :: StampedAt(cfg, run, n, i, t, Decimal(serial), entry))
      && Supported(cfg, run, n, t, serial, entry.status)
    case Finished(serial, result, origin) =>
      (match origin
       case NoAnswer => result.Err?
       case Fetched => result.Ok? && Supported(cfg, run, n, t, serial, result.value)
       case Hit(at, entry) =>
         && result == Ok(entry.status) && at.mono < entry.expiresAt.mono
         && Tested(run, n, t, serial, entry, at)
         && SawHealthy(run, n, t) && Stored(cfg, run, n, Decimal(serial), entry))
    case _ => true
  }

  ghost predicate RunOk(cfg: Config, run: seq<State>, n: nat)
    requires n < |run|
  {
    && (forall key :: key in run[n].cache ==> Stored(cfg, run, n, key, run[n].cache[key]))
    && forall t: Thread :: t in run[n].calls ==> CallInv(cfg, run, n, t, run[n].calls[t])
  }

  // ---- Steps ----

  lemma StoredStays(cfg: Config, run: seq<State>, n: nat, key: string, e: CacheEntry)
    requires n + 1 < |run| && Stored(cfg, run, n, key, e)
    ensures Stored(cfg, run, n + 1, key, e)
  {
    var i: nat, u: Thread :| StampedAt(cfg, run, n, i, u, key, e);
    assert StampedAt(cfg, run, n + 1, i, u, key, e);
  }

  lemma SawHealthyStays(run: seq<State>, n: nat, t: Thread)
    requires n + 1 < |run| && SawHealthy(run, n, t)
    ensures SawHealthy(run, n + 1, t)
  {
    var h: nat :| HealthyAt(run, n, h, t);
    assert HealthyAt(run, n + 1, h, t);
  }

  lemma SupportedStays(cfg: Config, run: seq<State>, i: nat, n: nat, t: Thread, serial: int, cs: CertStatus)
    requires i <= n < |run| && Supported(cfg, run, i, t, serial, cs)
    ensures Supported(cfg, run, n, t, serial, cs)
  {
    var j: nat, x :| Got(cfg, run, i, j, t, serial, x, cs);
    assert Got(cfg, run, n, j, t, serial, x, cs);
  }

  lemma CallStays(cfg: Config, run: seq<State>, n: nat, t: Thread, c: Call)
    requires n + 1 < |run| && CallInv(cfg, run, n, t, c)
    ensures CallInv(cfg, run, n + 1, t, c)
  {
    match c
    case Probing(_) => SawHealthyStays(run, n, t);
    case Loaded(serial, entry) =>
      SawHealthyStays(run, n, t);
      StoredStays(cfg, run, n, Decimal(serial), entry);
    case Concluded(serial, result) =>
      if result.Ok? { SupportedStays(cfg, run, n, n + 1, t, serial, result.value); }
    case Recorded(serial, status) => SupportedStays(cfg, run, n, n + 1, t, serial, status);
    case Stamped(serial, entry) =>
      var i: nat :| StampedAt(cfg, run, n, i, t, Decimal(serial), entry);
      assert StampedAt(cfg, run, n + 1, i, t, Decimal(serial), entry);
      SupportedStays(cfg, run, n, n + 1, t, serial, entry.status);
    case Finished(serial, result, Fetched) => SupportedStays(cfg, run, n, n + 1, t, serial, result.value);
    case Finished(serial, result, Hit(at, entry)) =>
      var m: nat :| TestedAt(run, n, m, t, serial, entry, at);
      assert TestedAt(run, n + 1, m, t, serial, entry, at);
      SawHealthyStays(run, n, t);
      StoredStays(cfg, run, n, Decimal(serial), entry);
    case _ =>
  }

  /** Call `t` takes the step `a` from moment `n`. */
  ghost predicate Takes(cfg: Config, run: seq<State>, n: nat, t: Thread, a: CallStep) {
    n + 1 < |run| && Enabled(cfg, run[n], t, a) && run[n + 1] == Apply(cfg, run[n], t, a)
  }

  lemma ProbeTaken(cfg: Config, run: seq<State>, n: nat, t: Thread, a: CallStep)
    requires Takes(cfg, run, n, t, a) && (a.LoadEntry? || a.TestEntry?) && CallInv(cfg, run, n, t, run[n].calls[t])
    requires forall key :: key in run[n].cache ==> Stored(cfg, run, n, key, run[n].cache[key])
    ensures CallInv(cfg, run, n + 1, t, run[n + 1].calls[t])
  {
    var s, c, key := run[n], run[n].calls[t], Decimal(run[n].calls[t].serial);
    SawHealthyStays(run, n, t);
    if a.LoadEntry? {
      if key in s.cache { StoredStays(cfg, run, n, key, s.cache[key]); }
    } else {
      StoredStays(cfg, run, n, key, c.entry);
      if run[n + 1].calls[t].Finished? { assert TestedAt(run, n + 1, n, t, c.serial, c.entry, s.now); }
    }
  }

  lemma AttemptTaken(cfg: Config, run: seq<State>, n: nat, t: Thread, reply: Reply)
    requires Takes(cfg, run, n, t, Attempt(reply))
    ensures CallInv(cfg, run, n + 1, t, run[n + 1].calls[t])
  {
    var s, serial, c' := run[n], run[n].calls[t].serial, run[n + 1].calls[t];
    var x := Exchange(t, UrlFor(cfg, serial), reply, s.now.wall);
    if c'.Concluded? && c'.result.Ok? { assert Got(cfg, run, n + 1, n, t, serial, x, c'.result.value); }
  }

  lemma StampTaken(cfg: Config, run: seq<State>, n: nat, t: Thread)
    requires Takes(cfg, run, n, t, Stamp) && CallInv(cfg, run, n, t, run[n].calls[t])
    ensures CallInv(cfg, run, n + 1, t, run[n + 1].calls[t])
  {
    var c := run[n].calls[t];
    SupportedStays(cfg, run, n, n + 1, t, c.serial, c.status);
    assert StampedAt(cfg, run, n + 1, n, t, Decimal(c.serial), run[n + 1].calls[t].entry);
  }

  /** What call `t` itself knows after its step. */
  lemma CallMoves(cfg: Config, run: seq<State>, n: nat, t: Thread, a: CallStep)
    requires n + 1 < |run| && RunOk(cfg, run, n) && Takes(cfg, run, n, t, a)
    ensures CallInv(cfg, run, n + 1, t, run[n + 1].calls[t])
  {
    assert !a.Begin? ==> CallInv(cfg, run, n, t, run[n].calls[t]);
    match a
    case ReadHealth => if run[n].healthy { assert HealthyAt(run, n + 1, n, t); }
    case LoadEntry => ProbeTaken(cfg, run, n, t, a);
    case TestEntry => ProbeTaken(cfg, run, n, t, a);
    case Attempt(reply) => AttemptTaken(cfg, run, n, t, reply);
    case Record => CallStays(cfg, run, n, t, run[n].calls[t]);
    case Stamp => StampTaken(cfg, run, n, t);
    case Store => CallStays(cfg, run, n, t, run[n].calls[t]);
    case _ =>
  }

  lemma CacheMoves(cfg: Config, run: seq<State>, n: nat, t: Thread, a: CallStep, key: string)
    requires n + 1 < |run| && RunOk(cfg, run, n) && Enabled(cfg, run[n], t, a)
    requires run[n + 1] == Apply(cfg, run[n], t, a) && key in run[n + 1].cache
    ensures Stored(cfg, run, n + 1, key, run[n + 1].cache[key])
  {
    if a.Store? && key == Decimal(run[n].calls[t].serial) {
      assert CallInv(cfg, run, n, t, run[n].calls[t]);
    }
    StoredStays(cfg, run, n, key, run[n + 1].cache[key]);
  }

  lemma CallStepOk(cfg: Config, run: seq<State>, n: nat, t: Thread, a: CallStep)
    requires n + 1 < |run| && RunOk(cfg, run, n) && Enabled(cfg, run[n], t, a)
    requires run[n + 1] == Apply(cfg, run[n], t, a)
    ensures RunOk(cfg, run, n + 1)
  {
    var m, s' := n + 1, run[n + 1];
    forall u: Thread | u in s'.calls ensures CallInv(cfg, run, m, u, s'.calls[u]) {
      if u == t { CallMoves(cfg, run, n, t, a); } else { CallStays(cfg, run, n, u, run[n].calls[u]); }
    }
    forall key | key in s'.cache ensures Stored(cfg, run, m, key, s'.cache[key]) {
      CacheMoves(cfg, run, n, t, a, key);
    }
  }

  lemma StepOk(cfg: Config, run: seq<State>, n: nat)
    requires IsRun(cfg, run) && n + 1 < |run| && RunOk(cfg, run, n)
    ensures RunOk(cfg, run, n + 1)
  {
    assert Linked(cfg, run, n);
    var m, s, s' := n + 1, run[n], run[n + 1];
    if s == s' || exists time: Reading :: s.now.mono <= time.mono && s' == s.(now := time) {
      forall u: Thread | u in s'.calls ensures CallInv(cfg, run, m, u, s'.calls[u]) {
        CallStays(cfg, run, n, u, s.calls[u]);
      }
      forall key | key in s'.cache ensures Stored(cfg, run, m, key, s'.cache[key]) {
        StoredStays(cfg, run, n, key, s.cache[key]);
      }
    } else {
      var t: Thread, a: CallStep :| Enabled(cfg, s, t, a) && s' == Apply(cfg, s, t, a);
      CallStepOk(cfg, run, n, t, a);
    }
  }

  lemma {:induction false} AllOk(cfg: Config, run: seq<State>, n: nat)
    requires IsRun(cfg, run) && n < |run|
    ensures RunOk(cfg, run, n)
  {
    if n > 0 {
      AllOk(cfg, run, n - 1);
      StepOk(cfg, run, n - 1);
    }
  }

  // ---- Main results ----

  /**
   Every status that a call returns is what the mapping makes of a reply to a GET of the URL of that call's
   own serial. The call sent that GET itself, or else it loaded an entry that another call had fetched and
   stamped; then the health flag was set in the very step in which it was read, and the entry had not expired
   at the clock of the step that tested it: a call that reads unhealthy never answers from cache.
   */
  lemma AnswersAreSupported(cfg: Config, run: seq<State>, n: nat, t: Thread)
    requires IsRun(cfg, run) && n < |run| && t in run[n].calls && run[n].calls[t].Finished?
    ensures
      var c := run[n].calls[t];
      && (c.result.Ok? <==> !c.origin.NoAnswer?)
      && (c.origin.Fetched? ==> Supported(cfg, run, n, t, c.serial, c.result.value))
      && (c.origin.Hit? ==>
            && SawHealthy(run, n, t) && c.origin.at.mono < c.origin.entry.expiresAt.mono
            && Tested(run, n, t, c.serial, c.origin.entry, c.origin.at)
            && c.result == Ok(c.origin.entry.status)
            && exists i: nat, u: Thread ::
                 StampedAt(cfg, run, n, i, u, Decimal(c.serial), c.origin.entry)
                 && Supported(cfg, run, i, u, c.serial, c.result.value))
  {
    AllOk(cfg, run, n);
    var c := run[n].calls[t];
    assert CallInv(cfg, run, n, t, c);
    if c.origin.Hit? {
      var i: nat, u: Thread :| StampedAt(cfg, run, n, i, u, Decimal(c.serial), c.origin.entry);
      DecimalInjective(c.serial, run[i].calls[u].serial);
      assert Supported(cfg, run, i, u, c.serial, c.result.value);
    }
  }

  /** In step `i` call `t` recorded the outcome of its fetch. */
  predicate RecordsAt(run: seq<State>, i: nat, t: Thread) {
    && i + 1 < |run| && t in run[i].calls && run[i].calls[t].Concluded?
    && t in run[i + 1].calls && !run[i + 1].calls[t].Concluded?
  }

  ghost predicate Records(run: seq<State>, i: nat) { exists t: Thread :: RecordsAt(run, i, t) }

  /** Step `i`, by call `t`, is the last before moment `n` in which an outcome was recorded. */
  ghost predicate LastRecord(run: seq<State>, n: nat, i: nat, t: Thread) {
    i < n && RecordsAt(run, i, t) && forall j: nat :: i < j < n ==> !Records(run, j)
  }

  lemma HealthStep(cfg: Config, run: seq<State>, n: nat)
    requires IsRun(cfg, run) && n + 1 < |run|
    ensures !Records(run, n) ==> run[n + 1].healthy == run[n].healthy
    ensures forall t: Thread :: RecordsAt(run, n, t) ==> run[n + 1].healthy == run[n].calls[t].result.Ok?
  {
    assert Linked(cfg, run, n);
    var s, s' := run[n], run[n + 1];
    if t: Thread, a: CallStep :| Enabled(cfg, s, t, a) && s' == Apply(cfg, s, t, a) {
      if a.Record? { assert RecordsAt(run, n, t); }
    }
  }

  /**
   In every run health is the outcome of the last fetch that any call recorded, whatever happened to the
   cache or to other calls since, and it is set as long as none has recorded one.
   */
  lemma {:induction false} HealthIsLastOutcome(cfg: Config, run: seq<State>, n: nat)
    requires IsRun(cfg, run) && n < |run|
    ensures
      if forall j: nat :: j < n ==> !Records(run, j) then run[n].healthy
      else exists i: nat, t: Thread :: LastRecord(run, n, i, t) && run[n].healthy == run[i].calls[t].result.Ok?
  {
    if n > 0 {
      var m := n - 1;
      HealthIsLastOutcome(cfg, run, m);
      HealthStep(cfg, run, m);
      if t: Thread :| RecordsAt(run, m, t) {
        assert Records(run, m) && LastRecord(run, n, m, t);
      } else if !(forall j: nat :: j < m ==> !Records(run, j)) {
        var i: nat, t: Thread :| LastRecord(run, m, i, t) && run[m].healthy == run[i].calls[t].result.Ok?;
        assert LastRecord(run, n, i, t);
      }
    }
  }

  /** A hit in step `m` was on an entry stamped in step `i`, for the same serial, less than `cacheTtl` before. */
  lemma HitWasStored(cfg: Config, run: seq<State>, n: nat, t: Thread) returns (i: nat, u: Thread, m: nat)
    requires IsRun(cfg, run) && n < |run| && t in run[n].calls && run[n].calls[t].Finished?
    requires run[n].calls[t].origin.Hit?
    ensures
      var c := run[n].calls[t];
      && c.result == Ok(c.origin.entry.status) && i < n
      && u in run[i].calls && run[i].calls[u] == Recorded(c.serial, c.result.value)
      && Supported(cfg, run, i, u, c.serial, c.result.value)
      && TestedAt(run, n, m, t, c.serial, c.origin.entry, c.origin.at)
      && Plus(run[i].now, cfg.cacheTtl) == c.origin.entry.expiresAt
      && run[m].now.mono < run[i].now.mono + cfg.cacheTtl
  {
    AllOk(cfg, run, n);
    var c := run[n].calls[t];
    assert CallInv(cfg, run, n, t, c);
    i, u :| StampedAt(cfg, run, n, i, u, Decimal(c.serial), c.origin.entry);
    m :| TestedAt(run, n, m, t, c.serial, c.origin.entry, c.origin.at);
    DecimalInjective(c.serial, run[i].calls[u].serial);
  }

  // ---- How many GETs a call sends ----

  /** The GETs that call `t` has sent. */
  function Sent(exchanges: seq<Exchange>, t: Thread): nat {
    if exchanges == [] then 0
    else
      var n := |exchanges| - 1;
      Sent(exchanges[..n], t) + if exchanges[n].thread == t then 1 else 0
  }

  lemma SentSnoc(exchanges: seq<Exchange>, x: Exchange, t: Thread)
    ensures Sent(exchanges + [x], t) == Sent(exchanges, t) + if x.thread == t then 1 else 0
  {
    assert (exchanges + [x])[..|exchanges|] == exchanges;
  }

  function Budget(cfg: Config): nat { if cfg.maxAttempts < 0 then 0 else cfg.maxAttempts }

  /** Whether the call gave up because it ran out of attempts. */
  predicate GaveUp(c: Call) { (c.Concluded? || c.Finished?) && c.result == Err(AttemptsExhausted) }

  /** What the number of GETs sent says about where a call is. */
  predicate SentOk(cfg: Config, s: State, t: Thread) {
    var sent := Sent(s.exchanges, t);
    if t !in s.calls then sent == 0
    else
      match s.calls[t]
      case Fetching(_, attempt) => sent == attempt <= Budget(cfg)
      case Called(_) => sent == 0
      case Probing(_) => sent == 0
      case Loaded(_, _) => sent == 0
      case Purging(_) => sent == 0
      case Finished(_, _, Hit(_, _)) => sent == 0
      case c => sent <= Budget(cfg) && (GaveUp(c) ==> sent == Budget(cfg))
  }

  lemma SentMoves(cfg: Config, s: State, u: Thread, a: CallStep, t: Thread)
    requires Enabled(cfg, s, u, a) && SentOk(cfg, s, t)
    ensures SentOk(cfg, Apply(cfg, s, u, a), t)
  {
    if a.Attempt? {
      SentSnoc(s.exchanges, Exchange(u, UrlFor(cfg, s.calls[u].serial), a.reply, s.now.wall), t);
    }
  }

  lemma SentStep(cfg: Config, run: seq<State>, n: nat, t: Thread)
    requires IsRun(cfg, run) && n + 1 < |run| && SentOk(cfg, run[n], t)
    ensures SentOk(cfg, run[n + 1], t)
  {
    assert Linked(cfg, run, n);
    var s, s' := run[n], run[n + 1];
    if u: Thread, a: CallStep :| Enabled(cfg, s, u, a) && s' == Apply(cfg, s, u, a) { SentMoves(cfg, s, u, a, t); }
  }

  /**
   In every run a call sends at most `maxAttempts` GETs, none if it answers from the cache, and gives up as
   exhausted only after exactly that many.
   */
  lemma {:induction false} FetchesAreBounded(cfg: Config, run: seq<State>, n: nat, t: Thread)
    requires IsRun(cfg, run) && n < |run|
    ensures SentOk(cfg, run[n], t) && Sent(run[n].exchanges, t) <= Budget(cfg)
  {
    if n > 0 {
      FetchesAreBounded(cfg, run, n - 1, t);
      SentStep(cfg, run, n - 1, t);
    }
  }

  predicate Uncached(s: State) {
    s.cache == map[] && forall t: Thread :: t in s.calls ==> !s.calls[t].Recorded? && !s.calls[t].Stamped?
  }

  lemma UncachedStep(cfg: Config, run: seq<State>, n: nat)
    requires IsRun(cfg, run) && n + 1 < |run| && cfg.cacheTtl <= 0 && Uncached(run[n])
    ensures Uncached(run[n + 1])
  {
    assert Linked(cfg, run, n);
  }

  /** Without a positive TTL nothing is ever cached. */
  lemma {:induction false} NoTtlNoCache(cfg: Config, run: seq<State>, n: nat)
    requires IsRun(cfg, run) && n < |run| && cfg.cacheTtl <= 0
    ensures Uncached(run[n])
  {
    if n > 0 {
      NoTtlNoCache(cfg, run, n - 1);
      UncachedStep(cfg, run, n - 1);
    }
  }

  // ---- What a deletion by key drops ----

  /** In step `l` call `t` loaded `e` for `serial`, and since then it has done nothing but test it. */
  predicate LoadedAt(run: seq<State>, n: nat, l: nat, t: Thread, serial: int, e: CacheEntry) {
    && l < n < |run| && t in run[l].calls && run[l].calls[t] == Probing(serial)
    && Decimal(serial) in run[l].cache && run[l].cache[Decimal(serial)] == e
    && run[l + 1].cache == run[l].cache
    && forall i :: l < i <= n ==> t in run[i].calls && run[i].calls[t] in {Loaded(serial, e), Purging(serial)}
  }

  /** At some moment since step `l` the clock read `e` as expired. */
  ghost predicate FoundExpired(run: seq<State>, n: nat, l: nat, e: CacheEntry) {
    exists m: nat :: l < m < n < |run| && e.expiresAt.mono <= run[m].now.mono
  }

  /** How a call came to hold `c`, a loaded or an expired entry: it did before, or it has just loaded or tested one. */
  predicate ProbedInto(s: State, s': State, t: Thread, c: Call) {
    && t in s.calls
    && (|| s.calls[t] == c
        || (&& c.Loaded? && s.calls[t] == Probing(c.serial) && Decimal(c.serial) in s.cache
            && c.entry == s.cache[Decimal(c.serial)] && s'.cache == s.cache)
        || (&& c.Purging? && s.calls[t].Loaded? && s.calls[t].serial == c.serial
            && s.calls[t].entry.expiresAt.mono <= s.now.mono))
  }

  lemma ProbeMoves(cfg: Config, s: State, u: Thread, a: CallStep, t: Thread)
    requires Enabled(cfg, s, u, a)
    requires
      var s' := Apply(cfg, s, u, a);
      t in s'.calls && (s'.calls[t].Loaded? || s'.calls[t].Purging?)
    ensures
      var s' := Apply(cfg, s, u, a);
      ProbedInto(s, s', t, s'.calls[t])
  {
  }

  lemma ProbeStep(cfg: Config, run: seq<State>, n: nat, t: Thread)
    requires IsRun(cfg, run) && n + 1 < |run| && t in run[n + 1].calls
    requires run[n + 1].calls[t].Loaded? || run[n + 1].calls[t].Purging?
    ensures ProbedInto(run[n], run[n + 1], t, run[n + 1].calls[t])
  {
    assert Linked(cfg, run, n);
    var s, s' := run[n], run[n + 1];
    if u: Thread, a: CallStep :| Enabled(cfg, s, u, a) && s' == Apply(cfg, s, u, a) { ProbeMoves(cfg, s, u, a, t); }
  }

  /** A call about to test or to delete an entry has loaded it, and is deleting only because it found it expired. */
  lemma {:induction false} LoadBehind(cfg: Config, run: seq<State>, n: nat, t: Thread) returns (l: nat, e: CacheEntry)
    requires IsRun(cfg, run) && n < |run| && t in run[n].calls
    requires run[n].calls[t].Loaded? || run[n].calls[t].Purging?
    ensures LoadedAt(run, n, l, t, run[n].calls[t].serial, e)
    ensures if run[n].calls[t].Loaded? then run[n].calls[t].entry == e else FoundExpired(run, n, l, e)
  {
    ProbeStep(cfg, run, n - 1, t);
    var before, c := run[n - 1].calls[t], run[n].calls[t];
    if before.Probing? {
      l, e := n - 1, c.entry;
    } else {
      l, e := LoadBehind(cfg, run, n - 1, t);
    }
  }

  /** In step `i` call `u` stored `e` under `key`. */
  predicate StoresAt(run: seq<State>, i: nat, u: Thread, key: string, e: CacheEntry) {
    && i + 1 < |run| && u in run[i].calls && run[i].calls[u].Stamped?
    && Decimal(run[i].calls[u].serial) == key && run[i].calls[u].entry == e
    && u in run[i + 1].calls && run[i + 1].calls[u].Finished?
  }

  /** From moment `i` to moment `n` the cache held `e` under `key`. */
  predicate Held(run: seq<State>, i: nat, n: nat, key: string, e: CacheEntry) {
    i <= n < |run| && forall j :: i <= j <= n ==> key in run[j].cache && run[j].cache[key] == e
  }

  lemma CacheStep(cfg: Config, run: seq<State>, n: nat, key: string, e: CacheEntry)
    requires IsRun(cfg, run) && n + 1 < |run| && key in run[n + 1].cache && run[n + 1].cache[key] == e
    ensures (key in run[n].cache && run[n].cache[key] == e) || exists u: Thread :: StoresAt(run, n, u, key, e)
  {
    assert Linked(cfg, run, n);
    var s, s' := run[n], run[n + 1];
    if t: Thread, a: CallStep :| Enabled(cfg, s, t, a) && s' == Apply(cfg, s, t, a) {
      if a.Store? && key == Decimal(s.calls[t].serial) { assert StoresAt(run, n, t, key, e); }
    }
  }

  /** The entry under `key` has been there since moment `l`, or some call has put it there since. */
  lemma {:induction false} EntryBehind(cfg: Config, run: seq<State>, l: nat, n: nat, key: string)
    requires IsRun(cfg, run) && l <= n < |run| && key in run[n].cache
    ensures
      || Held(run, l, n, key, run[n].cache[key])
      || exists i: nat, u: Thread ::
           l <= i < n && StoresAt(run, i, u, key, run[n].cache[key]) && Held(run, i + 1, n, key, run[n].cache[key])
    decreases n
  {
    if l < n {
      var m, e := n - 1, run[n].cache[key];
      CacheStep(cfg, run, m, key, e);
      if u: Thread :| StoresAt(run, m, u, key, e) {
        assert Held(run, m + 1, n, key, e);
      } else {
        EntryBehind(cfg, run, l, m, key);
        if i: nat, u: Thread :| l <= i < m && StoresAt(run, i, u, key, e) && Held(run, i + 1, m, key, e) {
          assert Held(run, i + 1, n, key, e);
        }
      }
    }
  }

  /**
   After `t` loaded an entry in step `l`, call `u` stored another for the same serial in step `i`, stamped in
   step `p`, which is what the cache still holds at moment `n`.
   */
  ghost predicate Replaced(
    cfg: Config, run: seq<State>, l: nat, n: nat, t: Thread, key: string, i: nat, u: Thread, p: nat)
  {
    && l < i < n < |run| && p < i && u != t && key in run[n].cache
    && StoresAt(run, i, u, key, run[n].cache[key]) && Held(run, i + 1, n, key, run[n].cache[key])
    && StampedAt(cfg, run, i, p, u, key, run[n].cache[key])
  }

  lemma TimerStep(cfg: Config, run: seq<State>, n: nat)
    requires IsRun(cfg, run) && n + 1 < |run|
    ensures run[n].now.mono <= run[n + 1].now.mono
  {
    assert Linked(cfg, run, n);
  }

  lemma {:induction false} TimerOrder(cfg: Config, run: seq<State>, i: nat, j: nat)
    requires IsRun(cfg, run) && i <= j < |run|
    ensures run[i].now.mono <= run[j].now.mono
    decreases j
  {
    if i < j {
      TimerOrder(cfg, run, i, j - 1);
      TimerStep(cfg, run, j - 1);
    }
  }

  lemma StampBehind(cfg: Config, run: seq<State>, n: nat, u: Thread) returns (p: nat)
    requires IsRun(cfg, run) && n < |run| && u in run[n].calls && run[n].calls[u].Stamped?
    ensures StampedAt(cfg, run, n, p, u, Decimal(run[n].calls[u].serial), run[n].calls[u].entry)
  {
    AllOk(cfg, run, n);
    assert CallInv(cfg, run, n, u, run[n].calls[u]);
    p :| StampedAt(cfg, run, n, p, u, Decimal(run[n].calls[u].serial), run[n].calls[u].entry);
  }

  /** Whatever a call finds under its key when it deletes is what it loaded, or a replacement by another call. */
  lemma LoadedOrReplaced(cfg: Config, run: seq<State>, n: nat, t: Thread, l: nat, e: CacheEntry)
    requires IsRun(cfg, run) && n < |run| && t in run[n].calls && run[n].calls[t].Purging?
    requires LoadedAt(run, n, l, t, run[n].calls[t].serial, e)
    requires Decimal(run[n].calls[t].serial) in run[n].cache
    ensures
      var key := Decimal(run[n].calls[t].serial);
      || Held(run, l + 1, n, key, e)
      || exists i: nat, u: Thread, p: nat :: Replaced(cfg, run, l, n, t, key, i, u, p)
  {
    var key := Decimal(run[n].calls[t].serial);
    var now := run[n].cache[key];
    EntryBehind(cfg, run, l + 1, n, key);
    if i: nat, u: Thread :| l + 1 <= i < n && StoresAt(run, i, u, key, now) && Held(run, i + 1, n, key, now) {
      var p := StampBehind(cfg, run, i, u);
      assert t in run[i].calls && run[i].calls[t] in {Loaded(run[n].calls[t].serial, e), run[n].calls[t]};
      assert Replaced(cfg, run, l, n, t, key, i, u, p);
    }
  }

  /**
   Whatever is done to the wall clock, the entry that `t` is about to delete is unexpired exactly if, since
   `t` loaded the one it found expired, another call has put a new one in its place whose clock reading for
   the store lies less than `cacheTtl` back.
   */
  lemma DeleteDropsFreshIff(cfg: Config, run: seq<State>, n: nat, t: Thread) returns (l: nat, e: CacheEntry)
    requires IsRun(cfg, run) && n < |run| && t in run[n].calls && run[n].calls[t].Purging?
    requires Decimal(run[n].calls[t].serial) in run[n].cache
    ensures LoadedAt(run, n, l, t, run[n].calls[t].serial, e) && e.expiresAt.mono <= run[n].now.mono
    ensures
      var key := Decimal(run[n].calls[t].serial);
      run[n].now.mono < run[n].cache[key].expiresAt.mono
      <==> exists i: nat, u: Thread, p: nat ::
             Replaced(cfg, run, l, n, t, key, i, u, p) && run[n].now.mono < run[p].now.mono + cfg.cacheTtl
  {
    var key := Decimal(run[n].calls[t].serial);
    l, e := LoadBehind(cfg, run, n, t);
    var m: nat :| l < m < n && e.expiresAt.mono <= run[m].now.mono;
    TimerOrder(cfg, run, m, n);
    LoadedOrReplaced(cfg, run, n, t, l, e);
  }

  /** So with no store for that key since the load, a deletion drops only the expired entry that was loaded. */
  lemma DeleteDropsOnlyExpired(cfg: Config, run: seq<State>, n: nat, t: Thread) returns (l: nat, e: CacheEntry)
    requires IsRun(cfg, run) && n < |run| && t in run[n].calls && run[n].calls[t].Purging?
    requires Decimal(run[n].calls[t].serial) in run[n].cache
    ensures LoadedAt(run, n, l, t, run[n].calls[t].serial, e)
    ensures
      var key := Decimal(run[n].calls[t].serial);
      (forall i: nat, u: Thread, e' :: l < i < n ==> !StoresAt(run, i, u, key, e'))
      ==> run[n].cache[key] == e && e.expiresAt.mono <= run[n].now.mono
  {
    l, e := DeleteDropsFreshIff(cfg, run, n, t);
    LoadedOrReplaced(cfg, run, n, t, l, e);
  }

  // ---- Deletion by key can drop a fresh entry ----

  /** The wall clock is never stepped: it advances with the monotonic clock. */
  predicate NeverStepped(run: seq<State>) {
    forall i :: 0 <= i < |run| - 1 ==> Gain(run[i].now, run[i + 1].now) == 0
  }

  /** One more step of call `t`. */
  lemma Extend(cfg: Config, run: seq<State>, t: Thread, a: CallStep) returns (run': seq<State>)
    requires IsRun(cfg, run) && Enabled(cfg, run[|run| - 1], t, a)
    ensures IsRun(cfg, run') && run' == run + [Apply(cfg, run[|run| - 1], t, a)]
    ensures NeverStepped(run) ==> NeverStepped(run')
  {
    run' := run + [Apply(cfg, run[|run| - 1], t, a)];
    assert Next(cfg, run[|run| - 1], run'[|run|]);
    forall i: nat | i < |run'| - 1 ensures Linked(cfg, run', i) {
      if i < |run| - 1 { assert Linked(cfg, run, i); }
    }
  }

  lemma ExtendClock(cfg: Config, run: seq<State>, time: Reading) returns (run': seq<State>)
    requires IsRun(cfg, run) && run[|run| - 1].now.mono <= time.mono
    ensures IsRun(cfg, run') && run' == run + [run[|run| - 1].(now := time)]
    ensures NeverStepped(run) && Gain(run[|run| - 1].now, time) == 0 ==> NeverStepped(run')
  {
    run' := run + [run[|run| - 1].(now := time)];
    assert Next(cfg, run[|run| - 1], run'[|run|]);
    forall i: nat | i < |run'| - 1 ensures Linked(cfg, run', i) {
      if i < |run| - 1 { assert Linked(cfg, run, i); }
    }
  }

  /** From a cold cache call `t` gets as far as fetching. */
  lemma ColdCall(cfg: Config, run: seq<State>, t: Thread, serial: int) returns (run': seq<State>)
    requires IsRun(cfg, run) && t !in run[|run| - 1].calls && run[|run| - 1].healthy
    requires Decimal(serial) !in run[|run| - 1].cache
    ensures
      var s := run[|run| - 1];
      && IsRun(cfg, run') && run'[|run'| - 1] == s.(calls := s.calls[t := Fetching(serial, 0)])
      && (NeverStepped(run) ==> NeverStepped(run'))
  {
    var s := run[|run| - 1];
    run' := Extend(cfg, run, t, Begin(serial));
    run' := Extend(cfg, run', t, ReadHealth);
    run' := Extend(cfg, run', t, LoadEntry);
    assert s.calls[t := Called(serial)][t := Probing(serial)][t := Fetching(serial, 0)]
        == s.calls[t := Fetching(serial, 0)];
  }

  lemma RecordedOutcome(cfg: Config, s: State, t: Thread, serial: int, reply: Reply, cs: CertStatus)
    requires t in s.calls && s.calls[t] == Fetching(serial, 0) && cfg.cacheTtl > 0 && cfg.maxAttempts >= 1
    requires MapReply(cfg.mapping, reply, s.now.wall) == Conclusive(Ok(cs))
    ensures Enabled(cfg, s, t, Attempt(reply)) && Enabled(cfg, Apply(cfg, s, t, Attempt(reply)), t, Record)
    ensures
      var e := Apply(cfg, Apply(cfg, s, t, Attempt(reply)), t, Record);
      && e.now == s.now && e.healthy && e.cache == s.cache
      && e.calls == s.calls[t := Recorded(serial, cs)]
  {
    assert s.calls[t := Concluded(serial, Ok(cs))][t := Recorded(serial, cs)] == s.calls[t := Recorded(serial, cs)];
  }

  /** A fetching call `t` receives a conclusive reply and records it. */
  lemma FetchAndRecord(cfg: Config, run: seq<State>, t: Thread, serial: int, reply: Reply, cs: CertStatus)
    returns (run': seq<State>)
    requires IsRun(cfg, run) && t in run[|run| - 1].calls && run[|run| - 1].calls[t] == Fetching(serial, 0)
    requires cfg.cacheTtl > 0 && cfg.maxAttempts >= 1
    requires MapReply(cfg.mapping, reply, run[|run| - 1].now.wall) == Conclusive(Ok(cs))
    ensures IsRun(cfg, run') && (NeverStepped(run) ==> NeverStepped(run'))
    ensures
      var s, e := run[|run| - 1], run'[|run'| - 1];
      && e.now == s.now && e.healthy && e.cache == s.cache
      && e.calls == s.calls[t := Recorded(serial, cs)]
  {
    RecordedOutcome(cfg, run[|run| - 1], t, serial, reply, cs);
    run' := Extend(cfg, run, t, Attempt(reply));
    run' := Extend(cfg, run', t, Record);
  }

  /** ... and stores the answer. */
  lemma FetchAndStore(cfg: Config, run: seq<State>, t: Thread, serial: int, reply: Reply, cs: CertStatus)
    returns (run': seq<State>)
    requires IsRun(cfg, run) && t in run[|run| - 1].calls && run[|run| - 1].calls[t] == Fetching(serial, 0)
    requires cfg.cacheTtl > 0 && cfg.maxAttempts >= 1
    requires MapReply(cfg.mapping, reply, run[|run| - 1].now.wall) == Conclusive(Ok(cs))
    ensures IsRun(cfg, run') && (NeverStepped(run) ==> NeverStepped(run'))
    ensures
      var s, e := run[|run| - 1], run'[|run'| - 1];
      && e.now == s.now && e.healthy
      && e.calls == s.calls[t := Finished(serial, Ok(cs), Fetched)]
      && e.cache == s.cache[Decimal(serial) := CacheEntry(cs, Plus(s.now, cfg.cacheTtl))]
  {
    run' := FetchAndRecord(cfg, run, t, serial, reply, cs);
    run' := Extend(cfg, run', t, Stamp);
    run' := Extend(cfg, run', t, Store);
  }

  /**
   The source's own cache lacks the response cache's guarantee: for every serial and every reply that the
   mapping understands as good, some run, its wall clock never stepped, deletes an entry that is
   unexpired at that moment.
   */
  lemma DeleteCanDropFreshEntry(cfg: Config, start: State, serial: int, reply: Reply) returns (run: seq<State>)
    requires Init(start) && cfg.cacheTtl > 0 && cfg.maxAttempts >= 1
    requires Says(cfg.mapping, reply, cfg.mapping.goodValues)
    ensures IsRun(cfg, run) && NeverStepped(run) && |run| >= 2
    ensures
      var s, s', key := run[|run| - 2], run[|run| - 1], Decimal(serial);
      && s'.now == s.now && key in s.cache && s.now.mono < s.cache[key].expiresAt.mono && key !in s'.cache
  {
    var key, cs := Decimal(serial), Plain(Good);
    MappingMeaning(cfg.mapping, reply, start.now.wall);
    MappingMeaning(cfg.mapping, reply, start.now.wall + cfg.cacheTtl);
    assert IsRun(cfg, [start]);
    var r1 := ColdCall(cfg, [start], 1, serial);
    var r2 := ColdCall(cfg, r1, 2, serial);
    var r3 := FetchAndStore(cfg, r2, 1, serial, reply, cs);
    var r4 := ExtendClock(cfg, r3, Plus(start.now, cfg.cacheTtl));
    var r5 := Extend(cfg, r4, 3, Begin(serial));
    var r6 := Extend(cfg, r5, 3, ReadHealth);
    var r7 := Extend(cfg, r6, 3, LoadEntry);
    var r8 := Extend(cfg, r7, 3, TestEntry);
    assert r8[|r8| - 1].calls[3] == Purging(serial);
    assert r8[|r8| - 1].calls[2] == Fetching(serial, 0);
    var r9 := FetchAndStore(cfg, r8, 2, serial, reply, cs);
    run := Extend(cfg, r9, 3, Delete);
    assert run[|run| - 2] == r9[|r9| - 1];
  }
}
